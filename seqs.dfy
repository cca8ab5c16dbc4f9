/** Small facts about slices, proved once in a small context and reused. */
module Seqs {

  lemma AppendPair<T>(x: seq<T>, a: T, b: T)
    ensures x + [a] + [b] == x + [a, b]
  {
  }

  lemma SliceSlice<T>(s: seq<T>, lo: nat, hi: nat, a: nat, b: nat)
    requires lo <= hi <= |s| && a <= b <= hi - lo
    ensures s[lo..hi][a..b] == s[lo + a..lo + b]
  {
    var u := s[lo..hi];
    forall k | 0 <= k < b - a ensures u[a..b][k] == s[lo + a..lo + b][k] {
      assert u[a..b][k] == u[a + k] == s[lo + a + k];
    }
  }

  lemma DropCons<T>(s: seq<T>, i: nat)
    requires i < |s|
    ensures s[i..] == [s[i]] + s[i + 1..]
  {
  }

  lemma AppendSlice<T>(c: seq<T>, b: seq<T>, lo: nat, hi: nat)
    requires lo <= hi <= |b|
    ensures (c + b)[|c| + lo..|c| + hi] == b[lo..hi]
  {
  }

  lemma SliceCons<T>(s: seq<T>, i: nat, n: nat)
    requires i < n <= |s|
    ensures s[i..n] == [s[i]] + s[i + 1..n]
  {
  }

  lemma AppendAssoc<T>(a: seq<T>, b: seq<T>, c: seq<T>)
    ensures a + (b + c) == (a + b) + c
  {
  }

  lemma PrefixAppend<T>(c: seq<T>, r: seq<T>)
    ensures (c + r)[0..|c|] == c
  {
  }

  lemma InSlice<T>(s: seq<T>, lo: nat, hi: nat, c: T)
    requires lo <= hi <= |s|
    ensures c in s[lo..hi] ==> c in s
  {
    if c in s[lo..hi] {
      var k :| 0 <= k < hi - lo && s[lo..hi][k] == c;
      assert s[lo + k] == c;
    }
  }
}
