/**
 * Python's `str.strip()` with no argument: remove leading and trailing characters
 * of the whitespace class, keep everything between untouched.
 */
module Trim {

  /** `str.strip()`: cut whitespace off the front, then off the back, while there is
      any. Never longer than its input. */
  function Strip(space: set<char>, t: seq<char>): (r: seq<char>)
    ensures |r| <= |t|
    decreases |t|
  {
    if |t| > 0 && t[0] in space then Strip(space, t[1..])
    else if |t| > 0 && t[|t| - 1] in space then Strip(space, t[..|t| - 1])
    else t
  }

  /** The stripped text is one slice `t[a..b]`: everything cut off on either side is
      whitespace, and the slice neither starts nor ends with whitespace. */
  lemma {:induction false} StripCuts(space: set<char>, t: seq<char>) returns (a: nat, b: nat)
    ensures a <= b <= |t| && Strip(space, t) == t[a..b]
    ensures forall k :: 0 <= k < a ==> t[k] in space
    ensures forall k :: b <= k < |t| ==> t[k] in space
    ensures a < b ==> t[a] !in space && t[b - 1] !in space
    decreases |t|
  {
    if |t| > 0 && t[0] in space {
      var a', b' := StripCuts(space, t[1..]);
      a, b := a' + 1, b' + 1;
      assert t[1..][a'..b'] == t[a..b];
      forall k | 1 <= k < |t| ensures t[k] == t[1..][k - 1] { }
    } else if |t| > 0 && t[|t| - 1] in space {
      var u := t[..|t| - 1];
      a, b := StripCuts(space, u);
      assert u[a..b] == t[a..b];
      forall k | 0 <= k < |u| ensures t[k] == u[k] { }
    } else {
      a, b := 0, |t|;
    }
  }

  /** Strip is characterised by its cut points: any slice `t[a..b]` with only whitespace
      outside it and non-whitespace at both of its ends (or empty, when all of `t` is
      whitespace) is the stripped text. */
  lemma StripUnique(space: set<char>, t: seq<char>, a: nat, b: nat)
    requires a <= b <= |t|
    requires forall k :: 0 <= k < a ==> t[k] in space
    requires forall k :: b <= k < |t| ==> t[k] in space
    requires a < b ==> t[a] !in space && t[b - 1] !in space
    ensures Strip(space, t) == t[a..b]
  {
    var a', b' := StripCuts(space, t);
    if a < b {
      assert a' <= a && a <= a';
      assert b' <= b && b <= b';
    }
  }

  /** Stripping twice is stripping once. */
  lemma StripIdempotent(space: set<char>, t: seq<char>)
    ensures Strip(space, Strip(space, t)) == Strip(space, t)
  {
    var a, b := StripCuts(space, t);
    var r := Strip(space, t);
    StripUnique(space, r, 0, |r|);
  }

  /** Stripping only removes characters: whatever is left occurs in the input. */
  lemma StripWithin(space: set<char>, t: seq<char>)
    ensures forall c :: c in Strip(space, t) ==> c in t
  {
    var a, b := StripCuts(space, t);
    forall c | c in Strip(space, t) ensures c in t {
      var k :| 0 <= k < b - a && t[a..b][k] == c;
      assert t[a + k] == c;
    }
  }
}
