/**
 * What the quoting pass guarantees: its output holds no node left to quote, so a
 * second pass changes nothing, and the pass for one delimiter pair leaves the nodes
 * of the other pair alone.
 */
module QuotingLaws {
  import opened Wrappers
  import opened Trim
  import opened Seqs
  import opened Quoting

  /** No node of the pattern for `d` begins anywhere in `s`. */
  ghost predicate Quiet(cl: CharClasses, d: Delims, s: seq<char>) {
    forall p, j, e :: !IsMatch(cl, d, s, p, j, e)
  }

  /** The index just past the maximal run of characters other than `"` from `k`. */
  function UnquotedEnd(x: seq<char>, k: nat): (f: nat)
    requires k <= |x|
    ensures k <= f <= |x|
    decreases |x| - k
  {
    if k == |x| || x[k] == '"' then k else UnquotedEnd(x, k + 1)
  }

  lemma {:induction false} UnquotedEndMaximal(x: seq<char>, k: nat)
    requires k <= |x|
    ensures forall m :: k <= m < UnquotedEnd(x, k) ==> x[m] != '"'
    ensures UnquotedEnd(x, k) == |x| || x[UnquotedEnd(x, k)] == '"'
    decreases |x| - k
  {
    if k < |x| && x[k] != '"' {
      UnquotedEndMaximal(x, k + 1);
    }
  }

  lemma {:induction false} UnquotedEndUnique(x: seq<char>, k: nat, f: nat)
    requires k <= f <= |x|
    requires forall m :: k <= m < f ==> x[m] != '"'
    requires f == |x| || x[f] == '"'
    ensures UnquotedEnd(x, k) == f
    decreases f - k
  {
    if k < f {
      UnquotedEndUnique(x, k + 1, f);
    }
  }

  /** Up to its first double quote, `x` is a copy of `s` from index `i` on. */
  ghost predicate Echoes(x: seq<char>, s: seq<char>, i: nat) {
    i + UnquotedEnd(x, 0) <= |s| && forall m :: 0 <= m < UnquotedEnd(x, 0) ==> x[m] == s[i + m]
  }

  /** A node holds no double quote: not in the identifier, not in the label, and
      neither delimiter is one. */
  lemma MatchUnquoted(cl: CharClasses, d: Delims, x: seq<char>, p: int, j: int, e: int)
    requires cl.Sound() && Supported(d)
    ensures IsMatch(cl, d, x, p, j, e) ==> forall k :: p <= k <= e ==> x[k] != '"'
  {
    if IsMatch(cl, d, x, p, j, e) {
      forall k | p <= k <= e ensures x[k] != '"' {
        if k < j {
          assert IsWordChar(cl, x[k]);
        } else if j < k < e {
          assert IsLabelChar(d, x[k]);
        }
      }
    }
  }

  /** A node is made of its characters only: another string that agrees with `x` on
      the node's extent, moved by `off`, holds the same node there. */
  lemma MatchTransfer(cl: CharClasses, d: Delims, x: seq<char>, y: seq<char>,
                      p: int, j: int, e: int, off: int)
    ensures IsMatch(cl, d, x, p, j, e) && 0 <= p + off && e + off < |y|
            && (forall k :: p <= k <= e ==> x[k] == y[k + off])
        ==> IsMatch(cl, d, y, p + off, j + off, e + off)
  {
    if IsMatch(cl, d, x, p, j, e) && 0 <= p + off && e + off < |y|
       && (forall k :: p <= k <= e ==> x[k] == y[k + off]) {
      forall k | p + off <= k < j + off ensures IsWordChar(cl, y[k]) {
        assert x[k - off] == y[k];
        assert IsWordChar(cl, x[k - off]);
      }
      forall k | j + off < k < e + off ensures IsLabelChar(d, y[k]) {
        assert x[k - off] == y[k];
        assert IsLabelChar(d, x[k - off]);
      }
      assert x[j] == y[j + off] && x[e] == y[e + off];
    }
  }

  /** The pass from `i` emits `g` and goes on from `n`. */
  ghost predicate Steps(cl: CharClasses, d: Delims, s: seq<char>, i: nat, g: seq<char>, n: nat) {
    i <= n <= |s| && QuoteFrom(cl, d, s, i) == g + QuoteFrom(cl, d, s, n)
  }

  lemma FoundStep(cl: CharClasses, d: Delims, s: seq<char>, i: nat, m: Span, n: nat)
    requires i <= |s| && MatchAt(cl, d, s, i) == Some(m) && n == m.e + 1
    ensures Steps(cl, d, s, i, AddQuotes(cl, GroupsOf(s, i, m)), n)
  {
    QuoteFound(cl, d, s, i, m, n);
  }

  /** Where the scanner finds nothing, one character is copied. */
  lemma CopyStep(cl: CharClasses, d: Delims, s: seq<char>, i: nat, n: nat)
    requires i < |s| && MatchAt(cl, d, s, i).None? && n == i + 1
    ensures Steps(cl, d, s, i, [s[i]], n)
  {
  }

  /** Where the scanner finds a node, the node is rewritten to `w["label"]`, with the
      label a slice `s[a..b]` of the original one. */
  lemma NodeStep(cl: CharClasses, d: Delims, s: seq<char>, i: nat, m: Span, n: nat)
    returns (a: nat, b: nat)
    requires i <= |s| && MatchAt(cl, d, s, i) == Some(m) && n == m.e + 1
    ensures IsMatch(cl, d, s, i, m.j, m.e) && m.j + 1 <= a <= b <= m.e
    ensures Steps(cl, d, s, i, s[i..m.j + 1] + ['"'] + s[a..b] + ['"', d.close], n)
  {
    MatchAtSound(cl, d, s, i);
    FoundStep(cl, d, s, i, m, n);
    a, b := NodeRewrite(cl, d, s, i, m);
    var g, g' := AddQuotes(cl, GroupsOf(s, i, m)), s[i..m.j + 1] + ['"'] + s[a..b] + ['"', d.close];
    StepsSame(cl, d, s, i, g, g', n);
  }

  lemma StepsSame(cl: CharClasses, d: Delims, s: seq<char>, i: nat, g: seq<char>, g': seq<char>, n: nat)
    requires Steps(cl, d, s, i, g, n) && g == g'
    ensures Steps(cl, d, s, i, g', n)
  {
  }

  /** On text with no node from `i` on, the pass is the identity from `i` on. */
  lemma {:induction false} QuietFixed(cl: CharClasses, d: Delims, s: seq<char>, i: nat)
    requires cl.Sound() && Supported(d) && i <= |s|
    requires forall p, j, e :: i <= p ==> !IsMatch(cl, d, s, p, j, e)
    ensures QuoteFrom(cl, d, s, i) == s[i..]
    decreases |s| - i
  {
    if i < |s| {
      QuoteCopy(cl, d, s, i);
      QuietFixed(cl, d, s, i + 1);
      DropCons(s, i);
    }
  }

  /** Up to its first double quote the output is the input copied: the pass only ever
      changes text after an opening delimiter, and the first change it makes there is
      to insert a quote. */
  lemma {:induction false} QuoteEcho(cl: CharClasses, d: Delims, s: seq<char>, i: nat)
    requires cl.Sound() && Supported(d) && i <= |s|
    ensures Echoes(QuoteFrom(cl, d, s, i), s, i)
    decreases |s| - i
  {
    if i < |s| {
      match MatchAt(cl, d, s, i)
      case None =>
        var n := i + 1;
        QuoteEcho(cl, d, s, n);
        EchoCopyStep(cl, d, s, i, n);
      case Some(m) =>
        var n := m.e + 1;
        EchoNodeStep(cl, d, s, i, m, n);
    }
  }

  lemma EchoCopyStep(cl: CharClasses, d: Delims, s: seq<char>, i: nat, n: nat)
    requires i < |s| && MatchAt(cl, d, s, i).None? && n == i + 1
    requires Echoes(QuoteFrom(cl, d, s, n), s, n)
    ensures Echoes(QuoteFrom(cl, d, s, i), s, i)
  {
    var rest := QuoteFrom(cl, d, s, n);
    CopyStep(cl, d, s, i, n);
    EchoCons(s, i, n, rest);
  }

  lemma EchoNodeStep(cl: CharClasses, d: Delims, s: seq<char>, i: nat, m: Span, n: nat)
    requires cl.Sound() && Supported(d)
    requires i < |s| && MatchAt(cl, d, s, i) == Some(m) && n == m.e + 1
    ensures Echoes(QuoteFrom(cl, d, s, i), s, i)
  {
    var rest := QuoteFrom(cl, d, s, n);
    var a, b := NodeStep(cl, d, s, i, m, n);
    EchoNode(cl, d, s, i, m.j, m.e, a, b, rest);
  }

  lemma EchoCons(s: seq<char>, i: nat, n: nat, rest: seq<char>)
    requires i < |s| && n == i + 1
    requires Echoes(rest, s, n)
    ensures Echoes([s[i]] + rest, s, i)
  {
    var x := [s[i]] + rest;
    if s[i] != '"' {
      var f := UnquotedEnd(rest, 0);
      UnquotedEndMaximal(rest, 0);
      forall m | 0 <= m < f + 1 ensures x[m] != '"' {
        if m > 0 {
          assert x[m] == rest[m - 1];
        }
      }
      UnquotedEndUnique(x, 0, f + 1);
    }
  }

  /** The text a node is rewritten to, followed by `rest`, laid out index by index. */
  lemma NodeLayout(cl: CharClasses, d: Delims, s: seq<char>, i: nat, j: int, e: int,
                   a: nat, b: nat, rest: seq<char>)
    requires IsMatch(cl, d, s, i, j, e) && j + 1 <= a <= b <= e
    ensures var x := s[i..j + 1] + ['"'] + s[a..b] + ['"', d.close] + rest;
            var q := j - i + 2 + b - a;
            && |x| == q + 2 + |rest|
            && (forall k :: 0 <= k <= j - i ==> x[k] == s[i + k])
            && (forall k :: 0 <= k < j - i ==> IsWordChar(cl, x[k]))
            && x[j - i + 1] == '"'
            && (forall k :: j - i + 2 <= k < q ==> x[k] == s[k + a - (j - i + 2)])
            && (forall k :: j - i + 2 <= k < q ==> x[k] != '"' && IsLabelChar(d, x[k]))
            && x[q] == '"' && x[q + 1] == d.close
            && (forall k :: q + 2 <= k < |x| ==> x[k] == rest[k - (q + 2)])
  {
    var x := s[i..j + 1] + ['"'] + s[a..b] + ['"', d.close] + rest;
    forall k | 0 <= k < j - i ensures IsWordChar(cl, x[k]) {
      assert x[k] == s[i + k];
    }
    forall k | j - i + 2 <= k < j - i + 2 + b - a ensures x[k] != '"' && IsLabelChar(d, x[k]) {
      assert x[k] == s[k + a - (j - i + 2)];
      assert IsLabelChar(d, s[k + a - (j - i + 2)]);
    }
  }

  lemma EchoNode(cl: CharClasses, d: Delims, s: seq<char>, i: nat, j: int, e: int,
                 a: nat, b: nat, rest: seq<char>)
    requires cl.Sound() && Supported(d)
    requires IsMatch(cl, d, s, i, j, e) && j + 1 <= a <= b <= e
    ensures Echoes(s[i..j + 1] + ['"'] + s[a..b] + ['"', d.close] + rest, s, i)
  {
    var x := s[i..j + 1] + ['"'] + s[a..b] + ['"', d.close] + rest;
    NodeLayout(cl, d, s, i, j, e, a, b, rest);
    forall m | 0 <= m < j - i + 1 ensures x[m] != '"' {
      if m < j - i {
        assert IsWordChar(cl, s[i + m]);
      }
    }
    UnquotedEndUnique(x, 0, j - i + 1);
  }

  /** Where the node is followed by a quoted copy of its original label's stripped
      text, the first double quote comes right after the opening delimiter. */
  lemma EchoMatch(cl: CharClasses, d: Delims, x: seq<char>, s: seq<char>, i: nat, j: int, e: int)
    requires cl.Sound() && Supported(d)
    ensures IsMatch(cl, d, x, 0, j, e) && Echoes(x, s, i) ==> IsMatch(cl, d, s, i, i + j, i + e)
  {
    MatchUnquoted(cl, d, x, 0, j, e);
    UnquotedEndMaximal(x, 0);
    MatchTransfer(cl, d, x, s, 0, j, e, i);
  }

  /** A copied character followed by text with no node, where the copied character
      starts no node and the text up to the first double quote echoes the input, holds
      no node. */
  lemma CopyQuiet(cl: CharClasses, d: Delims, s: seq<char>, i: nat, rest: seq<char>)
    requires cl.Sound() && Supported(d) && i < |s|
    requires Quiet(cl, d, rest) && Echoes([s[i]] + rest, s, i)
    requires forall j, e :: !IsMatch(cl, d, s, i, j, e)
    ensures Quiet(cl, d, [s[i]] + rest)
  {
    var x := [s[i]] + rest;
    forall p, j, e ensures !IsMatch(cl, d, x, p, j, e) {
      if p == 0 {
        EchoMatch(cl, d, x, s, i, j, e);
      } else {
        MatchTransfer(cl, d, x, rest, p, j, e, -1);
      }
    }
  }

  /** A quoted node `w["t"]` at the front of `x`, with no double quote in `t`: a node
      of either pattern that begins inside it lies wholly inside `t`. The identifier
      runs into the opening delimiter and then a quote, which no label may start
      with; a label inside `t` must close before the second quote. */
  lemma QuotedHead(cl: CharClasses, d1: Delims, dn: Delims, x: seq<char>, n: nat, q: nat,
                   p: int, pj: int, pe: int)
    requires cl.Sound() && Supported(dn) && Supported(d1)
    requires n + 2 <= q && q + 1 < |x|
    requires forall k :: 0 <= k < n ==> IsWordChar(cl, x[k])
    requires x[n] == dn.open && x[n + 1] == '"' && x[q] == '"' && x[q + 1] == dn.close
    requires forall k :: n + 2 <= k < q ==> x[k] != '"'
    requires p < q + 2
    ensures IsMatch(cl, d1, x, p, pj, pe) ==> n + 2 <= p && pe < q
  {
    assert IsMatch(cl, d1, x, p, pj, pe) ==> IsWordChar(cl, x[p]);
    assert !IsWordChar(cl, x[n]) && !IsLabelChar(d1, x[n + 1]);
    assert !IsWordChar(cl, x[q]) && !IsLabelChar(d1, x[q]);
  }

  /** The text a node is rewritten to, followed by text with no `d1`-node, holds no
      `d1`-node, provided either `d1` is the pattern that was applied or the input held
      no `d1`-node to begin with. */
  lemma NodeQuiet(cl: CharClasses, d1: Delims, d: Delims, s: seq<char>, i: nat, j: int, e: int,
                  a: nat, b: nat, rest: seq<char>)
    requires cl.Sound() && Supported(d) && Supported(d1)
    requires IsMatch(cl, d, s, i, j, e) && j + 1 <= a <= b <= e
    requires Quiet(cl, d1, rest) && (d1 == d || Quiet(cl, d1, s))
    ensures Quiet(cl, d1, s[i..j + 1] + ['"'] + s[a..b] + ['"', d.close] + rest)
  {
    var x := s[i..j + 1] + ['"'] + s[a..b] + ['"', d.close] + rest;
    var n, q := j - i, j - i + 2 + b - a;
    NodeLayout(cl, d, s, i, j, e, a, b, rest);
    forall p, pj, pe ensures !IsMatch(cl, d1, x, p, pj, pe) {
      if p < q + 2 {
        QuotedHead(cl, d1, d, x, n, q, p, pj, pe);
        if d1 != d {
          MatchTransfer(cl, d1, x, s, p, pj, pe, a - (n + 2));
        }
      } else {
        MatchTransfer(cl, d1, x, rest, p, pj, pe, -(q + 2));
      }
    }
  }

  /** The output of the pass for `d` holds no `d`-node, and no `d1`-node either when
      the input held none. */
  lemma {:induction false} QuoteQuietFrom(cl: CharClasses, d1: Delims, d: Delims, s: seq<char>, i: nat)
    requires cl.Sound() && Supported(d) && Supported(d1) && i <= |s|
    requires d1 == d || Quiet(cl, d1, s)
    ensures Quiet(cl, d1, QuoteFrom(cl, d, s, i))
    decreases |s| - i
  {
    if i < |s| {
      match MatchAt(cl, d, s, i)
      case None =>
        var n := i + 1;
        QuoteQuietFrom(cl, d1, d, s, n);
        QuietCopyStep(cl, d1, d, s, i, n);
      case Some(m) =>
        var n := m.e + 1;
        QuoteQuietFrom(cl, d1, d, s, n);
        QuietNodeStep(cl, d1, d, s, i, m, n);
    }
  }

  lemma QuietCopyStep(cl: CharClasses, d1: Delims, d: Delims, s: seq<char>, i: nat, n: nat)
    requires cl.Sound() && Supported(d) && Supported(d1)
    requires i < |s| && MatchAt(cl, d, s, i).None? && n == i + 1
    requires d1 == d || Quiet(cl, d1, s)
    requires Quiet(cl, d1, QuoteFrom(cl, d, s, n))
    ensures Quiet(cl, d1, QuoteFrom(cl, d, s, i))
  {
    var rest := QuoteFrom(cl, d, s, n);
    QuoteEcho(cl, d, s, i);
    MatchAtNone(cl, d, s, i);
    CopyStep(cl, d, s, i, n);
    CopyQuiet(cl, d1, s, i, rest);
  }

  lemma QuietNodeStep(cl: CharClasses, d1: Delims, d: Delims, s: seq<char>, i: nat, m: Span, n: nat)
    requires cl.Sound() && Supported(d) && Supported(d1)
    requires i < |s| && MatchAt(cl, d, s, i) == Some(m) && n == m.e + 1
    requires d1 == d || Quiet(cl, d1, s)
    requires Quiet(cl, d1, QuoteFrom(cl, d, s, n))
    ensures Quiet(cl, d1, QuoteFrom(cl, d, s, i))
  {
    var rest := QuoteFrom(cl, d, s, n);
    var a, b := NodeStep(cl, d, s, i, m, n);
    var g := s[i..m.j + 1] + ['"'] + s[a..b] + ['"', d.close];
    NodeQuiet(cl, d1, d, s, i, m.j, m.e, a, b, rest);
    QuietStep(cl, d1, d, s, i, g, n);
  }

  lemma QuietStep(cl: CharClasses, d1: Delims, d: Delims, s: seq<char>, i: nat, g: seq<char>, n: nat)
    requires Steps(cl, d, s, i, g, n) && Quiet(cl, d1, g + QuoteFrom(cl, d, s, n))
    ensures Quiet(cl, d1, QuoteFrom(cl, d, s, i))
  {
  }

  /** No node is left to quote after the pass. */
  lemma QuoteQuiet(cl: CharClasses, d: Delims, s: seq<char>)
    requires cl.Sound() && Supported(d)
    ensures Quiet(cl, d, Quote(cl, d, s))
  {
    QuoteQuietFrom(cl, d, d, s, 0);
  }

  /** The pass for one delimiter pair creates no node of the other. */
  lemma QuotePreservesQuiet(cl: CharClasses, d1: Delims, d: Delims, s: seq<char>)
    requires cl.Sound() && Supported(d) && Supported(d1)
    requires Quiet(cl, d1, s)
    ensures Quiet(cl, d1, Quote(cl, d, s))
  {
    QuoteQuietFrom(cl, d1, d, s, 0);
  }

  /** Running the pass on its own output changes nothing. */
  lemma QuoteIdempotent(cl: CharClasses, d: Delims, s: seq<char>)
    requires cl.Sound() && Supported(d)
    ensures Quote(cl, d, Quote(cl, d, s)) == Quote(cl, d, s)
  {
    QuoteQuiet(cl, d, s);
    QuietFixed(cl, d, Quote(cl, d, s), 0);
  }

  /** The pass from `i` copies `s[i..n]` and then goes on from `n`. */
  ghost predicate CopiesUpTo(cl: CharClasses, d: Delims, s: seq<char>, i: nat, n: nat)
    requires i <= n <= |s|
  {
    QuoteFrom(cl, d, s, i) == s[i..n] + QuoteFrom(cl, d, s, n)
  }

  /** Where no node begins at any index of `[i, n)`, that stretch is copied as it is. */
  lemma QuoteCopyPrefix(cl: CharClasses, d: Delims, s: seq<char>, i: nat, n: nat)
    requires cl.Sound() && Supported(d) && i <= n <= |s|
    requires forall p, j, e :: i <= p < n ==> !IsMatch(cl, d, s, p, j, e)
    ensures QuoteFrom(cl, d, s, i) == s[i..n] + QuoteFrom(cl, d, s, n)
  {
    CopyPrefix(cl, d, s, i, n);
  }

  lemma {:induction false} CopyPrefix(cl: CharClasses, d: Delims, s: seq<char>, i: nat, n: nat)
    requires cl.Sound() && Supported(d) && i <= n <= |s|
    requires forall p, j, e :: i <= p < n ==> !IsMatch(cl, d, s, p, j, e)
    ensures CopiesUpTo(cl, d, s, i, n)
    decreases n - i
  {
    if i < n {
      CopyPrefix(cl, d, s, i + 1, n);
      CopyPrefixStep(cl, d, s, i, n);
    } else {
      assert s[i..n] == [];
    }
  }

  lemma CopyPrefixStep(cl: CharClasses, d: Delims, s: seq<char>, i: nat, n: nat)
    requires cl.Sound() && Supported(d) && i < n <= |s|
    requires forall j, e :: !IsMatch(cl, d, s, i, j, e)
    requires CopiesUpTo(cl, d, s, i + 1, n)
    ensures CopiesUpTo(cl, d, s, i, n)
  {
    QuoteCopy(cl, d, s, i);
    SliceCons(s, i, n);
    AppendAssoc([s[i]], s[i + 1..n], QuoteFrom(cl, d, s, n));
  }

  lemma {:induction false} WordEndShift(cl: CharClasses, c: seq<char>, b: seq<char>, i: nat)
    requires i <= |b|
    ensures WordEnd(cl, c + b, |c| + i) == |c| + WordEnd(cl, b, i)
    decreases |b| - i
  {
    if i < |b| {
      assert (c + b)[|c| + i] == b[i];
      WordEndShift(cl, c, b, i + 1);
    }
  }

  lemma {:induction false} LabelEndShift(d: Delims, c: seq<char>, b: seq<char>, i: nat)
    requires i <= |b|
    ensures LabelEnd(d, c + b, |c| + i) == |c| + LabelEnd(d, b, i)
    decreases |b| - i
  {
    if i < |b| {
      assert (c + b)[|c| + i] == b[i];
      LabelEndShift(d, c, b, i + 1);
    }
  }

  /** The scanner only looks ahead: what it finds at an index does not depend on the
      text before it. */
  lemma MatchAtShift(cl: CharClasses, d: Delims, c: seq<char>, b: seq<char>, i: nat)
    requires i <= |b|
    ensures MatchAt(cl, d, c + b, |c| + i).Some? == MatchAt(cl, d, b, i).Some?
    ensures MatchAt(cl, d, b, i).Some? ==>
      MatchAt(cl, d, c + b, |c| + i).value
        == Span(|c| + MatchAt(cl, d, b, i).value.j, |c| + MatchAt(cl, d, b, i).value.e)
  {
    WordEndShift(cl, c, b, i);
    var j := WordEnd(cl, b, i);
    if i < j < |b| {
      assert (c + b)[|c| + j] == b[j];
      LabelEndShift(d, c, b, j + 1);
      var e := LabelEnd(d, b, j + 1);
      if e < |b| {
        assert (c + b)[|c| + e] == b[e];
      }
    }
  }

  /** The pass on `c + b` from index `|c| + i` gives what the pass on `b` gives from `i`. */
  ghost predicate ShiftAgrees(cl: CharClasses, d: Delims, c: seq<char>, b: seq<char>, i: nat)
    requires i <= |b|
  {
    QuoteFrom(cl, d, c + b, |c| + i) == QuoteFrom(cl, d, b, i)
  }

  /** The pass from an index depends only on the text from that index on. */
  lemma QuoteShift(cl: CharClasses, d: Delims, c: seq<char>, b: seq<char>, i: nat)
    requires i <= |b|
    ensures QuoteFrom(cl, d, c + b, |c| + i) == QuoteFrom(cl, d, b, i)
  {
    Shift(cl, d, c, b, i);
  }

  lemma {:induction false} Shift(cl: CharClasses, d: Delims, c: seq<char>, b: seq<char>, i: nat)
    requires i <= |b|
    ensures ShiftAgrees(cl, d, c, b, i)
    decreases |b| - i
  {
    if i < |b| {
      match MatchAt(cl, d, b, i)
      case None =>
        var n := i + 1;
        Shift(cl, d, c, b, n);
        ShiftCopyStep(cl, d, c, b, i, n);
      case Some(m) =>
        var n := m.e + 1;
        Shift(cl, d, c, b, n);
        ShiftNodeStep(cl, d, c, b, i, m, n);
    }
  }

  lemma ShiftCopyStep(cl: CharClasses, d: Delims, c: seq<char>, b: seq<char>, i: nat, n: nat)
    requires i < |b| && MatchAt(cl, d, b, i).None? && n == i + 1
    requires ShiftAgrees(cl, d, c, b, n)
    ensures ShiftAgrees(cl, d, c, b, i)
  {
    MatchAtShift(cl, d, c, b, i);
    assert (c + b)[|c| + i] == b[i];
  }

  lemma ShiftNodeStep(cl: CharClasses, d: Delims, c: seq<char>, b: seq<char>, i: nat, m: Span, n: nat)
    requires i < |b| && MatchAt(cl, d, b, i) == Some(m) && n == m.e + 1
    requires ShiftAgrees(cl, d, c, b, n)
    ensures ShiftAgrees(cl, d, c, b, i)
  {
    var g := AddQuotes(cl, GroupsOf(b, i, m));
    FoundStep(cl, d, b, i, m, n);
    ShiftedFoundStep(cl, d, c, b, i, m, n);
    StepGlue(cl, d, c, b, i, g, n);
  }

  /** What the scanner finds at `i` in `b` it finds at `|c| + i` in `c + b`. */
  lemma ShiftedMatch(cl: CharClasses, d: Delims, c: seq<char>, b: seq<char>, i: nat, m: Span)
    returns (m': Span)
    requires i < |b| && MatchAt(cl, d, b, i) == Some(m)
    ensures MatchAt(cl, d, c + b, |c| + i) == Some(m')
    ensures m'.j == |c| + m.j && m'.e == |c| + m.e
  {
    MatchAtShift(cl, d, c, b, i);
    m' := MatchAt(cl, d, c + b, |c| + i).value;
  }

  lemma ShiftedFoundStep(cl: CharClasses, d: Delims, c: seq<char>, b: seq<char>, i: nat, m: Span, n: nat)
    requires i < |b| && MatchAt(cl, d, b, i) == Some(m) && n == m.e + 1
    ensures Steps(cl, d, c + b, |c| + i, AddQuotes(cl, GroupsOf(b, i, m)), |c| + n)
  {
    var m' := ShiftedMatch(cl, d, c, b, i, m);
    var cb, ci, cn := c + b, |c| + i, |c| + n;
    var g', g := AddQuotes(cl, GroupsOf(cb, ci, m')), AddQuotes(cl, GroupsOf(b, i, m));
    FoundStep(cl, d, cb, ci, m', cn);
    GroupsShift(c, b, i, m, m');
    StepsSame(cl, d, cb, ci, g', g, cn);
  }

  lemma StepGlue(cl: CharClasses, d: Delims, c: seq<char>, b: seq<char>, i: nat, g: seq<char>, n: nat)
    requires i <= n <= |b|
    requires Steps(cl, d, c + b, |c| + i, g, |c| + n) && Steps(cl, d, b, i, g, n)
    requires ShiftAgrees(cl, d, c, b, n)
    ensures ShiftAgrees(cl, d, c, b, i)
  {
  }

  lemma GroupsShift(c: seq<char>, b: seq<char>, i: nat, m: Span, m': Span)
    requires i <= m.j < m.e < |b|
    requires m'.j == |c| + m.j && m'.e == |c| + m.e
    ensures GroupsOf(c + b, |c| + i, m') == GroupsOf(b, i, m)
  {
    AppendSlice(c, b, i, m.j + 1);
    AppendSlice(c, b, m.j + 1, m.e);
    AppendSlice(c, b, m.e, m.e + 1);
  }

  /** The quoted node `w["t"]` followed by `rest`, laid out index by index. */
  lemma QuotedLayout(w: seq<char>, dn: Delims, t: seq<char>, rest: seq<char>)
    ensures var x := w + [dn.open, '"'] + t + ['"', dn.close] + rest;
            var n, q := |w|, |w| + 2 + |t|;
            && |x| == q + 2 + |rest|
            && (forall k :: 0 <= k < n ==> x[k] == w[k])
            && x[n] == dn.open && x[n + 1] == '"'
            && (forall k :: n + 2 <= k < q ==> x[k] == t[k - (n + 2)])
            && x[q] == '"' && x[q + 1] == dn.close
  {
  }

  /** An already quoted node `w["t"]` at the front of the text, whose label holds no
      double quote and no closing delimiter of the pass, is kept as it is, and the pass
      goes on after it as if the text began there. */
  lemma QuotedNodeKept(cl: CharClasses, d: Delims, dn: Delims, w: seq<char>, t: seq<char>,
                       rest: seq<char>)
    requires cl.Sound() && Supported(d) && Supported(dn)
    requires forall k :: 0 <= k < |w| ==> IsWordChar(cl, w[k])
    requires forall k :: 0 <= k < |t| ==> t[k] != '"' && t[k] != d.close
    ensures Quote(cl, d, w + [dn.open, '"'] + t + ['"', dn.close] + rest)
         == w + [dn.open, '"'] + t + ['"', dn.close] + Quote(cl, d, rest)
  {
    QuotedNodeStartsNone(cl, d, dn, w, t, rest);
    QuoteAfterPrefix(cl, d, w + [dn.open, '"'] + t + ['"', dn.close], rest);
  }

  /** Text `c` in which no node begins is copied, and the pass goes on with `rest` as if
      the text began there. */
  lemma QuoteAfterPrefix(cl: CharClasses, d: Delims, c: seq<char>, rest: seq<char>)
    requires cl.Sound() && Supported(d)
    requires forall p, j, e :: 0 <= p < |c| ==> !IsMatch(cl, d, c + rest, p, j, e)
    ensures Quote(cl, d, c + rest) == c + Quote(cl, d, rest)
  {
    QuoteCopyPrefix(cl, d, c + rest, 0, |c|);
    PrefixAppend(c, rest);
    QuoteRestart(cl, d, c, rest, |c|);
  }

  lemma QuotedNodeStartsNone(cl: CharClasses, d: Delims, dn: Delims, w: seq<char>, t: seq<char>,
                             rest: seq<char>)
    requires cl.Sound() && Supported(d) && Supported(dn)
    requires forall k :: 0 <= k < |w| ==> IsWordChar(cl, w[k])
    requires forall k :: 0 <= k < |t| ==> t[k] != '"' && t[k] != d.close
    ensures var x := w + [dn.open, '"'] + t + ['"', dn.close] + rest;
            forall p, j, e :: 0 <= p < |w| + 4 + |t| ==> !IsMatch(cl, d, x, p, j, e)
  {
    var x := w + [dn.open, '"'] + t + ['"', dn.close] + rest;
    var n, q := |w|, |w| + 2 + |t|;
    QuotedLayout(w, dn, t, rest);
    forall p, j, e | 0 <= p < q + 2 ensures !IsMatch(cl, d, x, p, j, e) {
      QuotedHead(cl, d, dn, x, n, q, p, j, e);
    }
  }

  /** A node `w[t]` at the front of the text, laid out index by index. */
  lemma NodeFrontLayout(cl: CharClasses, d: Delims, w: seq<char>, t: seq<char>, rest: seq<char>)
    returns (x: seq<char>, m: Span)
    requires 0 < |w| && forall k :: 0 <= k < |w| ==> IsWordChar(cl, w[k])
    requires 0 < |t| && forall k :: 0 <= k < |t| ==> IsLabelChar(d, t[k])
    ensures x == w + [d.open] + t + [d.close] + rest
    ensures IsMatch(cl, d, x, 0, m.j, m.e) && x[m.e + 1..] == rest
    ensures GroupsOf(x, 0, m) == Groups(w + [d.open], t, [d.close])
  {
    x := w + [d.open] + t + [d.close] + rest;
    var j, e := |w|, |w| + 1 + |t|;
    m := Span(j, e);
    forall k | 0 <= k < j ensures IsWordChar(cl, x[k]) {
      assert x[k] == w[k];
    }
    forall k | j < k < e ensures IsLabelChar(d, x[k]) {
      assert x[k] == t[k - (j + 1)];
    }
    assert x[0..j + 1] == w + [d.open];
    assert x[j + 1..e] == t;
    assert x[e..e + 1] == [d.close];
    assert x[e + 1..] == rest;
  }

  /** A node `w[t]` at the front of the text becomes `w["strip(t)"]`, and the pass goes
      on after it as if the text began there. */
  lemma QuoteNodeFront(cl: CharClasses, d: Delims, w: seq<char>, t: seq<char>, rest: seq<char>)
    requires cl.Sound() && Supported(d)
    requires 0 < |w| && forall k :: 0 <= k < |w| ==> IsWordChar(cl, w[k])
    requires 0 < |t| && forall k :: 0 <= k < |t| ==> IsLabelChar(d, t[k])
    ensures Quote(cl, d, w + [d.open] + t + [d.close] + rest)
         == w + [d.open, '"'] + Strip(cl.space, t) + ['"', d.close] + Quote(cl, d, rest)
  {
    var x, m := NodeFrontLayout(cl, d, w, t, rest);
    QuoteFrontMatch(cl, d, x, 0, m);
    NodeFrontText(w, d, Strip(cl.space, t), Quote(cl, d, rest));
  }

  /** A node at the front of the text is rewritten, and the pass goes on after it as if
      the text began there. */
  lemma QuoteFrontMatch(cl: CharClasses, d: Delims, s: seq<char>, i: nat, m: Span)
    requires cl.Sound() && Supported(d)
    requires IsMatch(cl, d, s, i, m.j, m.e)
    ensures QuoteFrom(cl, d, s, i) == AddQuotes(cl, GroupsOf(s, i, m)) + Quote(cl, d, s[m.e + 1..])
  {
    var g := AddQuotes(cl, GroupsOf(s, i, m));
    calc {
      QuoteFrom(cl, d, s, i);
    ==  { QuoteNode(cl, d, s, i, m); }
      g + QuoteFrom(cl, d, s, m.e + 1);
    ==  { QuoteSuffix(cl, d, s, m.e + 1); }
      g + Quote(cl, d, s[m.e + 1..]);
    }
  }

  /** The pass on `s` from `n` is the pass on the suffix `s[n..]`. */
  lemma QuoteSuffix(cl: CharClasses, d: Delims, s: seq<char>, n: nat)
    requires n <= |s|
    ensures QuoteFrom(cl, d, s, n) == Quote(cl, d, s[n..])
  {
    assert s[..n] + s[n..] == s;
    QuoteRestart(cl, d, s[..n], s[n..], n);
  }

  /** The pass on `c + rest` from the end of `c` is the pass on `rest`. */
  lemma QuoteRestart(cl: CharClasses, d: Delims, c: seq<char>, rest: seq<char>, n: nat)
    requires n == |c|
    ensures QuoteFrom(cl, d, c + rest, n) == Quote(cl, d, rest)
  {
    QuoteShift(cl, d, c, rest, 0);
  }

  lemma NodeFrontText(w: seq<char>, d: Delims, t: seq<char>, rest: seq<char>)
    ensures (w + [d.open]) + ['"'] + t + ['"'] + [d.close] + rest
         == w + [d.open, '"'] + t + ['"', d.close] + rest
  {
  }

  /** The condition on the label of a quoted node is needed: the label of `A["b[c]"]`
      holds a node `b[c]` of its own, which the square pass finds between the quotes and
      rewrites, so the result is `A["b["c"]"]`. */
  lemma QuoteRewritesInsideQuotes(cl: CharClasses)
    requires cl.Sound() && 'A' in cl.word && 'b' in cl.word && 'c' !in cl.space
    ensures Quote(cl, Square, "A[\"b[c]\"]") == "A[\"b[\"c\"]\"]"
  {
    var c, w, t, tail := "A[\"", "b", "c", "\"]";
    var node := w + [Square.open] + t + [Square.close] + tail;
    PrefixQuotedNoMatch(cl, c, node);
    TailNoMatch(cl, tail);
    NodeAfterPrefix(cl, c, w, t, tail);
    NestedLayout(cl, c, w, t, tail);
  }

  /** How the example splits into pieces, before and after the pass. */
  lemma NestedLayout(cl: CharClasses, c: seq<char>, w: seq<char>, t: seq<char>, tail: seq<char>)
    requires 'c' !in cl.space
    requires c == "A[\"" && w == "b" && t == "c" && tail == "\"]"
    ensures c + (w + [Square.open] + t + [Square.close] + tail) == "A[\"b[c]\"]"
    ensures c + (w + [Square.open, '"'] + Strip(cl.space, t) + ['"', Square.close] + tail)
         == "A[\"b[\"c\"]\"]"
  {
    assert Strip(cl.space, t) == t;
  }

  /** `A["` followed by anything: no node begins in these three characters. */
  lemma PrefixQuotedNoMatch(cl: CharClasses, c: seq<char>, rest: seq<char>)
    requires cl.Sound() && c == "A[\""
    ensures forall p, j, e :: 0 <= p < |c| ==> !IsMatch(cl, Square, c + rest, p, j, e)
  {
    var x := c + rest;
    assert x[1] == '[' && x[2] == '"';
    assert !IsWordChar(cl, x[1]) && !IsWordChar(cl, x[2]) && !IsLabelChar(Square, x[2]);
  }

  /** `"]`: no node begins anywhere in it. */
  lemma TailNoMatch(cl: CharClasses, tail: seq<char>)
    requires cl.Sound() && tail == "\"]"
    ensures forall p, j, e :: 0 <= p ==> !IsMatch(cl, Square, tail, p, j, e)
  {
    assert !IsWordChar(cl, tail[0]);
  }

  /** A square node after a prefix where no node begins, followed by text where none
      begins either: only the node is rewritten. */
  lemma NodeAfterPrefix(cl: CharClasses, c: seq<char>, w: seq<char>, t: seq<char>, tail: seq<char>)
    requires cl.Sound()
    requires 0 < |w| && forall k :: 0 <= k < |w| ==> IsWordChar(cl, w[k])
    requires 0 < |t| && forall k :: 0 <= k < |t| ==> IsLabelChar(Square, t[k])
    requires forall p, j, e :: 0 <= p < |c| ==>
      !IsMatch(cl, Square, c + (w + [Square.open] + t + [Square.close] + tail), p, j, e)
    requires forall p, j, e :: 0 <= p ==> !IsMatch(cl, Square, tail, p, j, e)
    ensures Quote(cl, Square, c + (w + [Square.open] + t + [Square.close] + tail))
         == c + (w + [Square.open, '"'] + Strip(cl.space, t) + ['"', Square.close] + tail)
  {
    var node := w + [Square.open] + t + [Square.close] + tail;
    QuoteAfterPrefix(cl, Square, c, node);
    QuoteNodeFront(cl, Square, w, t, tail);
    QuietFixed(cl, Square, tail, 0);
    assert tail[0..] == tail;
  }
}
