/**
 * The node-label quoting pass `pattern.sub(add_quotes, content)` for the patterns
 * `(\w+\[)([^"\]\n]+)(\])` and `(\w+\{)([^"\}\n]+)(\})`: every leftmost,
 * non-overlapping match `ident[text]` becomes `ident["stripped text"]`.
 */
module Quoting {
  import opened Wrappers
  import opened Trim
  import opened Seqs

  /**
   * The two Unicode character classes the pass depends on, left abstract: `\w` and
   * the whitespace removed by `str.strip()`.
   */
  datatype CharClasses = CharClasses(word: set<char>, space: set<char>) {
    /** The one fact the model relies on: `\w` matches none of the four delimiters,
        the double quote and the newline. */
    predicate Sound() {
      '[' !in word && ']' !in word && '{' !in word && '}' !in word && '"' !in word && '\n' !in word
    }
  }

  predicate IsWordChar(cl: CharClasses, c: char) {
    c in cl.word
  }

  /** The opening and closing delimiter of one node pattern. */
  datatype Delims = Delims(open: char, close: char)

  const Square: Delims := Delims('[', ']')
  const Curly: Delims := Delims('{', '}')

  predicate Supported(d: Delims) {
    d == Square || d == Curly
  }

  /** The label class `[^"\]\n]` (resp. `[^"\}\n]`). */
  predicate IsLabelChar(d: Delims, c: char) {
    c != '"' && c != d.close && c != '\n'
  }

  /** The index just past the maximal run of label characters from `i`. */
  function LabelEnd(d: Delims, s: seq<char>, i: nat): (e: nat)
    requires i <= |s|
    ensures i <= e <= |s|
    decreases |s| - i
  {
    if i == |s| || !IsLabelChar(d, s[i]) then i else LabelEnd(d, s, i + 1)
  }

  lemma {:induction false} LabelEndMaximal(d: Delims, s: seq<char>, i: nat)
    requires i <= |s|
    ensures forall k :: i <= k < LabelEnd(d, s, i) ==> IsLabelChar(d, s[k])
    ensures LabelEnd(d, s, i) == |s| || !IsLabelChar(d, s[LabelEnd(d, s, i)])
    decreases |s| - i
  {
    if i < |s| && IsLabelChar(d, s[i]) {
      LabelEndMaximal(d, s, i + 1);
    }
  }

  lemma {:induction false} LabelEndUnique(d: Delims, s: seq<char>, i: nat, e: nat)
    requires i <= e <= |s|
    requires forall k :: i <= k < e ==> IsLabelChar(d, s[k])
    requires e == |s| || !IsLabelChar(d, s[e])
    ensures LabelEnd(d, s, i) == e
    decreases e - i
  {
    if i < e {
      LabelEndUnique(d, s, i + 1, e);
    }
  }

  /** The index just past the maximal run of word characters from `i`. */
  function WordEnd(cl: CharClasses, s: seq<char>, i: nat): (e: nat)
    requires i <= |s|
    ensures i <= e <= |s|
    decreases |s| - i
  {
    if i == |s| || !IsWordChar(cl, s[i]) then i else WordEnd(cl, s, i + 1)
  }

  lemma {:induction false} WordEndMaximal(cl: CharClasses, s: seq<char>, i: nat)
    requires i <= |s|
    ensures forall k :: i <= k < WordEnd(cl, s, i) ==> IsWordChar(cl, s[k])
    ensures WordEnd(cl, s, i) == |s| || !IsWordChar(cl, s[WordEnd(cl, s, i)])
    decreases |s| - i
  {
    if i < |s| && IsWordChar(cl, s[i]) {
      WordEndMaximal(cl, s, i + 1);
    }
  }

  lemma {:induction false} WordEndUnique(cl: CharClasses, s: seq<char>, i: nat, e: nat)
    requires i <= e <= |s|
    requires forall k :: i <= k < e ==> IsWordChar(cl, s[k])
    requires e == |s| || !IsWordChar(cl, s[e])
    ensures WordEnd(cl, s, i) == e
    decreases e - i
  {
    if i < e {
      WordEndUnique(cl, s, i + 1, e);
    }
  }

  /** Where a match lies: the opening delimiter at `j`, the closing one at `e`. */
  datatype Span = Span(j: nat, e: nat)

  /** The three groups of a match, as `match.groups()` returns them. */
  datatype Groups = Groups(start: seq<char>, text: seq<char>, end: seq<char>)

  /** A node begins at index `i` of `s`: word characters on `[i, j)` (at least one), the
      opening delimiter at `j`, label characters on `(j, e)` (at least one), the closing
      delimiter at `e`. */
  predicate IsMatch(cl: CharClasses, d: Delims, s: seq<char>, i: int, j: int, e: int) {
    && 0 <= i < j && j + 1 < e < |s|
    && (forall k {:trigger IsWordChar(cl, s[k])} :: i <= k < j ==> IsWordChar(cl, s[k]))
    && s[j] == d.open
    && (forall k {:trigger IsLabelChar(d, s[k])} :: j < k < e ==> IsLabelChar(d, s[k]))
    && s[e] == d.close
  }

  /** The pattern tried at index `i`: the maximal word run, the opening delimiter, the
      maximal label run, the closing delimiter. */
  function MatchAt(cl: CharClasses, d: Delims, s: seq<char>, i: nat): (m: Option<Span>)
    requires i <= |s|
    ensures m.Some? ==> i < m.value.j && m.value.j + 1 < m.value.e < |s|
  {
    var j := WordEnd(cl, s, i);
    if i < j < |s| && s[j] == d.open then
      var e := LabelEnd(d, s, j + 1);
      if j + 1 < e < |s| && s[e] == d.close then Some(Span(j, e)) else None
    else None
  }

  /** Whatever the scanner reports is a node. */
  lemma MatchAtSound(cl: CharClasses, d: Delims, s: seq<char>, i: nat)
    requires i <= |s|
    ensures MatchAt(cl, d, s, i).Some? ==>
      IsMatch(cl, d, s, i, MatchAt(cl, d, s, i).value.j, MatchAt(cl, d, s, i).value.e)
  {
    WordEndMaximal(cl, s, i);
    var j := WordEnd(cl, s, i);
    if i < j < |s| && s[j] == d.open {
      LabelEndMaximal(d, s, j + 1);
    }
  }

  /** Conversely, wherever a node begins the scanner reports exactly that node. Greedy
      runs need no backtracking: a shorter `\w+` would be followed by a word character,
      a shorter label by a label character, and neither is the delimiter the pattern
      needs next. */
  lemma MatchAtComplete(cl: CharClasses, d: Delims, s: seq<char>, i: nat, j: int, e: int)
    requires cl.Sound() && Supported(d)
    requires IsMatch(cl, d, s, i, j, e)
    ensures MatchAt(cl, d, s, i) == Some(Span(j, e))
  {
    WordEndUnique(cl, s, i, j);
    LabelEndUnique(d, s, j + 1, e);
  }

  /** The scanner finds nothing at `i` exactly when no node begins there. */
  lemma MatchAtNone(cl: CharClasses, d: Delims, s: seq<char>, i: nat)
    requires cl.Sound() && Supported(d) && i <= |s|
    ensures MatchAt(cl, d, s, i).None? <==> forall j, e :: !IsMatch(cl, d, s, i, j, e)
  {
    MatchAtSound(cl, d, s, i);
    forall j, e | IsMatch(cl, d, s, i, j, e) ensures MatchAt(cl, d, s, i).Some? {
      MatchAtComplete(cl, d, s, i, j, e);
    }
  }

  /** The groups of the match that begins at `i` and lies at `m`. */
  function GroupsOf(s: seq<char>, i: nat, m: Span): Groups
    requires i <= m.j < m.e < |s|
  {
    Groups(s[i..m.j + 1], s[m.j + 1..m.e], s[m.e..m.e + 1])
  }

  /** `add_quotes`: the first group, a quote, the label stripped of surrounding
      whitespace, a quote, the last group. */
  function AddQuotes(cl: CharClasses, g: Groups): seq<char> {
    g.start + ['"'] + Strip(cl.space, g.text) + ['"'] + g.end
  }

  /** `pattern.sub(add_quotes, s[i..])`, as the regular expression engine scans: where
      the pattern matches, the match is replaced and the scan resumes after it;
      elsewhere one character is copied and the scan moves on by one. */
  function QuoteFrom(cl: CharClasses, d: Delims, s: seq<char>, i: nat): seq<char>
    requires i <= |s|
    decreases |s| - i
  {
    if i == |s| then []
    else match MatchAt(cl, d, s, i)
      case Some(m) => AddQuotes(cl, GroupsOf(s, i, m)) + QuoteFrom(cl, d, s, m.e + 1)
      case None => [s[i]] + QuoteFrom(cl, d, s, i + 1)
  }

  /** `pattern.sub(add_quotes, s)`. */
  function Quote(cl: CharClasses, d: Delims, s: seq<char>): seq<char> {
    QuoteFrom(cl, d, s, 0)
  }

  /** A node beginning at `i` is replaced by what `add_quotes` makes of its groups, and
      the scan resumes just after its closing delimiter. */
  lemma QuoteNode(cl: CharClasses, d: Delims, s: seq<char>, i: nat, m: Span)
    requires cl.Sound() && Supported(d)
    requires IsMatch(cl, d, s, i, m.j, m.e)
    ensures QuoteFrom(cl, d, s, i) == AddQuotes(cl, GroupsOf(s, i, m)) + QuoteFrom(cl, d, s, m.e + 1)
  {
    MatchAtComplete(cl, d, s, i, m.j, m.e);
    var n := m.e + 1;
    QuoteFound(cl, d, s, i, m, n);
  }

  /** One step of the scan where the pattern matches. */
  lemma QuoteFound(cl: CharClasses, d: Delims, s: seq<char>, i: nat, m: Span, n: nat)
    requires i <= |s| && MatchAt(cl, d, s, i) == Some(m) && n == m.e + 1
    ensures n <= |s| && QuoteFrom(cl, d, s, i) == AddQuotes(cl, GroupsOf(s, i, m)) + QuoteFrom(cl, d, s, n)
  {
  }

  /** `strip()` applied to the label `s[lo..hi]` keeps the slice `s[a..b]`: only
      whitespace is cut off at either end, and none is left at its ends. */
  lemma LabelStrip(cl: CharClasses, s: seq<char>, lo: nat, hi: nat) returns (a: nat, b: nat)
    requires lo <= hi <= |s|
    ensures lo <= a <= b <= hi && Strip(cl.space, s[lo..hi]) == s[a..b]
    ensures forall k :: lo <= k < a ==> s[k] in cl.space
    ensures forall k :: b <= k < hi ==> s[k] in cl.space
    ensures a < b ==> s[a] !in cl.space && s[b - 1] !in cl.space
  {
    var t := s[lo..hi];
    var a', b' := StripCuts(cl.space, t);
    a, b := lo + a', lo + b';
    SliceSlice(s, lo, hi, a', b');
    forall k | lo <= k < hi ensures s[k] == t[k - lo] { }
  }

  /** `add_quotes` on a node `w[text]` gives `w["strip(text)"]`: the identifier and both
      delimiters are kept, and the label is the slice `s[a..b]` of the text, with only
      whitespace cut off at either end and none left at its ends. The rewrite is two
      characters longer than the node, less the whitespace cut off. */
  lemma NodeRewrite(cl: CharClasses, d: Delims, s: seq<char>, i: nat, m: Span)
    returns (a: nat, b: nat)
    requires IsMatch(cl, d, s, i, m.j, m.e)
    ensures m.j + 1 <= a <= b <= m.e
    ensures AddQuotes(cl, GroupsOf(s, i, m)) == s[i..m.j + 1] + ['"'] + s[a..b] + ['"', d.close]
    ensures forall k :: m.j < k < a ==> s[k] in cl.space
    ensures forall k :: b <= k < m.e ==> s[k] in cl.space
    ensures a < b ==> s[a] !in cl.space && s[b - 1] !in cl.space
    ensures |AddQuotes(cl, GroupsOf(s, i, m))| == (m.e + 1 - i) + 2 - (a - (m.j + 1)) - (m.e - b)
  {
    a, b := LabelStrip(cl, s, m.j + 1, m.e);
    assert s[m.e..m.e + 1] == [d.close];
    AppendPair(s[i..m.j + 1] + ['"'] + s[a..b], '"', d.close);
  }

  /** Where no node begins, the character is copied unchanged. */
  lemma QuoteCopy(cl: CharClasses, d: Delims, s: seq<char>, i: nat)
    requires cl.Sound() && Supported(d)
    requires i < |s| && forall j, e :: !IsMatch(cl, d, s, i, j, e)
    ensures QuoteFrom(cl, d, s, i) == [s[i]] + QuoteFrom(cl, d, s, i + 1)
  {
    MatchAtNone(cl, d, s, i);
  }
}
