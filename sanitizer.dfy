/**
 * `sanitize_mermaid_file` without its file handling: the emoji pass, then the
 * square-bracket pass, then the curly-brace pass, each applied to the output of the
 * one before.
 */
module Sanitizer {
  import opened Wrappers
  import opened Seqs
  import opened Trim
  import opened Emoji
  import opened Quoting
  import opened QuotingLaws

  /** The two node-quoting passes in the order the script runs them. */
  function QuoteLabels(cl: CharClasses, s: seq<char>): seq<char> {
    Quote(cl, Curly, Quote(cl, Square, s))
  }

  /** What the script writes back for file content `s`. */
  function SanitizeContent(cl: CharClasses, s: seq<char>): seq<char> {
    QuoteLabels(cl, StripEmoji(s))
  }

  /** Every character of `x` is a double quote or occurs in `s`. */
  ghost predicate CharsFrom(x: seq<char>, s: seq<char>) {
    forall c :: c in x ==> c == '"' || c in s
  }

  /** The quoting pass adds double quotes and otherwise only keeps or drops characters
      of its input. */
  lemma {:induction false} QuoteChars(cl: CharClasses, d: Delims, s: seq<char>, i: nat)
    requires cl.Sound() && Supported(d) && i <= |s|
    ensures CharsFrom(QuoteFrom(cl, d, s, i), s)
    decreases |s| - i
  {
    if i < |s| {
      match MatchAt(cl, d, s, i)
      case None =>
        var n := i + 1;
        QuoteChars(cl, d, s, n);
        CharsCopyStep(cl, d, s, i, n);
      case Some(m) =>
        var n := m.e + 1;
        QuoteChars(cl, d, s, n);
        CharsNodeStep(cl, d, s, i, m, n);
    }
  }

  lemma CharsCopyStep(cl: CharClasses, d: Delims, s: seq<char>, i: nat, n: nat)
    requires i < |s| && MatchAt(cl, d, s, i).None? && n == i + 1
    requires CharsFrom(QuoteFrom(cl, d, s, n), s)
    ensures CharsFrom(QuoteFrom(cl, d, s, i), s)
  {
    var rest := QuoteFrom(cl, d, s, n);
    CopyStep(cl, d, s, i, n);
    CharsCons(s, i, rest);
  }

  lemma CharsCons(s: seq<char>, i: nat, rest: seq<char>)
    requires i < |s| && CharsFrom(rest, s)
    ensures CharsFrom([s[i]] + rest, s)
  {
  }

  lemma CharsNodeStep(cl: CharClasses, d: Delims, s: seq<char>, i: nat, m: Span, n: nat)
    requires i < |s| && MatchAt(cl, d, s, i) == Some(m) && n == m.e + 1
    requires CharsFrom(QuoteFrom(cl, d, s, n), s)
    ensures CharsFrom(QuoteFrom(cl, d, s, i), s)
  {
    var rest := QuoteFrom(cl, d, s, n);
    var a, b := NodeStep(cl, d, s, i, m, n);
    CharsNode(s, i, m.j, m.e, a, b, d.close, rest);
  }

  lemma CharsNode(s: seq<char>, i: nat, j: nat, e: nat, a: nat, b: nat, close: char,
                  rest: seq<char>)
    requires i <= j < a <= b <= e < |s| && s[e] == close
    requires CharsFrom(rest, s)
    ensures CharsFrom(s[i..j + 1] + ['"'] + s[a..b] + ['"', close] + rest, s)
  {
    forall c | c in s[i..j + 1] + s[a..b] ensures c in s {
      InSlice(s, i, j + 1, c);
      InSlice(s, a, b, c);
    }
  }

  /** The emoji pass leaves no emoji behind, and the quoting passes bring none in. */
  lemma QuoteLabelsEmojiFree(cl: CharClasses, s: seq<char>)
    requires cl.Sound()
    requires forall k :: 0 <= k < |s| ==> !IsEmoji(s[k])
    ensures forall k :: 0 <= k < |QuoteLabels(cl, s)| ==> !IsEmoji(QuoteLabels(cl, s)[k])
  {
    var u := Quote(cl, Square, s);
    var v := Quote(cl, Curly, u);
    QuoteChars(cl, Square, s, 0);
    QuoteChars(cl, Curly, u, 0);
    EmojiRangesReduced('"' as int);
    forall k | 0 <= k < |v| ensures !IsEmoji(v[k]) {
      assert v[k] in v;
    }
  }

  /** After both passes no node of either pattern is left: the square pass leaves no
      square node and creates no curly one, and the curly pass likewise. */
  lemma QuoteLabelsQuiet(cl: CharClasses, s: seq<char>)
    requires cl.Sound()
    ensures Quiet(cl, Square, QuoteLabels(cl, s)) && Quiet(cl, Curly, QuoteLabels(cl, s))
  {
    var u := Quote(cl, Square, s);
    QuoteQuiet(cl, Square, s);
    QuotePreservesQuiet(cl, Square, Curly, u);
    QuoteQuiet(cl, Curly, u);
  }

  /** Text with no node of either pattern passes both quoting passes unchanged. */
  lemma QuietLabelsFixed(cl: CharClasses, s: seq<char>)
    requires cl.Sound() && Quiet(cl, Square, s) && Quiet(cl, Curly, s)
    ensures QuoteLabels(cl, s) == s
  {
    QuietFixed(cl, Square, s, 0);
    QuietFixed(cl, Curly, s, 0);
  }

  /** Running both quoting passes a second time changes nothing. */
  lemma QuoteLabelsIdempotent(cl: CharClasses, s: seq<char>)
    requires cl.Sound()
    ensures QuoteLabels(cl, QuoteLabels(cl, s)) == QuoteLabels(cl, s)
  {
    QuoteLabelsQuiet(cl, s);
    QuietLabelsFixed(cl, QuoteLabels(cl, s));
  }

  /** The sanitized content holds no emoji and no node left to quote. */
  lemma SanitizeClean(cl: CharClasses, s: seq<char>)
    requires cl.Sound()
    ensures forall k :: 0 <= k < |SanitizeContent(cl, s)| ==> !IsEmoji(SanitizeContent(cl, s)[k])
    ensures Quiet(cl, Square, SanitizeContent(cl, s)) && Quiet(cl, Curly, SanitizeContent(cl, s))
  {
    QuoteLabelsEmojiFree(cl, StripEmoji(s));
    QuoteLabelsQuiet(cl, StripEmoji(s));
  }

  /** Content with no emoji and no node left to quote is written back unchanged. */
  lemma SanitizeKeepsClean(cl: CharClasses, s: seq<char>)
    requires cl.Sound()
    requires forall k :: 0 <= k < |s| ==> !IsEmoji(s[k])
    requires Quiet(cl, Square, s) && Quiet(cl, Curly, s)
    ensures SanitizeContent(cl, s) == s
  {
    StripEmojiKeepsClean(s);
    QuietLabelsFixed(cl, s);
  }

  /** Sanitizing a file a second time changes nothing. */
  lemma SanitizeIdempotent(cl: CharClasses, s: seq<char>)
    requires cl.Sound()
    ensures SanitizeContent(cl, SanitizeContent(cl, s)) == SanitizeContent(cl, s)
  {
    SanitizeClean(cl, s);
    SanitizeKeepsClean(cl, SanitizeContent(cl, s));
  }

  /** A pass finds no node from `i` on when no closing delimiter of its pattern
      follows. */
  lemma NoCloseQuiet(cl: CharClasses, d: Delims, s: seq<char>, i: nat)
    requires forall k :: i <= k < |s| ==> s[k] != d.close
    ensures forall p, j, e :: i <= p ==> !IsMatch(cl, d, s, p, j, e)
  {
  }

  /** A label the example lines below use: not empty, and free of the double quote, of
      all four delimiters and of the newline. */
  predicate PlainLabel(t: seq<char>) {
    0 < |t| && forall k :: 0 <= k < |t| ==> PlainChar(t[k])
  }

  predicate PlainChar(c: char) {
    c !in {'"', '[', ']', '{', '}', '\n'}
  }

  /** Stripping a plain label leaves only plain characters. */
  lemma StripPlain(space: set<char>, t: seq<char>)
    requires PlainLabel(t)
    ensures forall k :: 0 <= k < |Strip(space, t)| ==> PlainChar(Strip(space, t)[k])
  {
    StripWithin(space, t);
    forall k | 0 <= k < |Strip(space, t)| ensures PlainChar(Strip(space, t)[k]) {
      assert Strip(space, t)[k] in Strip(space, t);
      var m :| 0 <= m < |t| && t[m] == Strip(space, t)[k];
    }
  }

  /** A non-empty run of `\w` characters. */
  predicate Ident(cl: CharClasses, w: seq<char>) {
    0 < |w| && forall k :: 0 <= k < |w| ==> IsWordChar(cl, w[k])
  }

  /** A line `w1[t1]` followed by a line `w2{t2}`: the square pass quotes the first node
      only, the curly pass quotes the second only and keeps the quoted first node as it
      is, and both labels come out stripped. */
  lemma TwoNodeLines(cl: CharClasses, w1: seq<char>, t1: seq<char>, w2: seq<char>, t2: seq<char>)
    requires cl.Sound() && Ident(cl, w1) && Ident(cl, w2) && PlainLabel(t1) && PlainLabel(t2)
    ensures QuoteLabels(cl, w1 + ['['] + t1 + [']', '\n'] + w2 + ['{'] + t2 + ['}'])
         == w1 + ['[', '"'] + Strip(cl.space, t1) + ['"', ']', '\n']
            + w2 + ['{', '"'] + Strip(cl.space, t2) + ['"', '}']
  {
    var r := ['\n'] + w2 + ['{'] + t2 + ['}'];
    var s1, s2 := Strip(cl.space, t1), Strip(cl.space, t2);
    LinesInput(w1, t1, w2, t2);
    StripPlain(cl.space, t1);
    calc {
      QuoteLabels(cl, w1 + ['['] + t1 + [']'] + r);
    ==  { SquareFront(cl, w1, t1, r); }
      Quote(cl, Curly, w1 + ['[', '"'] + s1 + ['"', ']'] + r);
    ==  { QuotedNodeKept(cl, Curly, Square, w1, s1, r); }
      w1 + ['[', '"'] + s1 + ['"', ']'] + Quote(cl, Curly, r);
    ==  { CurlyAfterNewline(cl, w2, t2); }
      w1 + ['[', '"'] + s1 + ['"', ']'] + (['\n'] + w2 + ['{', '"'] + s2 + ['"', '}']);
    ==  { LinesOutput(w1, s1, w2, s2); }
      w1 + ['[', '"'] + s1 + ['"', ']', '\n'] + w2 + ['{', '"'] + s2 + ['"', '}'];
    }
  }

  lemma LinesInput(w1: seq<char>, t1: seq<char>, w2: seq<char>, t2: seq<char>)
    ensures w1 + ['['] + t1 + [']', '\n'] + w2 + ['{'] + t2 + ['}']
         == w1 + ['['] + t1 + [']'] + (['\n'] + w2 + ['{'] + t2 + ['}'])
  {
  }

  lemma LinesOutput(w1: seq<char>, s1: seq<char>, w2: seq<char>, s2: seq<char>)
    ensures w1 + ['[', '"'] + s1 + ['"', ']'] + (['\n'] + w2 + ['{', '"'] + s2 + ['"', '}'])
         == w1 + ['[', '"'] + s1 + ['"', ']', '\n'] + w2 + ['{', '"'] + s2 + ['"', '}']
  {
  }

  /** No node begins at the front of text that does not start with a `\w` character. */
  lemma NoWordStart(cl: CharClasses, d: Delims, x: seq<char>)
    requires 0 < |x| && !IsWordChar(cl, x[0])
    ensures forall p, j, e :: 0 <= p < 1 ==> !IsMatch(cl, d, x, p, j, e)
  {
  }

  /** The square pass on `w[t]` followed by text with no `]`. */
  lemma SquareFront(cl: CharClasses, w: seq<char>, t: seq<char>, r: seq<char>)
    requires cl.Sound() && Ident(cl, w) && PlainLabel(t)
    requires forall k :: 0 <= k < |r| ==> r[k] != ']'
    ensures Quote(cl, Square, w + ['['] + t + [']'] + r)
         == w + ['[', '"'] + Strip(cl.space, t) + ['"', ']'] + r
  {
    QuoteNodeFront(cl, Square, w, t, r);
    NoCloseQuiet(cl, Square, r, 0);
    QuietFixed(cl, Square, r, 0);
  }

  /** The curly pass on a newline followed by `w{t}`. */
  lemma CurlyAfterNewline(cl: CharClasses, w: seq<char>, t: seq<char>)
    requires cl.Sound() && Ident(cl, w) && PlainLabel(t)
    ensures Quote(cl, Curly, ['\n'] + w + ['{'] + t + ['}'])
         == ['\n'] + w + ['{', '"'] + Strip(cl.space, t) + ['"', '}']
  {
    var c := w + ['{'] + t + ['}'];
    assert ['\n'] + w + ['{'] + t + ['}'] == ['\n'] + c;
    NoWordStart(cl, Curly, ['\n'] + c);
    QuoteAfterPrefix(cl, Curly, ['\n'], c);
    assert c + [] == c;
    QuoteNodeFront(cl, Curly, w, t, []);
  }
}
