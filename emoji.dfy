/**
 * The emoji pass: the character class of six code-point ranges, one or more of its
 * characters in a row, every such run replaced by nothing.
 */
module Emoji {

  /** An inclusive range `lo-hi` of code points inside a character class. */
  datatype CodeRange = CodeRange(lo: int, hi: int)

  /** The ranges of the emoji class, in the order the pattern lists them. */
  const EmojiRanges: seq<CodeRange> := [
    CodeRange(0x1F600, 0x1F64F),  // emoticons
    CodeRange(0x1F300, 0x1F5FF),  // symbols and pictographs
    CodeRange(0x1F680, 0x1F6FF),  // transport and map symbols
    CodeRange(0x1F1E0, 0x1F1FF),  // regional indicators (flags)
    CodeRange(0x2702, 0x27B0),
    CodeRange(0x24C2, 0x1F251)
  ]

  /** A character class made of ranges matches a code point iff some range holds it. */
  function InRanges(ranges: seq<CodeRange>, cp: int): (b: bool)
    ensures b <==> exists i :: 0 <= i < |ranges| && ranges[i].lo <= cp <= ranges[i].hi
  {
    if |ranges| == 0 then false
    else if ranges[0].lo <= cp <= ranges[0].hi then true
    else
      var b := InRanges(ranges[1..], cp);
      assert forall i :: 1 <= i < |ranges| ==> ranges[i] == ranges[1..][i - 1];
      b
  }

  predicate IsEmoji(c: char) {
    InRanges(EmojiRanges, c as int)
  }

  /** Two of the six ranges lie inside the last one, and the first two touch, so the
      class is three disjoint intervals. */
  lemma EmojiRangesReduced(cp: int)
    ensures InRanges(EmojiRanges, cp)
        <==> 0x24C2 <= cp <= 0x1F251 || 0x1F300 <= cp <= 0x1F64F || 0x1F680 <= cp <= 0x1F6FF
  {
    if 0x24C2 <= cp <= 0x1F251 {
      assert EmojiRanges[5].lo <= cp <= EmojiRanges[5].hi;
    } else if 0x1F300 <= cp <= 0x1F5FF {
      assert EmojiRanges[1].lo <= cp <= EmojiRanges[1].hi;
    } else if 0x1F600 <= cp <= 0x1F64F {
      assert EmojiRanges[0].lo <= cp <= EmojiRanges[0].hi;
    } else if 0x1F680 <= cp <= 0x1F6FF {
      assert EmojiRanges[2].lo <= cp <= EmojiRanges[2].hi;
    }
  }

  /** The last range covers far more than emoji: CJK symbols and punctuation, kana, the
      unified ideographs of the Basic Multilingual Plane and the Hangul syllables
      (U+3000 to U+D7A3) all lie inside it, so text written in those scripts is deleted
      by the pass like any emoji. */
  lemma StripEmojiDropsCjk(s: seq<char>)
    requires forall k :: 0 <= k < |s| ==> 0x3000 <= s[k] as int <= 0xD7A3
    ensures StripEmoji(s) == []
  {
    forall k | 0 <= k < |s| ensures IsEmoji(s[k]) {
      EmojiRangesReduced(s[k] as int);
    }
    StripEmojiIsFilter(s);
    KeepAllEmoji(s);
  }

  /** The label `自律開発環境サービス (DevEnv)`, once through the emoji pass, keeps only
      ` (DevEnv)`. */
  lemma StripEmojiJapaneseLabel(s: seq<char>)
    requires s == "\U{81EA}\U{5F8B}\U{958B}\U{767A}\U{74B0}\U{5883}\U{30B5}\U{30FC}\U{30D3}\U{30B9} (DevEnv)"
    ensures StripEmoji(s) == " (DevEnv)"
  {
    var a, b := SplitJapaneseLabel(s);
    StripEmojiConcat(a, b);
    StripEmojiDropsCjk(a);
    forall k | 0 <= k < |b| ensures !IsEmoji(b[k]) {
      BelowClass(b[k]);
    }
    StripEmojiKeepsClean(b);
  }

  /** The label is ten characters of kana and ideographs followed by ASCII text. */
  lemma SplitJapaneseLabel(s: seq<char>) returns (a: seq<char>, b: seq<char>)
    requires s == "\U{81EA}\U{5F8B}\U{958B}\U{767A}\U{74B0}\U{5883}\U{30B5}\U{30FC}\U{30D3}\U{30B9} (DevEnv)"
    ensures s == a + b && b == " (DevEnv)"
    ensures forall k :: 0 <= k < |a| ==> 0x3000 <= a[k] as int <= 0xD7A3
    ensures forall k :: 0 <= k < |b| ==> b[k] as int < 0x24C2
  {
    a := "\U{81EA}\U{5F8B}\U{958B}\U{767A}\U{74B0}\U{5883}\U{30B5}\U{30FC}\U{30D3}\U{30B9}";
    b := " (DevEnv)";
  }

  /** Nothing below U+24C2, ASCII included, is in the class. */
  lemma BelowClass(c: char)
    requires c as int < 0x24C2
    ensures !IsEmoji(c)
  {
    EmojiRangesReduced(c as int);
  }

  /** The index just past the maximal run of class characters that starts at `i`:
      what the greedy `+` consumes. */
  function EmojiRunEnd(s: seq<char>, i: nat): (e: nat)
    requires i <= |s|
    ensures i <= e <= |s|
    decreases |s| - i
  {
    if i == |s| || !IsEmoji(s[i]) then i else EmojiRunEnd(s, i + 1)
  }

  /** The run holds only class characters and stops at another character or at the end. */
  lemma {:induction false} EmojiRunMaximal(s: seq<char>, i: nat)
    requires i <= |s|
    ensures forall k :: i <= k < EmojiRunEnd(s, i) ==> IsEmoji(s[k])
    ensures EmojiRunEnd(s, i) == |s| || !IsEmoji(s[EmojiRunEnd(s, i)])
    decreases |s| - i
  {
    if i < |s| && IsEmoji(s[i]) {
      EmojiRunMaximal(s, i + 1);
    }
  }

  /** `emoji_pattern.sub('', s)`: scanning left to right, a maximal run of class
      characters is deleted, any other character is copied. */
  function StripEmoji(s: seq<char>): (r: seq<char>)
    ensures |r| <= |s|
    ensures forall i :: 0 <= i < |r| ==> !IsEmoji(r[i])
    decreases |s|
  {
    if |s| == 0 then []
    else if IsEmoji(s[0]) then StripEmoji(s[EmojiRunEnd(s, 0)..])
    else [s[0]] + StripEmoji(s[1..])
  }

  /** The same pass read one character at a time: keep exactly the characters outside
      the class, in their order. */
  function KeepNonEmoji(s: seq<char>): (r: seq<char>)
    decreases |s|
  {
    if |s| == 0 then []
    else (if IsEmoji(s[0]) then [] else [s[0]]) + KeepNonEmoji(s[1..])
  }

  /** Filtering distributes over concatenation: what happens to a character does not
      depend on its neighbours. */
  lemma {:induction false} KeepConcat(a: seq<char>, b: seq<char>)
    ensures KeepNonEmoji(a + b) == KeepNonEmoji(a) + KeepNonEmoji(b)
    decreases |a|
  {
    if |a| == 0 {
      assert a + b == b;
    } else {
      assert (a + b)[1..] == a[1..] + b;
      KeepConcat(a[1..], b);
    }
  }

  lemma {:induction false} KeepAllEmoji(s: seq<char>)
    requires forall i :: 0 <= i < |s| ==> IsEmoji(s[i])
    ensures KeepNonEmoji(s) == []
    decreases |s|
  {
    if |s| > 0 {
      KeepAllEmoji(s[1..]);
    }
  }

  /** Deleting whole runs is the same as deleting class characters one by one. */
  lemma {:induction false} StripEmojiIsFilter(s: seq<char>)
    ensures StripEmoji(s) == KeepNonEmoji(s)
    decreases |s|
  {
    if |s| > 0 {
      if IsEmoji(s[0]) {
        var e := EmojiRunEnd(s, 0);
        EmojiRunMaximal(s, 0);
        assert s == s[..e] + s[e..];
        KeepConcat(s[..e], s[e..]);
        KeepAllEmoji(s[..e]);
        StripEmojiIsFilter(s[e..]);
      } else {
        StripEmojiIsFilter(s[1..]);
      }
    }
  }

  /** Text without class characters passes unchanged. */
  lemma {:induction false} StripEmojiKeepsClean(s: seq<char>)
    requires forall i :: 0 <= i < |s| ==> !IsEmoji(s[i])
    ensures StripEmoji(s) == s
    decreases |s|
  {
    if |s| > 0 {
      StripEmojiKeepsClean(s[1..]);
    }
  }

  /** A second emoji pass changes nothing. */
  lemma StripEmojiIdempotent(s: seq<char>)
    ensures StripEmoji(StripEmoji(s)) == StripEmoji(s)
  {
    StripEmojiKeepsClean(StripEmoji(s));
  }

  /** Relative order is kept: the pass on `a + b` is the pass on `a` followed by the
      pass on `b`, even when a run of class characters straddles the seam. */
  lemma StripEmojiConcat(a: seq<char>, b: seq<char>)
    ensures StripEmoji(a + b) == StripEmoji(a) + StripEmoji(b)
  {
    StripEmojiIsFilter(a + b);
    StripEmojiIsFilter(a);
    StripEmojiIsFilter(b);
    KeepConcat(a, b);
  }

  /** Exactly the class characters are removed: every occurrence of a class character
      disappears, every other character keeps its number of occurrences. */
  lemma {:induction false} StripEmojiCounts(s: seq<char>, c: char)
    ensures multiset(StripEmoji(s))[c] == if IsEmoji(c) then 0 else multiset(s)[c]
    decreases |s|
  {
    StripEmojiIsFilter(s);
    if |s| > 0 {
      StripEmojiCounts(s[1..], c);
      StripEmojiIsFilter(s[1..]);
      assert s == [s[0]] + s[1..];
    }
  }
}
