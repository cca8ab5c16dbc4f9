# sanitize_mermaid, modelled in Dafny

`sanitize_mermaid.py` cleans up a Mermaid diagram file. It reads the whole file, runs three
text passes in a fixed order and writes the result back to the same file:

1. the emoji pass deletes every run of characters from a class of six code-point ranges;
2. the square pass rewrites every unquoted node `ident[text]` to `ident["text"]`, with the
   label stripped of surrounding whitespace (`add_quotes`);
3. the curly pass does the same for `ident{text}`.

The model covers the three passes and their composition. Each one is a function on
`seq<char>`, written in the form the regular expression engine evaluates it: a scan from
left to right that either consumes a match or copies one character.

- `emoji.dfy` (module `Emoji`): the six ranges (`EmojiRanges`), class membership
  (`InRanges`, `IsEmoji`), the greedy run (`EmojiRunEnd`) and the pass (`StripEmoji`).
  A per-character filter (`KeepNonEmoji`) serves as the reference definition.
- `trim.dfy` (module `Trim`): `str.strip()` (`Strip`), characterised by its two cut points.
- `quoting.dfy` (module `Quoting`): the scanner for `(\w+\[)([^"\]\n]+)(\])` and its curly
  twin (`WordEnd`, `LabelEnd`, `MatchAt`).
  - `IsMatch` gives the declarative meaning of "a node begins here".
  - `GroupsOf` returns `match.groups()`.
  - `AddQuotes` is `add_quotes`.
  - `QuoteFrom` and `Quote` are `pattern.sub(add_quotes, ...)`.
- `quoting_laws.dfy` (module `QuotingLaws`): what one quoting pass guarantees. No node is
  left after it, a second pass changes nothing, and text outside matches is copied. A
  quoted node is kept when its label holds no `"` and no closing delimiter of the pass.
- `sanitizer.dfy` (module `Sanitizer`): the two quoting passes in order (`QuoteLabels`)
  and the whole content transformation (`SanitizeContent`), with its laws.
- `seqs.dfy` and `wrappers.dfy`: small sequence facts and `Option`.

Two Unicode classes stay abstract: `\w` and the whitespace that `str.strip()` removes.
They are the two sets of `CharClasses`. The only fact assumed about them (`Sound`) is that
`\w` contains none of `[ ] { } "` and newline, which holds for Python's `\w`.

The emoji pass deletes more than emoji. Its last range, U+24C2 to U+1F251, holds two of
the other five ranges. It also spans the CJK blocks of the Basic Multilingual Plane, kana
and Hangul; ideographs from U+20000 up lie outside it. Text in those scripts is
therefore deleted from the file before any label is quoted (`StripEmojiDropsCjk`). The
comment at line 38 of the script shows `add_quotes` receiving the Japanese label
`自律開発環境サービス (DevEnv)`. As the code stands, the emoji pass has already reduced that
label to ` (DevEnv)` (`StripEmojiJapaneseLabel`). The model keeps the ranges exactly as written.

The quoting passes do not look at quotes outside the node they match. A quoted label
that itself holds a node is rewritten inside its quotes: the square pass turns
`A["b[c]"]` into `A["b["c"]"]` (`QuoteRewritesInsideQuotes`). This contradicts the
comment at line 34, which says only nodes not enclosed in quotes get quotes. The model
follows the code.

## Model

| member | source | states |
|---|---|---|
| Emoji.InRanges | error-check-python/sanitize_mermaid.py:21-29 | a character class made of ranges matches a code point exactly when one of its ranges holds it |
| Emoji.EmojiRangesReduced | error-check-python/sanitize_mermaid.py:23-28 | the six ranges together are the three disjoint intervals 24C2-1F251, 1F300-1F64F and 1F680-1F6FF |
| Emoji.StripEmojiDropsCjk | error-check-python/sanitize_mermaid.py:28 | text made only of characters U+3000 to U+D7A3 (CJK symbols and punctuation, kana, the ideographs of the Basic Multilingual Plane, Hangul syllables) is deleted entirely by the emoji pass |
| Emoji.StripEmojiJapaneseLabel | error-check-python/sanitize_mermaid.py:28-38 | the label `自律開発環境サービス (DevEnv)` that the comment shows reaching `add_quotes` comes out of the emoji pass as ` (DevEnv)` |
| Emoji.EmojiRunMaximal | error-check-python/sanitize_mermaid.py:29 | the greedy `+` consumes only class characters and stops at a non-class character or at the end |
| Emoji.StripEmoji | error-check-python/sanitize_mermaid.py:21-32 | the output of the emoji pass is never longer than its input and holds no class character |
| Emoji.StripEmojiIsFilter | error-check-python/sanitize_mermaid.py:29-32 | deleting maximal runs equals deleting class characters one at a time, keeping all others in order |
| Emoji.StripEmojiCounts | error-check-python/sanitize_mermaid.py:21-32 | every class character disappears, and every other character keeps its number of occurrences |
| Emoji.StripEmojiConcat | error-check-python/sanitize_mermaid.py:32 | the pass on `a + b` is the pass on `a` followed by the pass on `b`, so relative order is kept even across a run that straddles the seam |
| Emoji.StripEmojiKeepsClean | error-check-python/sanitize_mermaid.py:32 | text without class characters passes unchanged |
| Emoji.StripEmojiIdempotent | error-check-python/sanitize_mermaid.py:32 | a second emoji pass changes nothing |
| Trim.StripCuts | error-check-python/sanitize_mermaid.py:41 | `strip()` returns one slice of its input: only whitespace is cut off on either side, and the slice neither starts nor ends with whitespace |
| Trim.StripUnique | error-check-python/sanitize_mermaid.py:41 | any slice with only whitespace outside it and none at its ends is the result of `strip()` |
| Trim.StripIdempotent | error-check-python/sanitize_mermaid.py:41 | stripping twice is stripping once |
| Trim.StripWithin | error-check-python/sanitize_mermaid.py:41 | every character of the stripped label occurs in the label |
| Quoting.WordEndMaximal | error-check-python/sanitize_mermaid.py:44 | the greedy `\w+` run holds only word characters and stops at a non-word character or at the end |
| Quoting.WordEndUnique | error-check-python/sanitize_mermaid.py:44 | a run of word characters followed by a non-word character or the end is the greedy run |
| Quoting.LabelEndMaximal | error-check-python/sanitize_mermaid.py:44 | the greedy label run holds no `"`, closing delimiter or newline, and stops at one of them or at the end |
| Quoting.LabelEndUnique | error-check-python/sanitize_mermaid.py:44 | a run of label characters followed by a non-label character or the end is the greedy run |
| Quoting.MatchAt | error-check-python/sanitize_mermaid.py:44-48 | a reported match has a non-empty identifier and a non-empty label, and its closing delimiter lies inside the text |
| Quoting.MatchAtSound | error-check-python/sanitize_mermaid.py:44-48 | whatever the scanner reports at `i` is a node `ident[label]` beginning at `i` |
| Quoting.MatchAtComplete | error-check-python/sanitize_mermaid.py:44-48 | wherever a node begins, the scanner reports exactly that node, so greedy runs need no backtracking |
| Quoting.MatchAtNone | error-check-python/sanitize_mermaid.py:44-48 | the scanner finds nothing at `i` if and only if no node begins at `i` |
| Quoting.QuoteNode | error-check-python/sanitize_mermaid.py:37-45 | a node beginning at `i` is replaced by `add_quotes` of its groups, and the scan resumes just after its closing delimiter |
| Quoting.QuoteCopy | error-check-python/sanitize_mermaid.py:45 | where no node begins, the character is copied unchanged and the scan moves on by one |
| Quoting.LabelStrip | error-check-python/sanitize_mermaid.py:39-41 | the stripped label is a slice of the captured text, with only whitespace cut off at its ends |
| Quoting.NodeRewrite | error-check-python/sanitize_mermaid.py:37-41 | `add_quotes` turns `w[text]` into `w["strip(text)"]`. The identifier and both delimiters are kept, the inside of the label is kept, and the rewrite is two characters longer than the node, less the whitespace cut off |
| QuotingLaws.MatchUnquoted | error-check-python/sanitize_mermaid.py:44-48 | a node contains no double quote anywhere |
| QuotingLaws.QuotedHead | error-check-python/sanitize_mermaid.py:44-48 | no node of either pattern can begin in the identifier or opening quote of a quoted node `w["t"]`, and one beginning inside it ends before the closing quote |
| QuotingLaws.QuietFixed | error-check-python/sanitize_mermaid.py:44-45 | where no node begins from `i` on, the pass copies the rest of the text unchanged |
| QuotingLaws.QuoteCopyPrefix | error-check-python/sanitize_mermaid.py:45 | text before the first match is copied unchanged, and the scan then goes on from there |
| QuotingLaws.QuoteEcho | error-check-python/sanitize_mermaid.py:37-45 | up to its first double quote, the output of the pass repeats the input character for character |
| QuotingLaws.QuoteQuietFrom | error-check-python/sanitize_mermaid.py:44-49 | after a pass no node of its own pattern is left, and a pass creates no node of the other pattern where the input held none |
| QuotingLaws.QuoteQuiet | error-check-python/sanitize_mermaid.py:44-49 | after a quoting pass, no node of its pattern is left in the text |
| QuotingLaws.QuotePreservesQuiet | error-check-python/sanitize_mermaid.py:44-49 | a quoting pass creates no node of either pattern where the input held none |
| QuotingLaws.QuoteIdempotent | error-check-python/sanitize_mermaid.py:34-49 | each quoting pass applied to its own output changes nothing, so quotes are never doubled |
| QuotingLaws.MatchAtShift | error-check-python/sanitize_mermaid.py:44-48 | what the scanner finds at an index does not depend on the text before it |
| QuotingLaws.QuoteShift | error-check-python/sanitize_mermaid.py:45 | the pass from an index does not depend on the text before that index |
| QuotingLaws.QuoteSuffix | error-check-python/sanitize_mermaid.py:45 | the pass from index `n` is the pass over the suffix that starts at `n` |
| QuotingLaws.QuotedNodeStartsNone | error-check-python/sanitize_mermaid.py:44-48 | in a quoted node `w["t"]` whose label has no quote and no closing delimiter, no node of either pattern begins |
| QuotingLaws.QuotedNodeKept | error-check-python/sanitize_mermaid.py:44-49 | an already quoted node `w["t"]` whose label holds no `"` and no closing delimiter of the pass is left unchanged by both quoting passes, and the pass goes on after it |
| QuotingLaws.QuoteRewritesInsideQuotes | error-check-python/sanitize_mermaid.py:44-45 | that condition is needed: the square pass turns `A["b[c]"]` into `A["b["c"]"]`, quoting the node `b[c]` found inside the quoted label |
| QuotingLaws.NodeAfterPrefix | error-check-python/sanitize_mermaid.py:44-45 | a square node between a prefix where no node begins and a tail where none begins is the only text the pass rewrites |
| QuotingLaws.QuoteAfterPrefix | error-check-python/sanitize_mermaid.py:45 | a prefix where no node begins is copied, and the rest is quoted as if the text began there |
| QuotingLaws.QuoteNodeFront | error-check-python/sanitize_mermaid.py:37-45 | a node `w[t]` at the front becomes `w["strip(t)"]` and the rest is quoted on its own |
| Sanitizer.QuoteChars | error-check-python/sanitize_mermaid.py:37-49 | a quoting pass adds only double quotes; every other output character occurs in its input |
| Sanitizer.QuoteLabelsEmojiFree | error-check-python/sanitize_mermaid.py:32-49 | the quoting passes bring no emoji back into emoji-free text |
| Sanitizer.QuoteLabelsQuiet | error-check-python/sanitize_mermaid.py:44-49 | after both quoting passes, no square node and no curly node is left unquoted |
| Sanitizer.QuietLabelsFixed | error-check-python/sanitize_mermaid.py:44-49 | text with no unquoted node of either kind passes both quoting passes unchanged |
| Sanitizer.QuoteLabelsIdempotent | error-check-python/sanitize_mermaid.py:34-49 | the two quoting passes in order, applied twice, give the same result as once |
| Sanitizer.SanitizeClean | error-check-python/sanitize_mermaid.py:32-49 | the content written back holds no emoji-class character and no unquoted node of either kind |
| Sanitizer.SanitizeKeepsClean | error-check-python/sanitize_mermaid.py:32-49 | content already free of emoji and unquoted nodes is written back unchanged |
| Sanitizer.SanitizeIdempotent | error-check-python/sanitize_mermaid.py:32-49 | sanitizing sanitized content changes nothing |
| Sanitizer.NoCloseQuiet | error-check-python/sanitize_mermaid.py:44-48 | no node begins where no closing delimiter follows |
| Sanitizer.SquareFront | error-check-python/sanitize_mermaid.py:44-45 | a square node at the front is quoted and text holding no `]` after it is kept as it is |
| Sanitizer.CurlyAfterNewline | error-check-python/sanitize_mermaid.py:48-49 | a curly node on its own line is quoted and the newline before it is kept |
| Sanitizer.TwoNodeLines | error-check-python/sanitize_mermaid.py:32-49 | a line `A[label one]` followed by a line `B{label two}` becomes `A["label one"]` and `B{"label two"}`: each pass quotes its own node, leaves the other alone, and strips both labels |

## Left out

- Reading and writing the file, and the `FileNotFoundError` and `IOError` handling with its
  messages (lines 11-16 and 52-57). These are I/O. The model starts from the content
  string and ends with the string that would be written.
- The command line: the argument check and the usage message (lines 60-66).
- Python's regular expression engine in general. Only the three fixed patterns are
  modelled, each by its own scanner. `MatchAtComplete` and `MatchAtNone` state that the
  scanner agrees with the patterns.
- The exact Unicode membership of `\w` and of the whitespace set of `str.strip()`. Both
  are parameters, with only the fact that `\w` excludes the delimiters, `"` and newline.
- UTF-8 decoding errors on read, and any line-ending translation on write. These belong
  to the runtime. Characters are Unicode scalar values.
