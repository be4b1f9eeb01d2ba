# fix-srt and srt-to-vtt, modelled in Dafny

Two subtitle tools, modelled here. Everything is in memory; files, encodings and the command line are outside the model.

**fix-srt** repairs SubRip (`.srt`) and WebVTT subtitle files. It has two scripts, `fix_srt.py` and `fix_srt_enhanced.py`:

- Both read the file into cues.
  - Each cue is an index, a start time, an end time and a stripped text.
  - The file is cut into blocks at blank lines.
  - Each block's `start --> end` line is parsed with the timestamp codec.
- Both then repair the timing in three passes (`fix_timing_and_merge`):
  1. A cue that ends no later than it starts is given the minimum duration.
  2. A forward scan does three things:
     - It pushes a cue that overlaps the last kept cue to that cue's end.
     - It merges a short cue into the last kept cue, unless that cue's text ends a sentence.
     - Otherwise it merges a short cue into the next cue, if the next cue starts soon enough.
  3. A final sweep removes overlaps that remain.
- Both normalise the cue texts. The normalisers are built from regular-expression rewrites:
  - whitespace is collapsed;
  - whitespace before punctuation is dropped;
  - a space is added after Latin punctuation;
  - a space is added between CJK ideographs and Latin letters or digits;
  - the first letter is capitalised.
- The plain script has one normaliser, `conservative_fix_text`. The enhanced script has:
  - a Traditional-Chinese typo table;
  - `fix_chinese_text` and `fix_english_text`;
  - a per-cue pass, `fix_text_with_context`, which picks the fixer by the cue's language.
- The codec, the reader and the timing pass are the same code in both scripts. They are modelled once and cited at `fix_srt.py`.

**srt-to-vtt** converts SubRip text to WebVTT. It has three parts:

- `parse_srt` cuts the text into blocks. In each block it searches the first `-->` line for two clock times, normalises them with `normalize_time` and keeps the following lines as the cue text.
- `normalize_time` makes a timestamp `hh:mm:ss.ttt`.
- `build_vtt` writes the file:
  - the `WEBVTT` signature line;
  - an optional `LANG: xx` line in a block of its own;
  - one block per cue, holding its timing line and text lines, with no cue identifiers.

The model states the layout build_vtt writes, not conformance to the W3C WebVTT specification. That layout is the signature line, then blocks separated by blank lines, each cue block opening with a `start --> end` timing line and having no cue identifier. The `LANG:` block is not a block kind the WebVTT file format defines: it is neither a cue nor a `NOTE` comment, a `STYLE` block or a `REGION` block. Cue text is written as parse_srt read it, unescaped, so a text line holding `-->` is written out as it is, although WebVTT forbids `-->` in a cue payload.

Modules:

- `Text`: the Python string operations the scripts use, such as `str.strip`, `str.split`, `str.join`, `str.splitlines`, `str.replace`, `int()` of digits and zero padding.
- `Timestamp`: the codec.
- `Subtitles`: the `Subtitle` record and `read_srt`.
- `Normalize`: the language guess, the rewrites, the typo table and the three fixers.
- `ContextFix`: the per-cue pass.
- `Timing`: the three-pass reconciler. Each pass is an imperative method over an `array<Cue>`, proved equal to a function on sequences. The properties are proved of those functions.
- `VttTime`: `normalize_time`.
- `Vtt`: `parse_srt` and `build_vtt`, with the round trip between them, and proof that converting parse_srt's own cues back yields the same cues.
- `FloatTime`: the floating-point arithmetic of `format_timestamp` as written (see Findings).

## Model

| member | source | states |
|---|---|---|
| Timestamp.Separator | skills/fix-srt/scripts/fix_srt.py:33-34 | the separator is '.' exactly for WebVTT and ',' otherwise |
| Timestamp.ParseTimestamp | skills/fix-srt/scripts/fix_srt.py:38-56 | succeeds exactly when the stripped text is two-digit hours, minutes and seconds and three-digit milliseconds with ',' or '.'. The error carries the stripped text. The value is ((h*60+m)*60+s)*1000+ms |
| Timestamp.ParseIgnoresFormat | skills/fix-srt/scripts/fix_srt.py:41-51 | the requested format decides only which pattern is tried first: the result is the same for either format |
| Timestamp.Matches | skills/fix-srt/scripts/fix_srt.py:33-34 | no contract of its own: the anchored patterns `^(\d{2}):(\d{2}):(\d{2})<sep>(\d{3})$`, with `,` for SubRip and `.` for WebVTT, over ASCII digits. ParseStamp and RenderMatched carry its meaning |
| Timestamp.ParseStamp | skills/fix-srt/scripts/fix_srt.py:53-56 | a well-formed stamp parses to the time its fields spell |
| Timestamp.FormatTimestamp | skills/fix-srt/scripts/fix_srt.py:59-72 | the output is hours, ':', two-digit minutes, ':', two-digit seconds, the format's separator and three-digit milliseconds. It reads back as the input clamped at zero, and below 100 hours it is a stamp the parser accepts |
| Timestamp.Render | skills/fix-srt/scripts/fix_srt.py:69-72 | the `%02d:%02d:%02d` plus separator plus `%03d` rendering of fields within range has the timestamp shape with the format's separator and spells the time of its fields. Below 100 hours it is a stamp the parser accepts |
| Timestamp.FormatThenParse | skills/fix-srt/scripts/fix_srt.py:38-72 | formatting a time below 100 hours and parsing it back, in either format, gives the time |
| Timestamp.ParseThenFormat | skills/fix-srt/scripts/fix_srt.py:38-72 | a stamp in the format's separator with minutes and seconds below 60 parses, and formatting the value gives back the stripped stamp |
| Timestamp.FormatClampsNegative | skills/fix-srt/scripts/fix_srt.py:61-63 | a negative time is written as zero |
| Timestamp.FormatsDifferOnlyInSeparator | skills/fix-srt/scripts/fix_srt.py:69-72 | the SubRip and WebVTT renderings of a time differ only in the separator before the milliseconds |
| Timestamp.FormatOfFields | skills/fix-srt/scripts/fix_srt.py:64-72 | a time built from fields within range is written with exactly those fields |
| Timestamp.FieldsOfMillis | skills/fix-srt/scripts/fix_srt.py:64-67 | the fields the formatter computes recompose to the time |
| Timestamp.MillisFields | skills/fix-srt/scripts/fix_srt.py:64-67 | fields within range are recovered by the formatter's divisions, so parsing then splitting is the identity on fields |
| Timestamp.RenderMatched | skills/fix-srt/scripts/fix_srt.py:69-72 | rendering the fields of a matched stamp spells the stamp |
| Subtitles.NewSubtitle | skills/fix-srt/scripts/fix_srt.py:95-101 | the cue keeps index and times; its text is stripped and has the same visible characters and words as the given text |
| Subtitles.ParseIntDecimal | skills/fix-srt/scripts/fix_srt.py:127 | `int()` of the decimal spelling of n is n |
| Subtitles.ParseInt | skills/fix-srt/scripts/fix_srt.py:127 | `int()` of the stripped index line succeeds only on a non-empty text that starts with a visible character |
| Subtitles.Duration | skills/fix-srt/scripts/fix_srt.py:102-104 | no contract of its own: `end - start`, in milliseconds instead of float seconds. IsShort compares it with the minimum |
| Subtitles.Paragraphs | skills/fix-srt/scripts/fix_srt.py:118 | `re.split(r"\n{2,}", ...)` yields at least one block |
| Subtitles.ParagraphsHaveNoBlankLine | skills/fix-srt/scripts/fix_srt.py:118 | no block from the split at runs of two or more newlines contains "\n\n" |
| Subtitles.JoinParagraphs | skills/fix-srt/scripts/fix_srt.py:118 | for a text without three newlines in a row, joining the blocks with "\n\n" gives the text back |
| Subtitles.Header | skills/fix-srt/scripts/fix_srt.py:125-134 | when the first line is an integer, the times are the second line and the content follows. Otherwise the times are the first line and the content is the rest |
| Subtitles.ReadTimes | skills/fix-srt/scripts/fix_srt.py:138-140 | succeeds exactly when the times line has exactly two pieces around "-->" and both parse; the values are the two parsed times |
| Subtitles.StripIdempotent | skills/fix-srt/scripts/fix_srt.py:138-140 | stripping the pieces before parsing changes nothing |
| Subtitles.ReadBlock | skills/fix-srt/scripts/fix_srt.py:121-141 | a cue read from a block has a stripped text |
| Subtitles.ReadBlockSkips | skills/fix-srt/scripts/fix_srt.py:121-137 | a block is skipped exactly when it has fewer than two lines or its times line has no "-->" |
| Subtitles.ReadBlockText | skills/fix-srt/scripts/fix_srt.py:141 | the cue text has the words of the content lines joined by newlines |
| Subtitles.Number | skills/fix-srt/scripts/fix_srt.py:127-142 | the cue's index is the block's number, or one more than the cues read so far when there is none |
| Subtitles.Collect | skills/fix-srt/scripts/fix_srt.py:120-142 | the cues read so far stay first, and each block adds at most one cue |
| Subtitles.CollectStripped | skills/fix-srt/scripts/fix_srt.py:141-142 | every collected cue's text is stripped |
| Subtitles.CollectFails | skills/fix-srt/scripts/fix_srt.py:139-140 | reading fails exactly when some block's timestamps fail to parse or split |
| Subtitles.DropVttHeader | skills/fix-srt/scripts/fix_srt.py:113-116 | SubRip text is left as it is |
| Subtitles.Blocks | skills/fix-srt/scripts/fix_srt.py:112-118 | the WEBVTT line dropped, the text stripped and split at runs of two or more newlines: at least one block, and no block holds a blank line |
| Subtitles.ReadBlocks | skills/fix-srt/scripts/fix_srt.py:119-142 | the per-block loop body applied to every block, one result per block in block order |
| Subtitles.ReadSrt | skills/fix-srt/scripts/fix_srt.py:107-143 | at most one cue per block, every text stripped |
| Subtitles.ReadSrtFails | skills/fix-srt/scripts/fix_srt.py:107-143 | the whole file fails exactly when one of its blocks fails, rather than that block being skipped |
| Normalize.DetectLanguage | skills/fix-srt/scripts/fix_srt.py:161-165 | Chinese exactly when some character lies in U+4E00..U+9FFF |
| Normalize.FirstIdeograph | skills/fix-srt/scripts/fix_srt.py:163-164 | the search finds the first CJK ideograph, or reports that there is none |
| Normalize.CollapseBlanks | skills/fix-srt/scripts/fix_srt.py:194 | `re.sub(r"[ \t\u00A0]+", ' ', ...)` never makes the text longer |
| Normalize.CollapseBlanksVisible | skills/fix-srt/scripts/fix_srt.py:194 | collapsing runs of space, tab and no-break space keeps every visible character |
| Normalize.Prepared | skills/fix-srt/scripts/fix_srt.py:194-195 | after collapsing and stripping, the text is stripped with the same visible characters |
| Normalize.DropSpaceBefore | skills/fix-srt/scripts/fix_srt.py:199 | `re.sub(r"\s+([marks])", r"\1", ...)`, for the Latin marks here and the CJK marks at fix_srt.py:209 and fix_srt_enhanced.py:273: a non-empty text stays non-empty and keeps its first character when that is not whitespace |
| Normalize.DropSpaceBeforeAvoids | skills/fix-srt/scripts/fix_srt.py:199 | after the rewrite no whitespace stands directly before one of the marks |
| Normalize.DropSpaceBeforeVisible | skills/fix-srt/scripts/fix_srt.py:199 | dropping whitespace before marks keeps every visible character |
| Normalize.SpaceAfterMarks | skills/fix-srt/scripts/fix_srt.py:200 | `re.sub(r"([.,!?;:])([^\s])", r"\1 \2", ...)`, also fix_srt_enhanced.py:315: a non-empty text keeps its first character |
| Normalize.SpaceAfterMarksVisible | skills/fix-srt/scripts/fix_srt.py:200 | adding spaces after marks keeps every visible character, in order |
| Normalize.SpaceAfterMarksSpaced | skills/fix-srt/scripts/fix_srt.py:200 | a text in which every mark is already followed by whitespace is left unchanged |
| Normalize.SpaceAfterMarksEllipsis | skills/fix-srt/scripts/fix_srt.py:200 | a match consumes the character after the mark, so "no..." becomes "no. .." |
| Normalize.CollapseRuns | skills/fix-srt/scripts/fix_srt.py:202 | `re.sub(r"\s{2,}", ' ', ...)`, also fix_srt.py:214 and fix_srt_enhanced.py:277 and 317: a non-empty text stays non-empty, starts with whitespace exactly when it did, and keeps its first character when that is not whitespace |
| Normalize.CollapseRunsAvoids | skills/fix-srt/scripts/fix_srt.py:202 | the result has no two adjacent whitespace characters |
| Normalize.CollapseRunsKeeps | skills/fix-srt/scripts/fix_srt.py:202 | collapsing runs keeps every adjacency the text already avoided |
| Normalize.CollapseRunsVisible | skills/fix-srt/scripts/fix_srt.py:202 | collapsing runs keeps every visible character |
| Normalize.CapitalizeFirst | skills/fix-srt/scripts/fix_srt.py:204-205 | the length and all characters but the first are kept. The first is not lower-case afterwards, and a text not starting lower-case is unchanged |
| Normalize.CapitalizeVisible | skills/fix-srt/scripts/fix_srt.py:204-205 | capitalising commutes with dropping whitespace for a text starting with a visible character |
| Normalize.SpaceBetween | skills/fix-srt/scripts/fix_srt.py:211-212 | the two `re.sub` calls that put a space between an ideograph and a Latin letter or digit, also fix_srt_enhanced.py:275-276: a non-empty text keeps its first character |
| Normalize.SpaceBetweenAvoids | skills/fix-srt/scripts/fix_srt.py:211-212 | after the rewrite no ideograph is directly followed by, or follows, a Latin letter or digit |
| Normalize.SpaceBetweenKeeps | skills/fix-srt/scripts/fix_srt.py:211-212 | inserting boundary spaces keeps every adjacency the text already avoided |
| Normalize.SpaceBetweenVisible | skills/fix-srt/scripts/fix_srt.py:211-212 | inserting boundary spaces keeps every visible character |
| Normalize.CorrectWith | skills/fix-srt/scripts/fix_srt.py:168-183 | without the corrector the text is unchanged and unflagged; with it, the flag says whether the text changed |
| Normalize.ConservativeFixText | skills/fix-srt/scripts/fix_srt.py:186-217 | the flag is set exactly when the output differs from the input or the Chinese corrector reported a change |
| Normalize.LatinSpacingVisible | skills/fix-srt/scripts/fix_srt.py:199-205 | the English rewrites leave no two adjacent whitespace characters and keep the visible characters, the first capitalised |
| Normalize.ConservativeFixTextEnglish | skills/fix-srt/scripts/fix_srt.py:194-205 | English output has no two adjacent whitespace characters and does not start lower-case. Its visible characters are the input's, the first capitalised |
| Normalize.CjkSpacingAvoids | skills/fix-srt/scripts/fix_srt.py:209-214 | the Chinese rewrites leave no whitespace before a CJK mark, no ideograph next to a Latin letter or digit, and no two adjacent whitespace characters. They keep the visible characters |
| Normalize.ConservativeFixTextChinese | skills/fix-srt/scripts/fix_srt.py:194-214 | Chinese output has none of those adjacencies, and its visible characters are those of the (possibly corrected) input |
| Normalize.ReplaceAll | skills/fix-srt/scripts/fix_srt_enhanced.py:236 | `str.replace` with a replacement equal to the pattern, the empty pattern included, gives the text back |
| Normalize.ReplaceAllAt | skills/fix-srt/scripts/fix_srt_enhanced.py:236 | `str.replace` keeps the text before the first occurrence, writes the replacement and goes on after the occurrence |
| Normalize.ReplaceAbsent | skills/fix-srt/scripts/fix_srt_enhanced.py:235-236 | replacing a pattern that does not occur changes nothing |
| Normalize.ApplyTypos | skills/fix-srt/scripts/fix_srt_enhanced.py:234-236 | the table applied in its order as replace-alls; a table whose entries each map a typo to itself leaves the text unchanged |
| Normalize.ApplyTyposAbsent | skills/fix-srt/scripts/fix_srt_enhanced.py:234-236 | a text containing none of the table's typos, and any text with an empty table, is returned unchanged |
| Normalize.FixTypos | skills/fix-srt/scripts/fix_srt_enhanced.py:229-238 | the result is every entry applied as a replace-all in table order; the flag says whether the text changed |
| Normalize.ChineseInput | skills/fix-srt/scripts/fix_srt_enhanced.py:263-269 | the text after the typo table and, from three characters on, the corrector; without the corrector it is the text after the table |
| Normalize.FixChineseText | skills/fix-srt/scripts/fix_srt_enhanced.py:259-281 | the result is stripped; the flag says exactly whether it differs from the input |
| Normalize.FixChineseTextSpacing | skills/fix-srt/scripts/fix_srt_enhanced.py:259-281 | no whitespace before `，。！？；：、`, no ideograph next to a Latin letter or digit, and no two adjacent whitespace characters. The visible characters are those of the text after the typo table and the corrector |
| Normalize.Respell | skills/fix-srt/scripts/fix_srt_enhanced.py:320-323 | no contract of its own: with the spell checker, `text.split()` with each word corrected and joined by single spaces, and the text unchanged without it |
| Normalize.FixEnglishText | skills/fix-srt/scripts/fix_srt_enhanced.py:307-339 | the flag says exactly whether the result differs; without the grammar tool the result does not start lower-case |
| Normalize.FixEnglishTextSpacing | skills/fix-srt/scripts/fix_srt_enhanced.py:311-327 | without spell checker and grammar tool, the result has no two adjacent whitespace characters and keeps the visible characters, the first capitalised |
| ContextFix.FixContent | skills/fix-srt/scripts/fix_srt_enhanced.py:363-370 | the fixer for the text's language is run; its flag says exactly whether the text changed |
| ContextFix.ContextUnused | skills/fix-srt/scripts/fix_srt_enhanced.py:357-370 | the context string never influences the result |
| ContextFix.Context | skills/fix-srt/scripts/fix_srt_enhanced.py:358-361 | no contract of its own: the texts of the window's cues joined with single spaces. ContextUnused shows it never reaches a fixer |
| ContextFix.Window | skills/fix-srt/scripts/fix_srt_enhanced.py:358-360 | the window holds only valid indices other than the cue's own |
| ContextFix.WindowMembers | skills/fix-srt/scripts/fix_srt_enhanced.py:358-360 | for a non-negative window size w, the window of cue i is exactly the other cues at most w places away |
| ContextFix.FixedCue | skills/fix-srt/scripts/fix_srt_enhanced.py:372-373 | only the text changes, and it becomes the fixer's output |
| ContextFix.FixedCueSame | skills/fix-srt/scripts/fix_srt_enhanced.py:372-373 | a cue is left as it was exactly when the fixer reports no change |
| ContextFix.CountChangedZero | skills/fix-srt/scripts/fix_srt_enhanced.py:372-376 | the count is zero exactly when no cue is changed |
| ContextFix.FixCueInContext | skills/fix-srt/scripts/fix_srt_enhanced.py:356-374 | cue i is replaced by its fixed version and nothing else changes; the result says whether it changed |
| ContextFix.FixTextWithContext | skills/fix-srt/scripts/fix_srt_enhanced.py:343-376 | every cue becomes its fixed version. The total is the number of cues changed, at most the number of cues |
| Timing.HalfMin | skills/fix-srt/scripts/fix_srt.py:260 | half the minimum, truncated toward zero |
| Timing.Repair | skills/fix-srt/scripts/fix_srt.py:227-229 | only the end changes; a valid cue is kept, and with a positive minimum the repaired cue ends after it starts |
| Timing.CountInvalidZero | skills/fix-srt/scripts/fix_srt.py:227-230 | pass 1 counts nothing exactly when every cue already ends after it starts |
| Timing.RepairDurations | skills/fix-srt/scripts/fix_srt.py:226-230 | every cue is repaired in place. With a positive minimum every cue then ends after it starts, and the count is the number of cues that needed it |
| Timing.IsSentenceEnd | skills/fix-srt/scripts/fix_srt.py:35 | no contract of its own: membership in `PUNCT_END`, the six marks `.?!` and their full-width forms |
| Timing.EndsSentence | skills/fix-srt/scripts/fix_srt.py:247-248 | no contract of its own: `prev.content.strip()[-1:] in PUNCT_END`, false for a text that strips to nothing, as the `else ''` gives |
| Timing.IsShort | skills/fix-srt/scripts/fix_srt.py:245 | no contract of its own: `s.duration < min_duration`, both in milliseconds |
| Timing.PushStart | skills/fix-srt/scripts/fix_srt.py:239-241 | the start moved to the given time with index and text kept; the end kept when it still follows, otherwise set min_duration after the new start, so with a positive minimum the cue ends after it starts. Also fix_srt.py:276-278 |
| Timing.Pushed | skills/fix-srt/scripts/fix_srt.py:237-242 | after the push the cue starts no earlier than the last output cue ends; texts and the output list are untouched |
| Timing.Place | skills/fix-srt/scripts/fix_srt.py:244-268 | the cue is appended to the output, with nothing else changed, or merged with the merge count raised by one |
| Timing.PlaceCases | skills/fix-srt/scripts/fix_srt.py:244-268 | when each merge happens, and what it does to the cue it merges into: its times, the text joined with one space, and no word lost |
| Timing.PushKeeps | skills/fix-srt/scripts/fix_srt.py:237-242 | pushing a cue keeps the output cues, their order and the transcript |
| Timing.BackwardKeeps | skills/fix-srt/scripts/fix_srt.py:245-254 | a backward merge keeps the output non-overlapping and the words of all texts in order |
| Timing.ForwardKeeps | skills/fix-srt/scripts/fix_srt.py:257-265 | a forward merge keeps the output non-overlapping and the words of all texts in order |
| Timing.AppendOrdered | skills/fix-srt/scripts/fix_srt.py:267 | appending a cue that starts after the last output cue ends keeps the output increasing and non-overlapping |
| Timing.StepKeeps | skills/fix-srt/scripts/fix_srt.py:235-268 | one iteration keeps the scan invariant |
| Timing.ScanProperties | skills/fix-srt/scripts/fix_srt.py:233-268 | pass 2 emits each cue at most once, in order, and emitted plus merged equals the input count. Adjacent output cues do not overlap, and the output holds all the input's words in order |
| Timing.JoinText | skills/fix-srt/scripts/fix_srt.py:251-262 | `prev.content.rstrip() + ' ' + s.content.lstrip()` (line 251) and the same for the next cue (line 262): the merged text has the words of both texts, in order, and their visible characters |
| Timing.Step | skills/fix-srt/scripts/fix_srt.py:235-268 | one iteration of the pass-2 loop keeps the cue count and emits only indices already scanned |
| Timing.Scan | skills/fix-srt/scripts/fix_srt.py:232-268 | pass 2 keeps the cue count and emits only indices of cues |
| Timing.SweepFrom | skills/fix-srt/scripts/fix_srt.py:271-279 | pass 3 from pair j on keeps the cue count |
| Timing.Sweep | skills/fix-srt/scripts/fix_srt.py:270-279 | pass 3 over all adjacent output pairs keeps the cue count |
| Timing.PushInPlace | skills/fix-srt/scripts/fix_srt.py:237-242 | the in-place push is the push on values |
| Timing.PlaceInPlace | skills/fix-srt/scripts/fix_srt.py:244-268 | the in-place merge or append is Place on values |
| Timing.ScanOne | skills/fix-srt/scripts/fix_srt.py:235-268 | one in-place iteration is one step of the scan |
| Timing.ScanAndMerge | skills/fix-srt/scripts/fix_srt.py:232-268 | the in-place loop computes the scan |
| Timing.SweepFromSorts | skills/fix-srt/scripts/fix_srt.py:271-279 | after pass 3, adjacent output cues do not overlap, and it adjusts at most once per pair |
| Timing.SweepFromText | skills/fix-srt/scripts/fix_srt.py:271-279 | pass 3 changes only times |
| Timing.SweepFromNoop | skills/fix-srt/scripts/fix_srt.py:271-279 | on non-overlapping output pass 3 changes nothing and counts nothing |
| Timing.SweepOverlaps | skills/fix-srt/scripts/fix_srt.py:270-279 | the in-place sweep is the sweep on values |
| Timing.Repaired | skills/fix-srt/scripts/fix_srt.py:227-230 | pass 1 repairs each cue independently |
| Timing.RepairedTranscript | skills/fix-srt/scripts/fix_srt.py:227-230 | pass 1 keeps every text |
| Timing.FixTiming | skills/fix-srt/scripts/fix_srt.py:220-283 | the three passes keep the cue count, and the output list holds only indices of cues |
| Timing.FixTimingProperties | skills/fix-srt/scripts/fix_srt.py:220-283 | emitted plus merged equals the input count, and renumbered is the output length. Adjacent output cues do not overlap, all words survive in order, and adjusted is at most twice the cue count. Pass 3 never changes what pass 2 left |
| Timing.FixTimingAndMerge | skills/fix-srt/scripts/fix_srt.py:220-283 | the in-place three passes compute the specification's cues, output list and counters |
| VttTime.NormalizeTime | skills/srt-to-vtt/scripts/srt_to_vtt.py:35-53 | normalize_time can fail only on input with exactly three ':'-fields; any other input comes back stripped with its commas turned into full stops |
| VttTime.CommasToPoints | skills/srt-to-vtt/scripts/srt_to_vtt.py:38 | same length, no comma left |
| VttTime.ReplaceCommas | skills/srt-to-vtt/scripts/srt_to_vtt.py:38 | `replace(',', '.')` turns each comma into a full stop and keeps every other character |
| VttTime.PreparedText | skills/srt-to-vtt/scripts/srt_to_vtt.py:37-38 | the prepared text is the stripped text with commas replaced, and it is stripped |
| VttTime.Zfill2 | skills/srt-to-vtt/scripts/srt_to_vtt.py:43-44 | a one-character hour becomes two characters, a zero in front of a digit |
| VttTime.Hour | skills/srt-to-vtt/scripts/srt_to_vtt.py:43-44 | only a one-character hour is padded |
| VttTime.Millis3 | skills/srt-to-vtt/scripts/srt_to_vtt.py:48 | the fraction is padded with zeros or cut to exactly three characters |
| VttTime.SecondsAndFraction | skills/srt-to-vtt/scripts/srt_to_vtt.py:46-51 | no contract of its own: `(ss, "")` without a `.`, the two pieces of `ss.split('.')` with one, and None for the ValueError with more. SecondsAndFractionPieces carries its meaning |
| VttTime.SecondsAndFractionPieces | skills/srt-to-vtt/scripts/srt_to_vtt.py:46-51 | the split fails exactly when the seconds field holds more than one '.'; the pieces hold no '.' |
| VttTime.NormalFieldsSplit | skills/srt-to-vtt/scripts/srt_to_vtt.py:41-52 | the rewritten fields are the padded hour, the minutes, and the seconds with a three-character fraction (".000" when there was none) |
| VttTime.NormalizeTimeUnsplit | skills/srt-to-vtt/scripts/srt_to_vtt.py:53 | input without exactly three ':'-fields is only stripped and has its commas replaced |
| VttTime.NormalizeTimeFields | skills/srt-to-vtt/scripts/srt_to_vtt.py:35-53 | for three ':'-fields: fails exactly when the seconds hold more than one '.'. Otherwise the hour is padded, minutes are kept, and the seconds get exactly three decimals |
| VttTime.FractionValue | skills/srt-to-vtt/scripts/srt_to_vtt.py:48 | the padded fraction is the same number of milliseconds as the fraction read as a decimal fraction |
| VttTime.NormalClockValue | skills/srt-to-vtt/scripts/srt_to_vtt.py:35-53 | a captured clock time normalises to a WebVTT timestamp for the same time |
| VttTime.NormalizeClock | skills/srt-to-vtt/scripts/srt_to_vtt.py:35-53 | normalize_time never fails on a captured clock time and returns that timestamp |
| VttTime.NormalizeVttStamp | skills/srt-to-vtt/scripts/srt_to_vtt.py:35-53 | a WebVTT timestamp is returned unchanged, so normalising twice is normalising once |
| Vtt.DigitRun | skills/srt-to-vtt/scripts/srt_to_vtt.py:60 | the greedy digit count: all digits, at most the cap, stopping at a non-digit |
| Vtt.ClockEnd | skills/srt-to-vtt/scripts/srt_to_vtt.py:60 | a match of the clock pattern is a one- or two-digit-hour clock time |
| Vtt.TimingAt | skills/srt-to-vtt/scripts/srt_to_vtt.py:60 | both captured groups are clock times |
| Vtt.SearchTiming | skills/srt-to-vtt/scripts/srt_to_vtt.py:75 | both captured groups of the leftmost match are clock times |
| Vtt.NormalizedTime | skills/srt-to-vtt/scripts/srt_to_vtt.py:78-80 | normalize_time of a captured time is a WebVTT timestamp for the same time |
| Vtt.BreakEnd | skills/srt-to-vtt/scripts/srt_to_vtt.py:58 | a match of `\r?\n\s*\r?\n` at a position ends after it and within the text |
| Vtt.FirstBreak | skills/srt-to-vtt/scripts/srt_to_vtt.py:58 | a found separator lies at or after the start position |
| Vtt.FirstBreakLeftmost | skills/srt-to-vtt/scripts/srt_to_vtt.py:58 | the separator found is the leftmost, and none is reported only when none exists |
| Vtt.SplitBlocks | skills/srt-to-vtt/scripts/srt_to_vtt.py:58 | the split yields at least one block |
| Vtt.SplitLooseBlocks | skills/srt-to-vtt/scripts/srt_to_vtt.py:58 | blocks with no blank line and no whitespace at their ends, each possibly followed by one line break, joined by blank lines and with the last block's line break removed, split back into the blocks without their line breaks |
| Vtt.StripLooseJoin | skills/srt-to-vtt/scripts/srt_to_vtt.py:58 | `content.strip()` of such blocks joined by blank lines and ended by a line break removes that line break and the last block's |
| Vtt.NonBlank | skills/srt-to-vtt/scripts/srt_to_vtt.py:62 | the non-blank lines are no more than the lines |
| Vtt.StripEmpty | skills/srt-to-vtt/scripts/srt_to_vtt.py:62 | `l.strip() != ''` holds exactly when the line has a character other than whitespace |
| Vtt.NonBlankKept | skills/srt-to-vtt/scripts/srt_to_vtt.py:62 | the lines kept are exactly the lines l of the block with `l.strip() != ''` |
| Vtt.NonBlankLines | skills/srt-to-vtt/scripts/srt_to_vtt.py:62 | lines with a visible character are all kept |
| Vtt.ArrowLine | skills/srt-to-vtt/scripts/srt_to_vtt.py:66-74 | the first line holding "-->", or none when no line does |
| Vtt.CueOfLines | skills/srt-to-vtt/scripts/srt_to_vtt.py:62-84 | a cue found has WebVTT timestamps and a stripped text |
| Vtt.CueOfLinesCases | skills/srt-to-vtt/scripts/srt_to_vtt.py:63-84 | a block is skipped exactly when no line holds "-->" or the first such line has no timing match. Otherwise the times are normalize_time of the captures and the text is the following lines, joined and stripped |
| Vtt.ParseBlock | skills/srt-to-vtt/scripts/srt_to_vtt.py:61-84 | a cue found has WebVTT timestamps and a stripped text |
| Vtt.ParseSrt | skills/srt-to-vtt/scripts/srt_to_vtt.py:56-85 | at most one cue per block, each with WebVTT timestamps and a stripped text |
| Vtt.Groups | skills/srt-to-vtt/scripts/srt_to_vtt.py:89-97 | one group for the signature, one for the LANG line when a language is given, one per cue |
| Vtt.BuildVtt | skills/srt-to-vtt/scripts/srt_to_vtt.py:88-98 | the file opens with the line `WEBVTT` and ends with a line break, for any cues and language |
| Vtt.CueBlocks | skills/srt-to-vtt/scripts/srt_to_vtt.py:93-97 | one block per cue, in input order |
| Vtt.BuildVttBlocks | skills/srt-to-vtt/scripts/srt_to_vtt.py:88-98 | the file is the signature block, the optional LANG block and the cue blocks, separated by blank lines and ended by a newline |
| Vtt.CueLines | skills/srt-to-vtt/scripts/srt_to_vtt.py:95-96 | a cue block is its timing line followed by its text lines |
| Vtt.SearchTimingLine | skills/srt-to-vtt/scripts/srt_to_vtt.py:60-77 | the timing line written for a cue is matched again, with the same two timestamps |
| Vtt.TimingLineAlone | skills/srt-to-vtt/scripts/srt_to_vtt.py:82-84 | a block holding only a timing line gives a cue with those timestamps and an empty text |
| Vtt.EmptyCueBlock | skills/srt-to-vtt/scripts/srt_to_vtt.py:94-97 | a cue with an empty text is written as its timing line and an empty line, and its timing line reads back as the cue |
| Vtt.CueBlockLoose | skills/srt-to-vtt/scripts/srt_to_vtt.py:94-97 | a written cue block is one solid block followed by at most one line break, the timing line alone when the text is empty |
| Vtt.ParseCueBlock | skills/srt-to-vtt/scripts/srt_to_vtt.py:61-97 | a block written for a cue with WebVTT timestamps and a text that is empty, or stripped and made of non-blank lines, parses back to that cue once the split has removed a final line break |
| Vtt.SignatureBlock | skills/srt-to-vtt/scripts/srt_to_vtt.py:89 | the signature block yields no cue |
| Vtt.LangBlock | skills/srt-to-vtt/scripts/srt_to_vtt.py:90-92 | the LANG block of a stripped one-line language without `-->` yields no cue |
| Vtt.ParseFileBlocks | skills/srt-to-vtt/scripts/srt_to_vtt.py:61-98 | parsing the written blocks, each without a final line break, gives back exactly the cues, in order |
| Vtt.SplitFile | skills/srt-to-vtt/scripts/srt_to_vtt.py:58-98 | splitting the written file gives back its blocks, a cue with empty text without its final line break |
| Vtt.RoundTrip | skills/srt-to-vtt/scripts/srt_to_vtt.py:56-98 | converting the written WebVTT text back with parse_srt gives back the cues, for cues with WebVTT timestamps and a text that is empty or stripped and made of non-blank lines |
| Vtt.StrippedLines | skills/srt-to-vtt/scripts/srt_to_vtt.py:83 | the stripped join of non-blank lines without line boundaries is empty or again such lines |
| Vtt.CueLinesWritable | skills/srt-to-vtt/scripts/srt_to_vtt.py:66-84 | from non-blank lines without line boundaries, the cue read has a text build_vtt writes back |
| Vtt.ParsedBlockWritable | skills/srt-to-vtt/scripts/srt_to_vtt.py:62-84 | any cue read from one block has WebVTT timestamps and a text build_vtt writes back |
| Vtt.ParsedWritable | skills/srt-to-vtt/scripts/srt_to_vtt.py:56-85 | every cue parse_srt reads has WebVTT timestamps and a text build_vtt writes back |
| Vtt.ReconvertStable | skills/srt-to-vtt/scripts/srt_to_vtt.py:56-98 | parse_srt of the file build_vtt writes from parse_srt's cues gives those cues again |
| FloatTime.ToDouble | skills/fix-srt/scripts/fix_srt.py:61 | the binary64 rounding yields a rational with a positive denominator; ToDoubleNearest states that it is the nearest binary64 value |
| FloatTime.MillisThroughFloat | skills/fix-srt/scripts/fix_srt.py:61 | no contract of its own: `total_seconds()` rounded to binary64, times 1000 rounded again, then truncated by `int()`. FloatDropsMillisecond shows its effect |
| FloatTime.TotalMillisAsWritten | skills/fix-srt/scripts/fix_srt.py:61 | no contract of its own: MillisThroughFloat for the magnitude, with the sign of the time. FloatDropsMillisecond shows its effect |
| FloatTime.RoundDivNearest | skills/fix-srt/scripts/fix_srt.py:61 | rounding is to the nearest whole number, ties to the even one |
| FloatTime.LeadUpBounds | skills/fix-srt/scripts/fix_srt.py:61 | the exponent found brackets the value between consecutive powers of two |
| FloatTime.LeadDownBounds | skills/fix-srt/scripts/fix_srt.py:61 | the same for values below one |
| FloatTime.ToDoubleNearest | skills/fix-srt/scripts/fix_srt.py:61 | the binary64 value chosen lies within half a unit in the last place of the exact value |
| FloatTime.FloatDropsMillisecond | skills/fix-srt/scripts/fix_srt.py:61 | 1001 ms comes out of the float arithmetic as 1000 ms, and is written differently from the exact time |

## Left out

- File reading and writing, text encodings and the command line are not modelled. This covers `detect_format`, `detect_encoding`, `write_srt`, `summarize_changes`, `process_file`, `main` and the `open`/`read` in `read_srt`. The reader starts from the file's text.
- `load_typo_map` is not modelled. The typo table (read from JSON) is a parameter, a sequence of pairs in the dictionary's order. `lru_cache` is left out; caching does not change results.
- `detect_language_from_sample` (the `langdetect` package) is not modelled. The language written on the LANG line is a parameter of `build_vtt`.
- The third-party correctors are not modelled. pycorrector with OpenCC, pyspellchecker and LanguageTool are each an optional function `string -> string`. None means the library is missing. An exception the scripts catch and turn into "no change" is part of that function.
- Times are not `timedelta` or float seconds. They are integer milliseconds, and `min_duration` is in milliseconds. The float rounding of `format_timestamp` as written is modelled separately, in `FloatTime`.
- The duration comparison is done in milliseconds, not in float seconds.
- `conservative_fix_text`'s `aggressiveness` parameter is never read and is left out.
- Regular-expression `\d`, case tests and upper-casing are ASCII only. Python's Unicode digits and letters beyond ASCII are not modelled.
- Whitespace is the set `str.isspace` accepts, and it is also what `\s` matches.
- WebVTT value ranges are not checked, because the converter does not check them. Minutes and seconds above 59 pass through `normalize_time` unchanged.
- Timing.FixTimingProperties: no claim that every output cue has a positive duration or lasts the minimum. A forward merge can move the next cue's start past its end.
- Normalize.FixEnglishTextSpacing: proved without the spell checker and the grammar tool. Their output is arbitrary text, so the whitespace guarantee need not hold with them.
- Normalize.FixEnglishText: with the grammar tool present nothing is claimed about the first character.
- Subtitles.DropVttHeader: the contract states only that SubRip text passes through. Dropping the WebVTT signature line is its definition.
- Subtitles.ParseInt: the contract states only when `int()` can succeed, not the Python rules for signs and underscores. Those are in its definition, and ParseIntDecimal gives the value on decimal spellings. It is applied only to stripped text, so `int()`'s own tolerance of surrounding whitespace is not modelled.
- Vtt.RoundTrip: proved for cues whose timestamps are already WebVTT timestamps and whose text is empty, or stripped and made of lines that are not blank and have no line boundary other than '\n'. The language on the LANG line must be stripped, on one line and free of "-->", because a LANG line holding "-->" would be read as a cue. Other cues do not survive the round trip: a blank line inside a text splits the block, and unstripped text or other timestamp forms are rewritten. Every cue parse_srt itself reads meets these conditions (ParsedWritable).
- Timestamp.Matches: no contract of its own. It is the pattern itself, and ParseStamp and RenderMatched state what a match means.
- Subtitles.Duration: no contract of its own. It is the subtraction, kept in milliseconds like every time in the model.
- Timing.IsSentenceEnd: no contract of its own. It is the six-member set.
- Timing.EndsSentence: no contract of its own. PlaceCases states what the merge test does with it.
- Timing.IsShort: no contract of its own. PlaceCases states what the merge test does with it.
- ContextFix.Context: no contract of its own. The fixers ignore the context, as ContextUnused states, so nothing depends on its contents.
- VttTime.SecondsAndFraction: no contract of its own. SecondsAndFractionPieces states its cases.
- Normalize.Respell: no contract of its own. It only passes the text to the spell checker, whose output is arbitrary text.
- FloatTime.MillisThroughFloat: no contract of its own. Its behaviour on 1001 ms is stated by FloatDropsMillisecond.
- FloatTime.TotalMillisAsWritten: no contract of its own, for the same reason as MillisThroughFloat.
- ContextFix.Window: the window is built from indices, and a cue's own index is excluded. The script compares `Subtitle` objects by identity, which picks out the same cue. The context string never reaches the fixers.
- FloatTime.ToDouble: its own contract states only that the result is a rational with a positive denominator. That it is the nearest binary64 value is ToDoubleNearest. Overflow and subnormal numbers are not modelled; times never reach them.

## Findings

| source | as written | input that shows it | evidently intended | confidence | as-written member | corrected member |
|---|---|---|---|---|---|---|
| skills/fix-srt/scripts/fix_srt.py:61 (also skills/fix-srt/scripts/fix_srt_enhanced.py:116) | `int(td.total_seconds() * 1000)`: the time goes through two binary64 roundings and is then truncated | "00:00:01,001" parses to 1001 ms. total_seconds() is the double just below 1.001, and times 1000 it is the double just below 1001, so int() gives 1000 and the file gets "00:00:01,000" | the exact whole number of milliseconds, so an unchanged timestamp is written back as read | not executed | FloatTime.FloatDropsMillisecond | Timestamp.FormatThenParse |
