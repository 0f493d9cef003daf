# Xenoblade 3 text rebalancer: a Dafny model

This project models the text-processing core of the Xenoblade 3 subtitle tools. The three
scripts form two parts:

* **The line-balancing engine** of `Rebalance-Xenoblade3.py` and `split.py`. The engine code is
  the same in both scripts.
  1. A dialogue text is flattened to one line.
  2. It is cut into tokens, keeping `[System:Ruby ...]...[/System:Ruby]` furigana constructs
     whole.
  3. Each token is measured by its visual width, that is, without ruby markup and without
     zero-width spaces.
  4. The text is given one, two or three lines by its profile's thresholds.
  5. It is split greedily toward equal line widths.

  A separate check reports the first line wider than a profile's limit.
* **The two profile classifiers**, one `get_profile_for_path` per script, with their
  `CONFIG` profiles. A classifier picks the profile from the file's folder name.
  * `Rebalance-Xenoblade3.py` first looks for a "mixed" folder `msg_[ncst]q<digits>` and
    decides by the letter after the digits. Otherwise it tries the standard prefixes, then
    the cinematic one.
  * `split.py` only tests prefixes, cinematic first.
* **The `fixjson.py` repair.** In a JSON file's content, every double-quoted literal that holds
  a hard line break is rewritten:
  * carriage returns are deleted;
  * line feeds become the two characters `\n`;
  * each rewrite is recorded with the line the literal starts on and a 50-character snippet.

## Modules

* `Strings`, with `Optional`: helpers for Python's string operations as the core uses them
  (`join`, `split(c)`, `replace`, `count`, `in`).
* `Flattening`: `clean_and_flatten`, with Python's `str.split()` whitespace set.
* `Ruby`: the two ruby patterns, and `get_visual_length`.
* `Tokenizer`: `tokenize_keeping_ruby_intact`.
* `Splitter`: `force_split`, written as the method `ForceSplit` and proved equal to a
  specification function, `LinesBy`.
  * `LinesBy` is defined by the recursive `Groups`.
  * The proof goes through a forward state function, `Passes`.
* `Engine`:
  * the `Profile` record, path normalisation and the threshold ladder;
  * `process_text`, as the method `ProcessText` with its specification function `Balance`;
  * `check_for_overflow`, as the method `CheckForOverflow`.
* `RebalanceProfiles` and `SplitProfiles`: the two classifiers, each as a specification function
  `Classify` and a method `GetProfileForPath` written with the source's loops and early
  returns.
* `FixJson`: the literal scanner and the repair.
  * The file content is cut into segments (`Segments`), each either a plain character or a
    literal the pattern matches at that index.
  * `Substitute` gives the new content and the change list.

Python's `/` in `total_visual_len / num_lines` is a float division. The model multiplies
through by `num_lines` and compares integers instead. `Splitter.ScaledDistance` proves that
this comparison is the same as the comparison against the exact quotient.

`clean_and_flatten` deletes a carriage return rather than turning it into a space
(`Flattening.ReturnJoins`). So `"a\rb"` flattens to `"ab"`, while `"a\nb"` flattens to `"a b"`.

## Model

| member | source | states |
|---|---|---|
| Flattening.Flatten | Rebalance-Xenoblade3.py:74-79 | the result is single-spaced with no other whitespace, holds no `\n` or `\r`, and is empty for empty input |
| Flattening.Words | Rebalance-Xenoblade3.py:79 | `split()` yields only non-empty runs free of whitespace |
| Flattening.JoinedWordsNormalized | Rebalance-Xenoblade3.py:79 | words joined by one space form a normalized text |
| Flattening.WordsOfNormalized | Rebalance-Xenoblade3.py:79 | splitting a normalized text on whitespace and re-joining with spaces gives it back |
| Flattening.FlattenNormalized | Rebalance-Xenoblade3.py:74-79 | flattening leaves an already normalized text unchanged |
| Flattening.FlattenIdempotent | Rebalance-Xenoblade3.py:74-79 | flattening twice is flattening once |
| Flattening.FlattenBlank | Rebalance-Xenoblade3.py:74-79 | a whitespace-only text flattens to the empty string |
| Flattening.FlattenNotBlank | Rebalance-Xenoblade3.py:74-79 | a text with a non-whitespace character flattens to a non-empty string |
| Flattening.ReturnJoins | Rebalance-Xenoblade3.py:78 | a carriage return is deleted, not turned into a space: `"a\rb"` becomes `"ab"` |
| Flattening.FeedSeparates | Rebalance-Xenoblade3.py:77 | a line feed becomes a space: `"a\nb"` becomes `"a b"` |
| Ruby.BracketOrBreak | Rebalance-Xenoblade3.py:86 | the lazy `rt=.*?\]` stops at the first `]`, and cannot cross a line break |
| Ruby.CloseOrBreak | Rebalance-Xenoblade3.py:86 | the lazy `(.*?)` stops at the first closing tag, and cannot cross a line break |
| Ruby.MatchHere | Rebalance-Xenoblade3.py:86 | a match lies within the text and its group 1 follows the opening tag |
| Ruby.MatchConstruct | Rebalance-Xenoblade3.py:86 | a well-formed construct is matched whole, and group 1 is exactly its base text |
| Ruby.Strip | Rebalance-Xenoblade3.py:86 | removing the ruby markup never lengthens the text |
| Ruby.StripPlain | Rebalance-Xenoblade3.py:86 | a text without the opening tag is left unchanged |
| Ruby.VisualLength | Rebalance-Xenoblade3.py:86-88 | the visual width is at most the character count |
| Ruby.VisualLengthPlain | Rebalance-Xenoblade3.py:86-88 | a text with no ruby tag and no zero-width space is as wide as it is long |
| Ruby.VisualLengthConstruct | Rebalance-Xenoblade3.py:86-88 | a ruby construct is as wide as its base text; the annotation takes no width |
| Tokenizer.ProtectSpaces | Rebalance-Xenoblade3.py:95 | a protected construct holds no space, and is empty only if the construct is |
| Tokenizer.Protect | Rebalance-Xenoblade3.py:97 | the loose pattern's `re.sub`, scanning left to right: each matched construct comes back with its spaces protected, every other character as it was; `ProtectSplit` states what splitting its result gives |
| Tokenizer.RestoreSpaces | Rebalance-Xenoblade3.py:99 | `replace('<<SPACE>>', ' ')` gives the empty string exactly for the empty string |
| Tokenizer.Pieces | Rebalance-Xenoblade3.py:97-98 | the reference cut at every space outside a construct yields at least one piece; `TokenizePieces` proves the tokenizer against it |
| Tokenizer.Tokenize | Rebalance-Xenoblade3.py:97-100 | no token is empty (`if w`) |
| Tokenizer.ProtectSplit | Rebalance-Xenoblade3.py:97-98 | splitting the protected text on spaces gives the protected form of each piece: the cut points are the spaces outside ruby constructs |
| Tokenizer.PiecesJoin | Rebalance-Xenoblade3.py:97-98 | the pieces joined by spaces are the text again |
| Tokenizer.RestoreProtected | Rebalance-Xenoblade3.py:95-99 | restoring `<<SPACE>>` undoes protection for a piece without the placeholder |
| Tokenizer.TokenizePieces | Rebalance-Xenoblade3.py:97-99 | without the placeholder, the tokens are the non-empty pieces |
| Tokenizer.TokenizeRoundTrip | Rebalance-Xenoblade3.py:90-100 | for a single-spaced text without `<<SPACE>>`, the tokens joined by spaces are the text |
| Tokenizer.PiecesWord | Rebalance-Xenoblade3.py:97-98 | a word without spaces and without `[` is one piece |
| Tokenizer.PiecesGloss | Rebalance-Xenoblade3.py:97 | a well-formed ruby construct alone is one piece, spaces in it included |
| Tokenizer.PiecesPart | Rebalance-Xenoblade3.py:97-98 | a word or a construct is one piece, alone or followed by a space and more text |
| Tokenizer.PiecesOfParts | Rebalance-Xenoblade3.py:97-98 | a line of words and constructs joined by single spaces cuts into exactly those parts |
| Tokenizer.TokenizeKeepsConstruct | Rebalance-Xenoblade3.py:90-100 | a line of plain words and ruby constructs separated by single spaces tokenizes into exactly those words and constructs, in order; each construct is one token, spaces included, at the start, the end or anywhere between, however many the line holds |
| Tokenizer.TokenizeAvoids | Rebalance-Xenoblade3.py:97-99 | a character absent from the text, other than a space or a placeholder character, is in no token |
| Splitter.ScaledDistance | Rebalance-Xenoblade3.py:108-123 | comparing the scaled integer distances gives the same answer as comparing `abs(len_with - total / num_lines)` over the reals |
| Splitter.Walk | Rebalance-Xenoblade3.py:118-128 | the scan's cut lies between its start and the end of the words |
| Splitter.Cut | Rebalance-Xenoblade3.py:114-128 | `best_split` of one pass never lies beyond the remaining words; `CutFirstRegression` states where it lies |
| Splitter.CutFirstRegression | Rebalance-Xenoblade3.py:114-128 | the cut takes at least one word of a non-empty list; the distance does not rise up to the cut; the next word would raise it (`diff <= best_diff`, else `break`) |
| Splitter.BestSplit | Rebalance-Xenoblade3.py:114-128 | the inner loop returns the cut of the specification |
| Splitter.Groups | Rebalance-Xenoblade3.py:113-135 | the word groups of up to `rounds` passes plus the leftover; `GroupsConcat` and `GroupsShape` state what they are |
| Splitter.LinesBy | Rebalance-Xenoblade3.py:102-136 | `force_split` for any width measure: one joined line for `num_lines <= 1`, else the joined groups; `ForceSplitCount` and `ForceSplitRejoin` state its properties |
| Splitter.Lines | Rebalance-Xenoblade3.py:107-119 | `force_split` measuring tokens with `get_visual_length` |
| Splitter.ForceSplit | Rebalance-Xenoblade3.py:102-136 | the method's lines are exactly `LinesBy`: one joined line for `num_lines <= 1`, else the greedy cuts of up to `num_lines - 1` passes plus the leftover |
| Splitter.GroupsStep | Rebalance-Xenoblade3.py:130-135 | one pass commits the words up to the cut as a line, and the later passes split the rest |
| Splitter.GroupsConcat | Rebalance-Xenoblade3.py:130-135 | the groups concatenate to the word list: no word lost, repeated or moved |
| Splitter.GroupsShape | Rebalance-Xenoblade3.py:113-135 | between one and `rounds + 1` groups; no group is empty unless the word list is, which gives one empty group |
| Splitter.JoinConcat | Rebalance-Xenoblade3.py:130-135 | joining the joined groups equals joining their concatenation |
| Splitter.PassesGroups | Rebalance-Xenoblade3.py:113-132 | after `r` passes, the committed lines followed by the lines still to come are the specification's lines |
| Splitter.PassesStop | Rebalance-Xenoblade3.py:132 | once no words remain, later passes change nothing, so the early `break` dominates |
| Splitter.PassesLines | Rebalance-Xenoblade3.py:113-135 | after all passes, the committed lines and the leftover line are the specification's lines |
| Splitter.ForceSplitDone | Rebalance-Xenoblade3.py:134-136 | appending the leftover words after the last pass gives `LinesBy` |
| Splitter.ForceSplitCount | Rebalance-Xenoblade3.py:104-135 | one line for `num_lines <= 1`, otherwise between one and `num_lines` lines |
| Splitter.ForceSplitRejoin | Rebalance-Xenoblade3.py:102-136 | the lines joined by spaces are the words joined by spaces |
| Splitter.LinesAvoid | Rebalance-Xenoblade3.py:130-135 | a character that is not a space and is in no word is in no line |
| Engine.NormalizePath | Rebalance-Xenoblade3.py:48 | every backslash becomes `/` and every other character is kept |
| Engine.NormalizeIdempotent | Rebalance-Xenoblade3.py:48 | normalizing a normalized path changes nothing |
| Engine.TargetLines | Rebalance-Xenoblade3.py:146-151 | one to three lines; one exactly when the width is within the first threshold; three only for profiles allowing three; never above `max_lines` when that is at least two |
| Engine.TargetLinesMonotone | Rebalance-Xenoblade3.py:146-151 | a wider text never gets fewer lines |
| Engine.Balance | Rebalance-Xenoblade3.py:138-154 | the value `process_text` returns; `BalanceLines`, `BalanceRejoin` and `BalanceIdempotent` state what it is |
| Engine.ProcessText | Rebalance-Xenoblade3.py:138-154 | the method returns `Balance`: blank text unchanged, else the flattened tokens split into the ladder's lines, joined by `\n` |
| Engine.BalanceBlank | Rebalance-Xenoblade3.py:139-140 | blank text is returned as it is |
| Engine.TokensNoBreak | Rebalance-Xenoblade3.py:142-143 | no token holds a line feed |
| Engine.BalanceLines | Rebalance-Xenoblade3.py:142-154 | splitting the result on `\n` gives back the lines `force_split` made; there are between one and the ladder's count of them, at most `max_lines` for profiles with at least two, and never more than three |
| Engine.BalanceRejoin | Rebalance-Xenoblade3.py:142-154 | turning the result's line feeds into spaces gives the flattened text |
| Engine.BalanceShort | Rebalance-Xenoblade3.py:146-147 | a text within the first threshold comes back flattened, on one line |
| Engine.FlattenBalance | Rebalance-Xenoblade3.py:138-154 | the balanced text flattens to the same text as the original |
| Engine.BalanceIdempotent | Rebalance-Xenoblade3.py:138-154 | balancing a balanced text changes nothing |
| Engine.CheckForOverflow | Rebalance-Xenoblade3.py:156-162 | overflow holds exactly when some line is wider than the limit; the width returned is that of the first such line; otherwise the result is `(false, 0)` |
| RebalanceProfiles.DigitsEnd | Rebalance-Xenoblade3.py:53 | greedy `\d+`: digits up to the end, and no digit right after |
| RebalanceProfiles.FirstMixed | Rebalance-Xenoblade3.py:53 | `re.search` finds the leftmost index where `msg_[ncst]q\d` starts, or reports that none exists |
| RebalanceProfiles.MixedSuffix | Rebalance-Xenoblade3.py:56 | group 2, when present, is one ASCII letter |
| RebalanceProfiles.Classify | Rebalance-Xenoblade3.py:53-72 | the result is the standard profile, the cinematic profile or none, and a mixed match always gives a profile |
| RebalanceProfiles.ProfileFor | Rebalance-Xenoblade3.py:41-72 | the result is the standard profile, the cinematic profile or none |
| RebalanceProfiles.CinematicLadder | Rebalance-Xenoblade3.py:18-25 | with the cinematic `CONFIG` thresholds, a text takes one line up to width 60 and two lines above, never three |
| RebalanceProfiles.StandardLadder | Rebalance-Xenoblade3.py:26-33 | with the standard `CONFIG` thresholds, a text takes one line up to width 35, two up to 80, and three above |
| RebalanceProfiles.GetProfileForPath | Rebalance-Xenoblade3.py:41-72 | the method with its loops and early returns computes `ProfileFor` |
| RebalanceProfiles.MixedNameMatch | Rebalance-Xenoblade3.py:53-56 | in a path whose first `msg_` starts a mixed folder name, the match is there, and group 2 is the letter after the digits if one follows |
| RebalanceProfiles.MixedName | Rebalance-Xenoblade3.py:53-62 | a mixed folder decides alone: suffix `f`, `t` or `s` in either case gives standard, and no letter or any other letter gives cinematic |
| RebalanceProfiles.PrefixOrder | Rebalance-Xenoblade3.py:64-72 | without a mixed match, `msg_ask`, `msg_fev` or `msg_tlk` gives standard, before `msg_ev` gives cinematic; otherwise there is no profile |
| RebalanceProfiles.NoMsgNoProfile | Rebalance-Xenoblade3.py:41-72 | a path without `msg_` has no profile |
| RebalanceProfiles.SeparatorsAlike | Rebalance-Xenoblade3.py:48 | backslash and slash separators give the same profile |
| SplitProfiles.GetProfileForPath | split.py:39-45 | the method with its loops and early returns computes `ProfileFor` |
| SplitProfiles.Classify | split.py:41-45 | the result is the standard profile, the cinematic profile or none |
| SplitProfiles.ProfileFor | split.py:39-45 | the result is the standard profile, the cinematic profile or none |
| SplitProfiles.CinematicLadder | split.py:18-24 | with the cinematic `CONFIG` thresholds, a text takes one line up to width 60 and two lines above, never three |
| SplitProfiles.StandardLadder | split.py:25-31 | with the standard `CONFIG` thresholds, a text takes one line up to width 35, two up to 80, and three above |
| SplitProfiles.PrefixOrder | split.py:41-45 | `msg_ev` gives cinematic before any of `msg_nq`, `msg_ask`, `msg_tq`, `msg_tlk` or `msg_sq` gives standard; otherwise there is no profile |
| SplitProfiles.NoSuffixRule | split.py:43-44 | a `msg_nq`, `msg_tq` or `msg_sq` folder is standard whatever follows it, unless `msg_ev` occurs |
| SplitProfiles.NoMsgNoProfile | split.py:39-45 | a path without `msg_` has no profile |
| SplitProfiles.ScriptsDisagreeOnMixed | split.py:41-44 | a mixed folder with no standard suffix is cinematic for the rebalancer and standard for this script |
| SplitProfiles.ScriptsDisagreeOnPrefixes | split.py:41-44 | with both `msg_ev` and `msg_ask` and no mixed folder, the rebalancer says standard and this script cinematic |
| FixJson.LiteralEnd | fixjson.py:54 | the body group ends at a closing quote inside the content |
| FixJson.LiteralEndBody | fixjson.py:54 | the match from `j` closes at `k` exactly when `s[k]` is a quote and `s[j..k]` is a sequence of non-quote, non-backslash characters and escape pairs |
| FixJson.MatchAt | fixjson.py:54 | a match at `i` opens with a quote there and closes with a later one |
| FixJson.MatchAtLiteral | fixjson.py:54 | a quoted body is matched up to its own closing quote |
| FixJson.BodyAppend | fixjson.py:54 | bodies concatenate to a body |
| FixJson.EscapedQuote | fixjson.py:54 | an escaped quote does not close a literal |
| FixJson.FirstSegment | fixjson.py:54-55 | the first segment is a literal exactly when the pattern matches at the current index; it is non-empty and within the text |
| FixJson.Segments | fixjson.py:54-55 | the file content cut the way `pattern.sub` visits it; `RenderScan`, `SegmentsMatched` and `ScanAscending` state what the cut is |
| FixJson.RenderScan | fixjson.py:54-55 | the segments written back in order are the content: `re.sub` keeps unmatched text verbatim |
| FixJson.ScanLiterals | fixjson.py:54-55 | every literal starts inside the scanned text |
| FixJson.SegmentsMatched | fixjson.py:30-32 | every literal segment is the pattern's match at its own index, and its inner text is group 1 |
| FixJson.ScanAscending | fixjson.py:55 | `re.sub` visits the literals left to right |
| FixJson.Escape | fixjson.py:41 | the result holds no line feed, and keeps every other character except `\` and `n` |
| FixJson.EscapeJoin | fixjson.py:41 | escaping is splitting on line feeds and joining with the two characters `\n` |
| FixJson.EscapeAbsent | fixjson.py:41 | `replace` leaves a text without line feeds unchanged |
| FixJson.FixedInner | fixjson.py:41 | the fixed text holds no line feed and no carriage return |
| FixJson.Repaired | fixjson.py:35-50 | what `replacement_handler` returns for a segment; `RepairedSegmentBreaks` states it |
| FixJson.ChangesOf | fixjson.py:35-46 | the `file_changes` entries of the segments, in order; `ChangesInOrder` and `RepairedBreaks` state it |
| FixJson.Substitute | fixjson.py:27-58 | `pattern.sub(replacement_handler, content)` together with the `file_changes` it fills; `SubstituteUnchanged` and `ChangesInOrder` state what it computes |
| FixJson.LineOf | fixjson.py:38 | the line number is between one and the file's line count |
| FixJson.LineOfSplit | fixjson.py:38 | the line is the number of lines of the content before the literal's opening quote |
| FixJson.LineOfMonotone | fixjson.py:38 | a later index never lies on an earlier line |
| FixJson.Snippet | fixjson.py:45 | the snippet is the first 50 characters, or all if fewer, with each line feed shown as a space |
| FixJson.RepairedSegmentBreaks | fixjson.py:35-50 | a literal with a break comes back without any; every other segment comes back exactly as matched |
| FixJson.RepairedBreaks | fixjson.py:35-50 | no change is recorded iff no literal holds a break, and then the content is the original; otherwise the content has strictly fewer break characters |
| FixJson.SubstituteUnchanged | fixjson.py:35-58 | the change list is empty iff no literal holds a hard line break, and the content is unchanged iff the change list is empty, so a file is rewritten only when it changes |
| FixJson.ChangesAscending | fixjson.py:38-46 | changes of ascending literals are in line order and not before the starting line |
| FixJson.ChangesWithin | fixjson.py:38-46 | every recorded line lies within the file |
| FixJson.ChangesInOrder | fixjson.py:38-46 | every recorded line lies within the file, and the records are in line order |
| FixJson.RemoveKeepsSafe | fixjson.py:41 | deleting carriage returns keeps a body whose escapes do not escape a break |
| FixJson.EscapeSafe | fixjson.py:41 | escaping such a body's line feeds gives a body |
| FixJson.RepairedLiteralMatches | fixjson.py:41-48 | when no `\` directly precedes a break, the repaired literal is again one whole literal of the pattern |
| FixJson.BrokenLiteralSegments | fixjson.py:54 | the content `"a\` + CR + `"` is one literal |
| FixJson.BrokenLiteralContent | fixjson.py:41-48 | that literal is rewritten as `"a\"` |
| FixJson.BrokenLiteralChange | fixjson.py:38-46 | one change is recorded for it, on line 1 |
| FixJson.OpenLiteralSegments | fixjson.py:54 | `"a\"` holds no literal: its closing quote is escaped |
| FixJson.EscapedReturnLeavesLiteralOpen | fixjson.py:41-54 | when a `\` and a carriage return are the last characters before the closing quote, the `\` escapes that quote after the repair: `"a\` + CR + `"` becomes `"a\"`, which holds no literal at all |
| FixJson.ReturnBeforeTextSegments | fixjson.py:54 | the content `"a\` + CR + `b"` is one literal |
| FixJson.ReturnBeforeTextRepaired | fixjson.py:35-41 | its inner text needs the repair, which gives `a\b` |
| FixJson.EscapedTextMatches | fixjson.py:54 | `"a\b"` is one whole literal |
| FixJson.EscapedReturnEscapesNext | fixjson.py:41-54 | when text follows the carriage return, the `\` escapes that text's first character instead: `"a\` + CR + `b"` becomes `"a\b"`, again one whole literal |

## Left out

* File handling. Not modelled:
  * the directory walks, reading and writing files, JSON loading and saving;
  * the `target_key` lookup;
  * the log and error files, statistics, command-line arguments, console output;
  * `process_single_file` and the scripts' entry points.

  These are I/O around the core.
* `fixjson.py`'s per-file `try`/`except`, its log layout, file counts and the scan date are not
  modelled; they are I/O and the clock. A change record keeps the line number and the snippet.
  The fixed text around them in the log line is left out.
* The `name` fields of the profiles are not modelled: they are only printed.
* `process_text`'s `isinstance(text_content, str)` test is not modelled: the model's text is
  always a string.
* The callers' use of `absolute_max_width` is not modelled. `CheckForOverflow` takes the limit,
  and the width measure, as parameters.
* Float rounding in `force_split` is not modelled. Distances are compared exactly, through the
  integer scaling that `Splitter.ScaledDistance` justifies.
* Python's `\d` also matches non-ASCII decimal digits. `RebalanceProfiles.IsDigit` reads it as
  `0`-`9` only, since folder names are ASCII.
* Tokenizer.TokenizeRoundTrip: stated only for texts that do not contain `<<SPACE>>`. For such
  a text the placeholder round trip is exact. A text that contains the placeholder gets it
  turned into spaces, and `Tokenize` models that, but no round trip holds for it.
* Engine.BalanceRejoin, Engine.FlattenBalance, Engine.BalanceIdempotent, Engine.BalanceShort:
  stated under the same `<<SPACE>>` precondition, for the same reason.
* Tokenizer.TokenizeKeepsConstruct: stated for lines whose plain words hold no `[` and which do
  not contain `<<SPACE>>`. A `[` that starts no construct does not change where the tokenizer
  cuts, but the lemma does not cover it.
* Only the four patterns the core uses are modelled, not a general regular-expression
  engine. A FixJson literal is found by a deterministic scan that agrees with the backtracking
  matcher for this pattern.
* In `fixjson.py`, deleting a carriage return that follows a `\` leaves that `\` to escape
  the next character. When the carriage return is the last character before the closing quote,
  the `\` escapes that quote and the literal is left open. Otherwise it escapes the next
  character. The model keeps the code's behaviour and shows both cases, in
  `FixJson.EscapedReturnLeavesLiteralOpen` and `FixJson.EscapedReturnEscapesNext`.
