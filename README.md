# ai-flashcard-generator: a verified model of its core

This Dafny project models the deterministic core of a Streamlit app. The app turns notes into flashcards with a language model, lets the user study them, and exports them. The model covers:

- **The reply parser** of `utils/llm.py`:
  - `_clean_piece` with its three regular expressions;
  - the five extractors (TSV, one-line `Q: … A: …`, two-line Q/A, numbered pairs, JSON list);
  - `_robust_parse_any`, which tries them in order;
  - the corpus sampler `_compress_corpus`;
  - the accept-or-retry rule of `generate_flashcards_turbo`.
- **The chunker** of `utils/chunking.py`: `estimate_tokens`, the three-tier `_split_candidates`, and the greedy packer `chunk_text` with its overlap and hard-split loop. The tokenizer is a pair of functions with two stated laws.
- **`clean_text`** of `utils/parsing.py`: line-ending and whitespace rewrites, then removal of repeated short lines (headers and footers).
- **`cards_to_dataframe` and `validate_cards`** of `utils/formatting.py`, over a table of rows. A row is a map from column name to cell.
- **`to_anki_txt_bytes`** and the column choice of `to_csv_bytes` in `utils/export.py`.
- **The study mode** of `app.py`: `reset_study` and the card display and button handlers, as the class `Study.Session`.

Modules, one per file:

| file | module | what |
|---|---|---|
| wrappers.dfy | Wrappers | `Option` |
| text.dfy | Text | Python's `str.isspace`, `strip`, `splitlines`, `split`, `find`, `join` and `re.sub(r'\s+', ' ', …)` |
| prefixes.dfy | Prefixes | `_NUM_PREFIX`, `_Q_PREFIX` and `_A_PREFIX` as match-length functions, and `_clean_piece` |
| extractors.dfy | Extractors | the five extractors, each as a function plus the loop that computes it |
| parse_any.dfy | Robust | `_robust_parse_any` |
| compress.dfy | Sampling | `_compress_corpus` |
| generate.dfy | Generate | `generate_flashcards_turbo` |
| chunking.dfy | Chunking | `estimate_tokens`, `_split_candidates`, `chunk_text` |
| clean_text.dfy | CleanText | `clean_text` |
| formatting.dfy | Formatting | `cards_to_dataframe`, `validate_cards` |
| export.dfy | Export | `to_anki_txt_bytes`, the column choice of `to_csv_bytes` |
| study.dfy | Study | the study session |

Where the source loops, the model has a method with a loop, proved equal to a specification function. The properties are proved about that function. Examples: `Extractors.ParseTsvLines`, `Extractors.WalkPairs`, `Chunking.PackUnits`, `Chunking.HardSplitLoop` and `CleanText.CountShortLines`. The study session is a class whose methods update its fields. Its invariant `Valid` says that each counter equals the number of cards with that status.

The candidate split can be empty for a non-empty text. The code returns no unit for whitespace-only text, and none for a text that is a single heading line and its newline. The model follows the code: see `Chunking.BlankGivesNothing` and `Chunking.SeparatorOnlyGivesNothing`.

## Model

| member | source | states |
|---|---|---|
| Text.IsSpace | utils/llm.py:44 | the characters `str.isspace()` accepts, which `str.strip()` removes and `\s` matches: the 29 whitespace code points of Python |
| Text.IsLineBreak | utils/llm.py:53 | the ten line boundaries of `str.splitlines()`; U+001F is whitespace but not a boundary, and `LineBreakIsSpace` proves every boundary is whitespace |
| Text.Strip | utils/llm.py:54 | `str.strip()`: the result has no leading or trailing whitespace, using Python's 29 whitespace code points |
| Text.StrippedFixed | utils/llm.py:54 | stripping a stripped string changes nothing |
| Text.StripEmptyIffAllSpace | utils/llm.py:55 | a stripped line is empty exactly when the line is all whitespace |
| Text.SplitLines | utils/llm.py:53 | `str.splitlines()`: no piece holds any of Python's line boundaries |
| Text.SplitLinesOfJoin | utils/llm.py:53 | lines without boundaries, the last non-empty, joined with "\n" and split again come back unchanged |
| Text.NonBlank | utils/llm.py:96 | `[ln.strip() for ln in lines if ln.strip()]`: no more lines than given, each non-empty and stripped |
| Text.CollapseSpace | utils/llm.py:49 | `re.sub(r'\s+', ' ', s)`: every whitespace is a single plain space, and the result is empty only for empty input |
| Text.CollapseSingleSpaced | utils/llm.py:49 | text already single-spaced is left alone by the whitespace collapse |
| Text.Find | utils/llm.py:137 | `str.find`: -1 iff the pattern is absent, otherwise the first occurrence |
| Text.SplitOnce | utils/llm.py:57 | `split(sep, 1)` with two pieces: the text is before + sep + after and the sep does not occur in before; None iff the sep is absent |
| Text.SplitOnceAt | utils/llm.py:122 | the split is at the first occurrence, wherever it is |
| Text.FindChar | utils/llm.py:137 | `text.find("[")`: -1 iff absent, otherwise the first index |
| Text.RFindChar | utils/llm.py:137 | `text.rfind("]")`: -1 iff absent, otherwise the last index |
| Text.SplitChar | utils/parsing.py:84 | `s.split("\n")`: at least one piece, none holding the separator |
| Text.JoinSplitChar | utils/parsing.py:84-92 | splitting on a character and joining with it gives the text back |
| Text.SplitCharJoin | utils/parsing.py:84-92 | joining pieces free of the character and splitting again gives the pieces back |
| Text.JoinContains | utils/chunking.py:57 | each piece of a `"\n\n".join` occurs in the joined text |
| Prefixes.CleanPiece | utils/llm.py:42-49 | `_clean_piece` gives text with no leading or trailing whitespace, whose only whitespace is single plain spaces |
| Prefixes.IsDecimalDigit | utils/llm.py:40 | `\d` on a str pattern: the ASCII digits and the Unicode 15 decimal digits (general category Nd) above ASCII |
| Prefixes.NumPrefixEnd | utils/llm.py:40 | `_NUM_PREFIX` as the end of its match: a match begins, after whitespace, at a bullet or a digit, and stops at the end or before a character that is not whitespace |
| Prefixes.LabelPrefixEnd | utils/llm.py:38-39 | `_Q_PREFIX` and `_A_PREFIX` as the end of their match: a match is, after whitespace, the letter or the whole word ("q"/"question", "a"/"answer") in any case, then ":" or "-", and stops at the end or before a character that is not whitespace |
| Prefixes.LetterLabelEnd | utils/llm.py:38-39 | a one-letter label such as "Q:" or "a:" is matched together with the whitespace after it |
| Prefixes.CleanRange | utils/llm.py:42-49 | `_clean_piece` of a window of the text: the result is stripped and single-spaced |
| Prefixes.CleanPieceDropSpace | utils/llm.py:44 | leading whitespace makes no difference to `_clean_piece`, because it strips first |
| Prefixes.CleanRangeShorter | utils/llm.py:42-49 | cleaning never lengthens a side |
| Prefixes.CleanRangeFixed | utils/llm.py:42-49 | a clean side that starts with no numbering, bullet or label is returned unchanged |
| Prefixes.CleanRangeOfStripped | utils/llm.py:44-49 | a stripped side whose prefixes end at `e`, leaving a clean rest, cleans to exactly that rest |
| Prefixes.NoPrefixes | utils/llm.py:38-40 | none of the three prefixes matches at a character that is not whitespace, a digit, a bullet, q or a |
| Prefixes.ATeamLosesItsA | utils/llm.py:39 | `_A_PREFIX` also takes "A-": "A-team" cleans to "team" |
| Prefixes.QDashStripped | utils/llm.py:38 | `_Q_PREFIX` also takes "Q-": "Q-why" cleans to "why" |
| Prefixes.YearTakenForNumbering | utils/llm.py:40 | a leading "1990." is taken for list numbering: "1990. was a year" cleans to "was a year" |
| Prefixes.OneNumberingRemoved | utils/llm.py:44 | only one numbering prefix is removed: "1) 2) x" cleans to "2) x" |
| Prefixes.CleanPieceOfSlice | utils/llm.py:42-49 | cleaning a window in place equals `_clean_piece` of the window's copy |
| Prefixes.CleanRangeShift | utils/llm.py:42-49 | cleaning depends only on the characters of the window, not on where it sits |
| Extractors.Accept | utils/llm.py:59-60 | a pair is kept iff both cleaned sides are non-empty, as the card (q, a, 0) |
| Extractors.Gather | utils/llm.py:53-60 | at most one card per line, each the card of some line |
| Extractors.GatherAppend | utils/llm.py:53-60 | lines are handled one at a time in order: the cards of two runs of lines are the cards of the first then of the second |
| Extractors.GatherAll | utils/llm.py:53-60 | when every line yields a card, the extractor gives exactly those cards, in order |
| Extractors.TsvCard | utils/llm.py:54-60 | a TSV line yields only a card with non-empty sides and chunk 0 |
| Extractors.ParseTsv | utils/llm.py:51-61 | every TSV card has non-empty sides and chunk 0; no more cards than lines |
| Extractors.ParseTsvLines | utils/llm.py:51-61 | the loop with its `continue` returns exactly `ParseTsv` |
| Extractors.TsvSkipsLineWithoutTab | utils/llm.py:55-56 | a line without a tab yields nothing |
| Extractors.TsvSplitsAtFirstTab | utils/llm.py:57-58 | the question is everything before the first tab and the answer everything after it, each cleaned |
| Extractors.TabCollapsed | utils/llm.py:49 | a further tab in the answer is whitespace and becomes a space: "b\tc" cleans to "b c" |
| Extractors.LabelledSplit | utils/llm.py:72-76 | the one-line split at the first ":" and the answer marker yields only a card with non-empty sides and chunk 0 |
| Extractors.OneLineCard | utils/llm.py:67-88 | any card a one-line Q/A line yields has non-empty sides and chunk 0; `OneLineShape` says which card |
| Extractors.OneLineShape | utils/llm.py:70-76 | a line that strips to `"Q:" + q + " A:" + a`, with no ":" in q, yields the card of the cleaned q and a exactly when both are non-empty |
| Extractors.ParseOneLine | utils/llm.py:63-89 | every one-line card has non-empty sides and chunk 0; no more cards than lines; `Robust.OneLineOnly` gives the cards of a well-formed line |
| Extractors.ParseQAOneLine | utils/llm.py:63-89 | the loop returns exactly `ParseOneLine` |
| Extractors.OneLineNeedsQuestionLabel | utils/llm.py:70-79 | a line that does not start with "q:" or "question:" in any case yields nothing |
| Extractors.OneLineAnswerLabelIsCaseSensitive | utils/llm.py:70-79 | without " A:" or " Answer:" in exactly that case the line yields nothing |
| Extractors.PairCard | utils/llm.py:101-104 | any card a Q/A line pair yields has non-empty sides and chunk 0; `PairShape` says which card |
| Extractors.PairShape | utils/llm.py:100-104 | a line `"Q:" + q` followed by a line `"A:" + a` is a matched pair, and yields the card of the cleaned q and a exactly when both are non-empty |
| Extractors.PairWalk | utils/llm.py:98-107 | the walk from index i yields at most (lines left) / 2 cards |
| Extractors.PairWalkEmitted | utils/llm.py:103-104 | every card of the walk has non-empty sides and chunk 0 |
| Extractors.ParseTwoLines | utils/llm.py:91-108 | every two-line card has non-empty sides and chunk 0; at most half as many cards as non-blank lines; `PairShape` gives the card of each matched pair |
| Extractors.ParseQATwoLines | utils/llm.py:91-108 | the function computes exactly `ParseTwoLines` |
| Extractors.WalkPairs | utils/llm.py:97-107 | the `while` loop advancing by 2 after a matched pair and by 1 otherwise computes exactly the walk |
| Extractors.RejectedPairStillConsumed | utils/llm.py:100-105 | a matched pair rejected as empty still consumes both lines, so the line after it is never paired with the answer line |
| Extractors.QuestionThenEmptyAnswer | utils/llm.py:100-104 | "Q: x" followed by "A:" is a matched pair that yields no card |
| Extractors.EmptyAnswerRejected | utils/llm.py:102-104 | an answer line that is only its label yields no card |
| Extractors.CleanLabelled | utils/llm.py:123-127 | a side after the optional second `_clean_piece` is still clean |
| Extractors.SplitAtSeparator | utils/llm.py:120-130 | the separator loop yields only a card with non-empty sides and chunk 0 |
| Extractors.NumberedCard | utils/llm.py:114-130 | any card a numbered line yields has non-empty sides and chunk 0; `NumberedShape` says which card |
| Extractors.NumberedShape | utils/llm.py:113-130 | a line that strips to `n + ") " + q + " - " + a`, with n decimal digits and no "-" in q, yields the card of the two sides cleaned, labels and all, exactly when both are non-empty |
| Extractors.ParseNumbered | utils/llm.py:110-131 | every numbered card has non-empty sides and chunk 0; at most one card per line; `Robust.NumberedLineOnly` gives the cards of a well-formed line |
| Extractors.SplitLine | utils/llm.py:120-130 | the inner `for sep … break` loop computes exactly the separator choice |
| Extractors.ParseNumberedPairs | utils/llm.py:110-131 | the loop returns exactly `ParseNumbered` |
| Extractors.NumberedSeparatorByListOrder | utils/llm.py:120-122 | the separator is chosen by list order, not position: "x : y - z" splits at " - " into ("x : y", "z") |
| Extractors.JsonItemCard | utils/llm.py:148-153 | an item that is not a dict yields nothing; any card has non-empty sides and chunk 0; `JsonItemShape` says which card a dict yields |
| Extractors.JsonItemShape | utils/llm.py:149-153 | a dict whose "question" and "answer" are strings q and a yields the card of the cleaned q and a exactly when both are non-empty |
| Extractors.JsonPayload | utils/llm.py:134-144 | the decoded reply when it decodes; otherwise nothing when "[" or "]" is missing; otherwise the decoding of the text from the first "[" to the last "]" when the "[" comes first, and nothing when it does not |
| Extractors.ParseJson | utils/llm.py:133-154 | every JSON card has non-empty sides and chunk 0; `JsonListShape` gives the cards of a list of dicts |
| Extractors.JsonListShape | utils/llm.py:133-154 | a reply that decodes to a list of dicts, each with string sides that clean to non-empty text, yields one card per dict, in order, with the cleaned sides |
| Extractors.FirstAtUnique | utils/llm.py:137 | the first "[" is one position |
| Extractors.LastAtUnique | utils/llm.py:137 | the last "]" is one position |
| Extractors.LoadPayload | utils/llm.py:134-144 | the `try`/`except` computes exactly `JsonPayload` |
| Extractors.ParseJsonList | utils/llm.py:133-154 | the function computes exactly `ParseJson` |
| Extractors.ItemCard | utils/llm.py:149-153 | the loop body computes exactly the item's card |
| Robust.FirstNonEmpty | utils/llm.py:165-169 | `[]` iff every result is empty; otherwise the result at some index, with every earlier result empty |
| Robust.ParseAny | utils/llm.py:156-169 | every card has non-empty sides and chunk 0 |
| Robust.FirstFound | utils/llm.py:165-169 | the loop with its early return computes exactly the first non-empty result |
| Robust.RobustParseAny | utils/llm.py:156-169 | the method computes exactly `ParseAny` |
| Robust.FirstNonEmptyAt | utils/llm.py:165-168 | the first non-empty result is the one at the first index with a non-empty result |
| Robust.TsvWins | utils/llm.py:158-168 | a reply with TSV cards is read as TSV only |
| Robust.JsonLast | utils/llm.py:158-168 | the JSON extractor decides only when the four line formats find nothing |
| Robust.NeverMerged | utils/llm.py:156-169 | the result is all-empty `[]` or exactly one extractor's output, with every earlier extractor empty |
| Robust.SecondDecides | utils/llm.py:158-168 | with no TSV card, a reply with one-line cards is read by the one-line extractor |
| Robust.FourthDecides | utils/llm.py:158-168 | when only the numbered extractor finds cards, they are the result |
| Robust.OneLineOnly | utils/llm.py:51-89 | a stripped line `"Q:" + q + " A:" + a` without a tab has no TSV card and exactly one one-line card, the cleaned q and a |
| Robust.NumberedLineOnly | utils/llm.py:51-131 | a stripped line `"1) " + q + " - " + a` whose sides are already clean has no card in the first three formats and exactly the card (q, a, 0) in the numbered one |
| Robust.OneLineExample | utils/llm.py:63-89 | "Q: What is 2+2? A: 4" parses to exactly the card ("What is 2+2?", "4", 0) |
| Robust.NumberedExample | utils/llm.py:110-131 | "1) Photosynthesis - converts light to energy" parses to exactly the card ("Photosynthesis", "converts light to energy", 0) |
| Sampling.RoundHalfEven | utils/llm.py:182 | `round(n / d)`: within half of the quotient, and even on a tie |
| Sampling.RoundMonotone | utils/llm.py:182 | rounding is monotone |
| Sampling.RoundExact | utils/llm.py:182 | an exact quotient rounds to itself |
| Sampling.SliceLen | utils/llm.py:179 | `max_chars // slices` windows fit in `max_chars` together |
| Sampling.SliceStart | utils/llm.py:182 | `round(i * (len - slice_len) / max(1, slices - 1))`: within half a unit of the exact quotient |
| Sampling.SliceStartBounds | utils/llm.py:182 | every window lies inside the text; the first starts at 0; with two or more windows the last ends at the end |
| Sampling.SliceStartMonotone | utils/llm.py:182 | window offsets never decrease |
| Sampling.Window | utils/llm.py:183 | each window has length `slice_len` |
| Sampling.Windows | utils/llm.py:181-183 | exactly `slices` windows, each of length `slice_len` |
| Sampling.CompressCorpus | utils/llm.py:175-184 | the loop collecting `segs`, then the join, computes exactly `Compress` |
| Sampling.Compress | utils/llm.py:175-184 | the text itself within budget; otherwise exactly `slices` windows of `slice_len` characters and `slices - 1` separators, never more than `max_chars` plus the separators |
| Sampling.CompressEnds | utils/llm.py:179-184 | the output starts with the text's first `slice_len` characters and, with two or more windows, ends with its last ones |
| Sampling.WindowsInOrder | utils/llm.py:181-184 | window i is the `slice_len` characters at its offset, and a later window never starts earlier |
| Generate.Take | utils/llm.py:219 | `xs[:n]` is a prefix of `xs` of length n clamped to the list, or `len + n` for negative n |
| Generate.Threshold | utils/llm.py:218 | `max(1, n_total // 2)` |
| Generate.Corpus | utils/llm.py:202-204 | the sampled corpus, followed by the focus line exactly when topics are given |
| Generate.Reply | utils/llm.py:215 | `resp.choices[0].message.content or ""`: the reply of the injected chat call, or "" when it has no content |
| Generate.GenerateTurbo | utils/llm.py:190-232 | at most `n_total` cards, each with non-empty sides and chunk 0, after one or two calls |
| Generate.AcceptIff | utils/llm.py:217-219 | a single call is made iff the first parse has at least the threshold; then its cards, cut to `n_total`, are returned |
| Generate.RetryOnce | utils/llm.py:221-232 | otherwise exactly one more call is made, with the reminder appended, and its cards cut to `n_total` are returned whatever their number |
| Generate.EmptyReplyRetries | utils/llm.py:215-221 | a reply with no content always forces the retry |
| Generate.NothingFromEmpty | utils/llm.py:215-217 | no extractor finds a card in an empty reply |
| Chunking.EstimateTokens | utils/chunking.py:20-22 | the number of tokens the encoder gives |
| Chunking.EstimateEmpty | utils/chunking.py:20-22 | the empty text has no tokens |
| Chunking.IsHeading | utils/chunking.py:27 | the first alternative of the section pattern, `#{1,6} .*`: one to six "#" then a space |
| Chunking.IsCapsLine | utils/chunking.py:27 | the second alternative, `[A-Z0-9][A-Z0-9 \-]{6,}`: an upper-case letter or digit, then at least six upper-case letters, digits, spaces or dashes, taking up the whole line |
| Chunking.IsSeparatorLine | utils/chunking.py:27 | a line matching either alternative |
| Chunking.SectionPieces | utils/chunking.py:27 | the heading/all-caps split always has a piece; `SectionPiecesRejoin` rebuilds the text from the pieces |
| Chunking.SectionSeps | utils/chunking.py:27 | one removed separator per separator line with a newline after it |
| Chunking.SectionSepsShape | utils/chunking.py:27 | each removed separator is a heading or all-caps line followed by its newline |
| Chunking.SectionPiecesRejoin | utils/chunking.py:27 | the pieces interleaved with the removed separator lines give back the lines joined by "\n" |
| Chunking.SectionsRejoin | utils/chunking.py:27 | the pieces interleaved with the removed separator lines give back the text |
| Chunking.SectionPiecesCount | utils/chunking.py:27-28 | one piece more than there are separator lines with a newline after them |
| Chunking.SectionPiecesWhole | utils/chunking.py:27-28 | without a separator the whole text is the one piece |
| Chunking.Paragraphs | utils/chunking.py:31 | `re.split(r"\n\n+")`: no piece contains "\n\n"; `ParagraphsRejoin` rebuilds the text from the pieces |
| Chunking.ParagraphsRejoin | utils/chunking.py:31 | the pieces interleaved with the removed runs give back the text, and the first piece begins it |
| Chunking.ParagraphBreaksShape | utils/chunking.py:31 | each removed run is two or more newlines |
| Chunking.ParagraphsStartMaximal | utils/chunking.py:31 | no piece after the first starts with a newline, so each run is removed whole |
| Chunking.ParagraphsEndMaximal | utils/chunking.py:31 | no piece before the last ends with a newline |
| Chunking.FindBreak | utils/chunking.py:35 | the first sentence break at or after i, or -1 when there is none |
| Chunking.Sentences | utils/chunking.py:35 | no piece contains a sentence break; `SentencesRejoin` rebuilds the text from the pieces |
| Chunking.SentencesRejoin | utils/chunking.py:35 | the pieces interleaved with the removed whitespace runs give back the text, and the first piece begins it |
| Chunking.SentenceBreaksShape | utils/chunking.py:35 | each removed run is non-empty whitespace, and each piece before the last ends with ".", "!" or "?" |
| Chunking.SentencesStartMaximal | utils/chunking.py:35 | no piece after the first starts with whitespace, so each run is removed whole |
| Chunking.SplitCandidates | utils/chunking.py:25-36 | every unit is non-empty and stripped; `TierChoice` says which tier the units come from |
| Chunking.TierChoice | utils/chunking.py:27-36 | tier 1 decides iff some separator line has a newline after it, counted before empty pieces are dropped; otherwise paragraphs decide when there are two or more; otherwise sentences |
| Chunking.SeparatorOnlyGivesNothing | utils/chunking.py:27-29 | one heading line and its newline yield no unit at all |
| Chunking.BlankGivesNothing | utils/chunking.py:25-36 | empty or whitespace-only text yields no unit |
| Chunking.PrefixUpTo | utils/chunking.py:73 | `toks[:target_tokens]`: the first `target_tokens` tokens, or all of them when there are fewer |
| Chunking.SuffixFrom | utils/chunking.py:63 | `toks[n:]` for `n >= 0`: the tokens from position n on, or none when n is past the end |
| Chunking.Restart | utils/chunking.py:59-68 | after a flush: `[overlap, unit]` when a chunk exists, else `[unit]`, with the count kept exact; the overlap is the decoding of the last `overlap_tokens` tokens of the last chunk (all of them when it has fewer, none when `overlap_tokens <= 0`), and under the tokenizer laws it has that many tokens |
| Chunking.SplitShrinks | utils/chunking.py:72-77 | one hard-split round shortens a single-string accumulator, so the loop terminates |
| Chunking.HardSplit | utils/chunking.py:71-77 | the loop ends within `target_tokens * 1.3`, only appends, and emits chunks of at most `target_tokens` tokens; an accumulator already in bounds is untouched; one that is not ends as a single string |
| Chunking.HardSplitFires | utils/chunking.py:71-77 | one round emits the decoding of the first `target_tokens` tokens and restarts from the decoding of the tokens from `target_tokens - overlap_tokens` on; when that rest is in bounds the loop stops there |
| Chunking.Place | utils/chunking.py:51-77 | a unit that fits is appended to the current chunk with its tokens added; in every case the count stays exact and within bounds, the current chunk is non-empty, and the earlier chunks are kept |
| Chunking.Pack | utils/chunking.py:50-77 | after the loop the count is exact and within bounds, and the current chunk is empty exactly when there were no units |
| Chunking.PackAllFit | utils/chunking.py:50-54 | if all units fit together, no chunk is flushed and all units accumulate in order |
| Chunking.ChunkAllFit | utils/chunking.py:50-80 | if all units fit together, the result is one chunk: the units joined by "\n\n" (none for no units) |
| Chunking.ChunkBlank | utils/chunking.py:79-82 | whitespace-only text gives no chunk |
| Chunking.PackGrows | utils/chunking.py:50-77 | one loop step keeps the chunks finished so far |
| Chunking.ChunksAppendOnly | utils/chunking.py:50-77 | the chunks after any prefix of the units begin the chunks after all of them |
| Chunking.ChunksAppendOnlyResult | utils/chunking.py:46-82 | those chunks also begin the result of `chunk_text` |
| Chunking.OverflowFlushes | utils/chunking.py:55-68 | on overflow a non-empty accumulator becomes the next chunk, and a restart within bounds is kept as it is |
| Chunking.PackStep | utils/chunking.py:50-51 | one more unit is one more loop step |
| Chunking.ChunkTextLoop | utils/chunking.py:39-82 | the method computes exactly `ChunkText` |
| Chunking.ChunkText | utils/chunking.py:39-82 | `chunk_text` gives no chunk exactly when there is no unit |
| Chunking.Finish | utils/chunking.py:79-80 | the final `if cur:` flush: the current chunk, joined by blank lines, is appended when it is non-empty |
| Chunking.HardSplitSized | utils/chunking.py:71-77 | the hard split emits only parts of at most `target_tokens` tokens, and keeps the chunks before them |
| Chunking.PlaceSized | utils/chunking.py:50-77 | a loop step finishes only chunks that are a hard-split part of at most `target_tokens` tokens or a join of units counted at most `target_tokens * 1.3` tokens |
| Chunking.PackSized | utils/chunking.py:50-77 | after the loop every finished chunk is sized that way |
| Chunking.FinishSized | utils/chunking.py:79-80 | the chunk flushed after the loop is sized that way too |
| Chunking.ChunksSized | utils/chunking.py:39-82 | "pack chunks up to ~target tokens": every chunk `chunk_text` returns is a hard-split part of at most `target_tokens` tokens, or units joined by blank lines whose token counts add up to at most `target_tokens * 1.3` |
| Chunking.PlaceKeeps | utils/chunking.py:50-77 | a unit that needs no hard split is kept by its step, and a unit already kept stays kept |
| Chunking.PackKeeps | utils/chunking.py:50-77 | after the loop every unit is in a finished chunk or in the current one, when no unit needs a hard split |
| Chunking.NoUnitDropped | utils/chunking.py:39-82 | every unit occurs in some chunk of the result, when no unit needs a hard split |
| Chunking.PackUnits | utils/chunking.py:46-77 | the `for` loop with its nested hard split ends in exactly the state `Pack` describes |
| Chunking.StartAfterFlush | utils/chunking.py:59-68 | the restart code computes exactly `Restart` |
| Chunking.HardSplitLoop | utils/chunking.py:71-77 | the `while` loop computes exactly `HardSplit` |
| CleanText.ReplaceCrLf | utils/parsing.py:76 | `replace("\r\n", "\n")` adds no character and never lengthens the text; `ReplaceCrLfFirst` says what it does |
| CleanText.ReplaceCrLfFirst | utils/parsing.py:76 | the text before the first "\r\n" is kept, the "\r\n" becomes one "\n", and the rest is rewritten the same way; a text without "\r\n" is kept |
| CleanText.MapChar | utils/parsing.py:76-78 | each occurrence of one character is replaced by another; nothing else changes |
| CleanText.SqueezeBlanks | utils/parsing.py:79 | no two adjacent spaces remain and the text never lengthens; `SqueezeRunBetween` and `SqueezeAppend` say what it does |
| CleanText.SqueezeKeepsChars | utils/parsing.py:79 | no tab remains, and no character but the space is brought in |
| CleanText.SqueezeRun | utils/parsing.py:79 | a whole run of spaces and tabs becomes exactly one space |
| CleanText.SqueezeAppend | utils/parsing.py:79 | text is squeezed piece by piece when the cut is not inside a run of spaces and tabs |
| CleanText.SqueezeRunBetween | utils/parsing.py:79 | a maximal run of spaces and tabs becomes exactly one space, and the text on each side is squeezed on its own |
| CleanText.SqueezeFixed | utils/parsing.py:79 | text without tabs or double spaces is kept as it is |
| CleanText.CollapseNewlines | utils/parsing.py:81 | empty only for empty text, never longer, and starting with the same character; `CollapseRunBetween` and `CollapseNoTriple` say what it does |
| CleanText.CollapseKeepsChars | utils/parsing.py:81 | no character is brought in |
| CleanText.CollapseNoTriple | utils/parsing.py:81 | no run of three newlines remains |
| CleanText.CollapseRun | utils/parsing.py:81 | a whole run of newlines becomes "\n\n" when it is three or more long, and stays as it is otherwise |
| CleanText.CollapseAppend | utils/parsing.py:81 | text is collapsed piece by piece when the cut is not inside a run of newlines |
| CleanText.CollapseRunBetween | utils/parsing.py:81 | a maximal run of three or more newlines becomes exactly "\n\n", and the text on each side is collapsed on its own |
| CleanText.CollapseFixed | utils/parsing.py:81 | text without three newlines in a row is kept as it is |
| CleanText.CollapseKeepsSingleSpaces | utils/parsing.py:79-81 | collapsing newlines creates no double space |
| CleanText.Normalize | utils/parsing.py:76-81 | the four rewrites never lengthen the text; `NormalizeTidy` says what they leave out |
| CleanText.NormalizeTidy | utils/parsing.py:76-81 | after the rewrites: no "\r", no tab, no two adjacent spaces, no non-breaking space, no run of three newlines |
| CleanText.NormalizeFixed | utils/parsing.py:76-81 | text already in that form is left alone |
| CleanText.NormalizeIdempotent | utils/parsing.py:76-81 | running the rewrites twice is the same as once |
| CleanText.StrippedLines | utils/parsing.py:84 | every line is stripped and holds no newline |
| CleanText.StrippedLinesOfJoin | utils/parsing.py:84-92 | stripped lines joined with "\n" split back into themselves |
| CleanText.Frequencies | utils/parsing.py:85-88 | `freq` has exactly the short non-empty lines as keys |
| CleanText.FrequenciesStep | utils/parsing.py:86-88 | one more line adds one to its count when it is short, and changes nothing otherwise |
| CleanText.CountShortLines | utils/parsing.py:85-88 | the loop computes exactly `Frequencies`: each short line mapped to its number of occurrences |
| CleanText.Repeated | utils/parsing.py:89 | exactly the lines of length 1..60 that occur at least three times |
| CleanText.KeepCounts | utils/parsing.py:90-91 | the filter removes every occurrence of a repeated line and keeps every other line as often as before; every kept line is a line of the input |
| CleanText.Keep | utils/parsing.py:91 | the list comprehension never lengthens the list; `KeepAppend` and `KeepCounts` say what it keeps |
| CleanText.KeptLines | utils/parsing.py:84-91 | the stripped lines, filtered through `Keep` only when some line is repeated |
| CleanText.KeepAppend | utils/parsing.py:91 | the filter goes line by line, in order: the lines kept from two lists are those kept from the first then from the second; a line is kept exactly when it is not repeated |
| CleanText.KeepNothing | utils/parsing.py:90-91 | with no repeated line every line is kept, so the `if repeated` test changes nothing |
| CleanText.Clean | utils/parsing.py:74-94 | `clean_text`: the result is stripped |
| CleanText.CleanTextLoop | utils/parsing.py:74-94 | the method computes exactly `Clean` |
| CleanText.CleanIsTidy | utils/parsing.py:74-94 | the result has no "\r", tab or double space, is stripped, and every kept line is stripped |
| CleanText.FilterRemovesRepeated | utils/parsing.py:84-91 | the kept lines are exactly the filter over the stripped lines, in order; a short line seen three times is removed everywhere; every other line keeps its count |
| CleanText.EmptyAndLongLinesKept | utils/parsing.py:87 | empty lines and lines over 60 characters are never removed |
| CleanText.FilterCanJoinBlankLines | utils/parsing.py:81-92 | filtering can recreate a run of three newlines: "a\n\nH\nH\nH\n\nb" cleans to "a\n\n\nb" |
| Formatting.AllKeys | utils/formatting.py:11 | the columns of the frame are exactly the keys some record has |
| Formatting.Project | utils/formatting.py:15 | a row reduced to the three card columns, missing cells read as missing |
| Formatting.CardsToFrame | utils/formatting.py:10-16 | no records, or no keys, give the empty three-column table; a missing column is the KeyError; otherwise the rows in order, projected |
| Formatting.CardsFrame | utils/formatting.py:10-16 | generated cards become a table with one row per card, in order, holding its question, answer and chunk |
| Formatting.ColumnMax | utils/formatting.py:23-24 | `.fillna("").str.len().max()`: none iff no cell has a length; otherwise a length some cell has, and no cell is longer |
| Formatting.MaxOverLimit | utils/formatting.py:23-28 | the maximum exceeds the limit exactly when some text cell does |
| Formatting.AnyEmpty | utils/formatting.py:29 | true iff some question or answer cell is missing or "" |
| Formatting.ValidateCards | utils/formatting.py:19-31 | the four checks in order, each with its message; a frame with no rows or no columns (`df.empty`) is "no cards to show yet"; ok exactly when the frame is not empty, no question is over 600, no answer is over 1500 and no cell is empty |
| Formatting.RowsWithoutColumns | utils/formatting.py:20-21 | a frame with rows but no columns is empty for `df.empty`, so it gets "no cards to show yet" and never reaches a column lookup |
| Formatting.LimitsAreStrict | utils/formatting.py:25-28 | questions of exactly 600 and answers of exactly 1500 characters pass |
| Export.NatDigits | utils/export.py:19 | decimal digits of a whole number |
| Export.AnkiLine | utils/export.py:19 | `f"{q}\t{a}"` contains a tab |
| Export.Show | utils/export.py:19 | a text cell prints as itself; a number prints as an optional "-" for a negative number followed by decimal digits |
| Export.AnkiText | utils/export.py:17-21 | the text is empty exactly when there are no rows |
| Export.JoinEmpty | utils/export.py:20 | a join of lines that each hold a tab is empty only for no lines |
| Export.AnkiIgnoresOtherColumns | utils/export.py:18-19 | two tables that agree on question and answer export the same text |
| Export.AnkiRoundTrip | utils/export.py:17-21 | reading the Anki text back with the TSV extractor gives each row's question and answer in order, with chunk 0, when each side is portable |
| Export.LineRoundTrip | utils/export.py:19 | one line `q + "\t" + a` reads back as the card (q, a, 0) |
| Export.CsvColumns | utils/export.py:12 | the exported table has the columns front and back only, one row per row |
| Export.Pick | utils/export.py:12 | a row reduced to front and back, read from the chosen columns |
| Export.CsvColumnChoice | utils/export.py:12 | front/back when both exist, otherwise question/answer renamed, otherwise the KeyError |
| Study.StatusOf | app.py:223 | `status.get(idx, "new")`: the recorded status of a card, or New when it has none |
| Study.Range | app.py:91 | `list(range(n))` |
| Study.CountUpdate | app.py:251-271 | setting one card's status moves it from one count to another and leaves the other counts alone |
| Study.Rotate | app.py:273 | `order.append(order.pop(i))`: same length and same cards; the card at i goes last; the cards before i stay; those after move up one |
| Study.RotateBringsNext | app.py:273-275 | after a rotation the next card is at the same position |
| Study.RotateLast | app.py:273 | rotating the last card leaves the order as it was |
| Study.CountsBounded | app.py:249-271 | when only the cards of a deck of n have a status, the two counters together never exceed n |
| Study.Session.constructor | app.py:72-86 | the session defaults, with the counters equal to the counts |
| Study.Session.Valid | app.py:88-100 | the invariant of the session state: the position is within the deck, the deck is an order of its cards, only its cards have a status, each counter is the number of cards with its status; so the counters together never exceed the deck |
| Study.Session.Complete | app.py:204 | the deck is complete when the position has reached the end of the order |
| Study.Session.Reset | app.py:88-100 | order the identity or the given shuffle; position, counters and last card cleared; every card "new"; the invariant holds |
| Study.Session.Display | app.py:198-216 | an empty order is reset with a shuffle and the answer hidden; on a complete deck nothing changes; otherwise the shown card becomes the last card, its answer hidden if it is a different card, its status "new" if it had none |
| Study.Session.Flip | app.py:204-216 | the deck-complete test and the card-change reset of the answer, keeping the invariant |
| Study.Session.Prev | app.py:241-242 | the position goes back one, never below 0 |
| Study.Session.ShowAnswer | app.py:245-246 | the answer is shown |
| Study.Session.MarkCorrect | app.py:249-259 | no effect unless the answer is shown; otherwise status "correct", the correct counter +1 only if it was not correct, the review counter -1 if it was in review (the clamp never acts), and the position +1 |
| Study.Session.MarkReview | app.py:262-274 | no effect unless the answer is shown; otherwise status "review", the review counter +1 only if it was not in review, the correct counter -1 if it was correct, the card moved to the end, and the position kept |

## Left out

- The OpenAI client, environment variables, the prompt templates and `max_tokens` (`utils/llm.py:18-32`, `198-215`, `222-230`). They are network I/O. The chat call is the injected `ask`, and the prompt template is the injected `render`.
- `json.loads` is a foreign parser. It is the injected `loads`, a partial function to a JSON value. `Generate.EmptyReplyRetries` takes as a premise that it rejects "".
- `str()` of a decoded list or dict is the injected `reprOf`.
- The tiktoken encoder (`utils/chunking.py:12-17`) is a foreign library. It is an abstract pair `encode`/`decode` with two laws: "" has no tokens, and re-encoding a decoding gives as many tokens. These laws are an idealisation: real tiktoken does not guarantee the second one, because a decoded slice that cuts a multi-byte character can re-encode to a different number of tokens. The token bounds of `HardSplit`, `Restart` and `ChunksSized` depend on the second law.
- Chunking.ChunkText: requires `0 <= target_tokens` and `overlap_tokens < target_tokens`. The code checks neither, and without them the hard-split loop need not end.
- Chunking.NoUnitDropped: is stated only when no unit needs the hard split. A unit cut by the hard split is kept as its decoded pieces, which need not contain it.
- Chunking.PackKeeps: the same condition as `NoUnitDropped`.
- Chunking.HardSplit: the float test `cur_tok > target_tokens * 1.3` is stated in integers as `10 * cur_tok > 13 * target_tokens`.
- Sampling.RoundHalfEven: rounds the exact rational quotient. Python rounds a float quotient, and the model does not follow floating-point error.
- Sampling.Compress: requires `slices >= 1`. With 0 slices the code divides by zero.
- Generate.GenerateTurbo: `topics=None` is the empty list. Both skip the focus line.
- `random.shuffle` (`app.py:93`) is the `shuffled` argument of `Study.Session.Reset`, any permutation of the cards.
- The Streamlit UI (widgets, CSS, `st.rerun`, uploads, downloads) and `read_file` with its PDF, DOCX and PPTX readers (`utils/parsing.py:14-71`) are I/O.
- pandas DataFrame construction, CSV quoting and UTF-8 encoding are library behaviour. Tables are sequences of rows, and outputs are strings.
- Formatting.ColumnMax: a column made only of numbers has no `.str` accessor in pandas and raises. The model skips numbers as NaN and does not model that error.
- Formatting.ValidateCards: requires the question and answer columns of a frame that is not empty, that is one with rows and columns. Without them the code raises a KeyError. A frame with no rows or no columns is answered "no cards to show yet" before any column is read.
- Export.AnkiText: requires the question and answer columns, for the same reason.
- Export.Show: a missing cell prints as `None`. A pandas NaN would print as `nan`, and the model does not tell the two apart.
- Study.Session.Prev, ShowAnswer, MarkCorrect and MarkReview: require a displayed card, that is, an incomplete deck. The buttons exist only then (`app.py:204-206`).
- Study.Session.Valid: assumes that the order covers exactly the cards of the table. Regenerating cards without a reset can leave a stale order, which the model does not cover.
