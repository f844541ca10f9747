# Text segmentation and crossfade command model

This project models the text side of a batch text-to-speech tool, written in Dafny.

The tool reads a text and prepares it in steps:
- It strips `N→` line-number prefixes and joins the lines (`preprocess_text`).
- It cuts the text into sentences or clauses (`split_sentences`).
- In sentence mode it rebalances the pieces so that neighbouring short pieces share one request (`balance_segments`). Both the splitting and the balancing use a token estimate (`count_tokens`).
- It names each piece's audio file `<basename>_<index:05d>` (`generate_utt_id`).
- It builds the ffmpeg command that joins the audio files with chained `acrossfade` filters (`concat_wavs_with_crossfade`).

The project has eight modules:
- `Text` holds the string primitives the Python code gets from `str` and `re`: whitespace, `strip`, `split`, `join`, and deleting a character class.
- `Tokens` is `count_tokens`.
- `Balance` is `balance_segments`.
- `Segmenter` is `split_sentences`.
- `Preprocess` is `preprocess_text`.
- `Decimal` covers the decimal text of integers.
- `Utterance` is `generate_utt_id`.
- `Crossfade` is the command construction of `concat_wavs_with_crossfade`.

The functions with loops are methods with loop invariants: `BalanceSegments` (split into `GreedyPass` and `FixTail`), `SplitSentencesLoop`, `Preprocess` and `ConcatWithCrossfade` (with `CollectInputArgs` and `ChainFilters`). Each method is proved equal to a specification function. The properties are proved about those functions.

The code in `preprocessing.py` is an older variant than the one the repository's tests and documentation describe. It has no `min_tokens` parameter and no `ensure_max_tokens`, `force_split_by_char` or `strip_punctuation`, and it enforces no hard token ceiling. The model follows the code.

`SplitSentences` uses the ideograph-gap substitution as written (`BreakCjkSpaces`), so its pieces are the ones the code produces. The substitution the comment above it describes is defined separately as `BreakAllCjkSpaces`, and the difference between the two is recorded under "## Findings".

## Model

| member | source | states |
|---|---|---|
| Text.ConcatAppend | preprocessing.py:59 | `"".join` (`Text.Concat`) of `a + b` is the join of `a` followed by the join of `b`; with `ConcatSingle` (the join of one part is that part) this determines every join |
| Text.Join | preprocessing.py:18 | `sep.join` (also main.py:239) starts with the first part; `JoinSplitOn` shows that joining the pieces of a split with the separator gives back the text |
| Text.Strip | preprocessing.py:143 | `str.strip()` is the slice of the text that starts after its leading whitespace run; only whitespace follows the slice, and the slice neither starts nor ends with whitespace |
| Text.SplitOn | preprocessing.py:139 | `split` gives at least one piece, and each piece holds only characters of the text that are not separators |
| Text.JoinSplitOn | preprocessing.py:139 | joining the pieces of `split(sep)` with `sep` gives back the text |
| Text.SplitOnAt | preprocessing.py:139 | when the first separator is at position n, the first piece is the text before it and the rest are the pieces of the text after it |
| Text.SplitOnNone | preprocessing.py:148 | a text without separators is a single piece |
| Tokens.CountTokens | preprocessing.py:27-35 | the count is the number of U+4E00..U+9FFF characters plus 3/2 of the number of maximal ASCII-letter runs, truncated, and never less than the ideograph count |
| Tokens.CjkCount | preprocessing.py:33 | the number of U+4E00..U+9FFF characters never exceeds the length of the text; `CjkCountAppend` gives its additivity |
| Tokens.LetterRuns | preprocessing.py:34 | the scan that `re.findall("[a-zA-Z]+")` performs finds at most (n+1)/2 runs in a text of length n, and at most n/2 when the text starts with a non-letter, since runs are separated; `LetterRunsAreRunStarts` gives it an independent definition |
| Tokens.LetterRunsAreRunStarts | preprocessing.py:34 | the run count equals the number of positions where a letter follows a non-letter or the start, i.e. what `re.findall("[a-zA-Z]+")` counts |
| Tokens.LetterRunsAppend | preprocessing.py:34 | runs of a concatenation add up, less one when a run crosses the seam |
| Tokens.CjkCountAppend | preprocessing.py:33 | ideograph counts add up over concatenation |
| Tokens.TokenSum | preprocessing.py:54-55 | `sum(token_counts)`: no part counts more than the sum; `TokenSumAppend` shows it is additive, and `TokensOfConcat` bounds the count of the joined text by it |
| Tokens.TokensOfConcat | preprocessing.py:27-35 | the count of a concatenation is at most the sum of the parts' counts plus half the number of parts |
| Tokens.CountTokensChinese | test_preprocessing.py:24 | "你好" counts 2 |
| Tokens.CountTokensFiveIdeographs | test_preprocessing.py:25 | "一二三四五" counts 5 |
| Tokens.CountTokensOneWord | preprocessing.py:34-35 | a single ASCII word counts int(1 * 1.5) = 1 |
| Tokens.CountTokensHello | test_preprocessing.py:29 | "hello" counts 1 |
| Tokens.CountTokensTwoWords | test_preprocessing.py:27-30 | two ASCII words separated by a space count 3 |
| Tokens.CountTokensHelloWorld | test_preprocessing.py:30 | "hello world" counts 3 |
| Tokens.CountTokensMixed | test_preprocessing.py:32-35 | "你好world" counts 3 |
| Balance.BalanceSegments | preprocessing.py:38-98 | the result equals the specification `Balance`; 0 or 1 segments come back unchanged; a summed count within the budget gives the one concatenation; the concatenated content is unchanged |
| Balance.Balance | preprocessing.py:38-98 | the specification `BalanceSegments` is proved equal to: it introduces no empty chunk when the input has none |
| Balance.Step | preprocessing.py:66-74 | one turn of the greedy loop consumes the segment: the closed groups and the filling group, flattened, grow by exactly that segment |
| Balance.Fold | preprocessing.py:62-74 | the greedy loop after a list of segments: its closed groups and filling group, flattened, are that list |
| Balance.Groups | preprocessing.py:62-77 | the groups of the greedy pass, flattened, are the input segments |
| Balance.Chunks | preprocessing.py:71-77 | the chunks the pass appends to `merged`: at most one per group, and never an empty one (the `if current_segment` tests) |
| Balance.GreedyMerge | preprocessing.py:62-77 | the specification `GreedyPass` is proved equal to: `merged` after line 77 holds no empty chunk |
| Balance.TailFix | preprocessing.py:80-96 | the specification `FixTail` is proved equal to: it removes at most one chunk and introduces no empty chunk |
| Balance.TailFixContent | preprocessing.py:87-92 | the fix-up keeps the concatenated text |
| Balance.GreedyPass | preprocessing.py:62-77 | the loop with the running segment and token sum builds exactly the greedy chunks |
| Balance.FixTail | preprocessing.py:80-96 | the tail fix-up equals `TailFix` and keeps the concatenated content |
| Balance.FoldStep | preprocessing.py:66-74 | one loop turn on a one-longer prefix is one step of the fold |
| Balance.GreedyGroupsSpec | preprocessing.py:62-77 | the greedy chunks are the concatenations of contiguous groups that partition the input, with empty groups only possible first. Every group sums within the budget, except a group that is a single segment. A new group starts only when adding the segment would exceed the budget |
| Balance.FoldInvariant | preprocessing.py:66-77 | the invariant above holds after every prefix of the input |
| Balance.JoinKeepsInvariant | preprocessing.py:67-69 | appending a segment to the current group keeps the invariant |
| Balance.CloseKeepsInvariant | preprocessing.py:70-74 | closing the group and starting a new one with the segment keeps the invariant |
| Balance.GreedyMergePreservesContent | preprocessing.py:62-77 | the greedy chunks concatenate to the input's concatenation |
| Balance.LastBelowHalfAverage | preprocessing.py:81-85 | the test `last < (sum / len) * 0.5` over the chunk counts holds exactly when `2 * last * len < sum` |
| Balance.HalfAverage | preprocessing.py:82-85 | the real-number comparison with half the average is the integer inequality `2 * last * k < total` |
| Balance.TailFixSpec | preprocessing.py:80-96 | the fix-up keeps the content and merges at most once. It merges exactly when there are at least two chunks, the last is below half the average and the merged pair counts within the budget. A merge replaces only the last two chunks by their concatenation |
| Balance.BalancePreservesContent | preprocessing.py:38-98 | the output concatenates to the input's concatenation |
| Balance.BalanceChunkBound | preprocessing.py:38-98 | every output chunk is one of the input segments, or counts at most the budget plus half a token per input segment. The slack is needed because the budget bounds summed counts, not the count of the joined text |
| Balance.GreedyChunksBounded | preprocessing.py:66-77 | the same bound for the greedy chunks |
| Balance.TailFixKeepsBound | preprocessing.py:87-92 | the tail fix-up keeps that bound |
| Balance.SumCeilingIsNotTokenCeiling | preprocessing.py:58-59 | the budget bounds summed segment counts, not the count of the merged text: ["你a", "你b"] with budget 4 becomes the single chunk "你a你b", which counts 5 |
| Segmenter.Delimiters | preprocessing.py:125-130 | the delimiters are exactly the sentence marks 。.？?！!, together with the clause marks ，,、；; in clause mode and in no other mode; all of them are characters the content comparison ignores |
| Segmenter.StrippedNonBlank | preprocessing.py:152 | `[s.strip() for s in sub if s.strip()]` has at most one entry per piece and no empty entry |
| Segmenter.LinePieces | preprocessing.py:148-156 | what a stripped, non-empty line contributes holds no empty piece |
| Segmenter.LineContribution | preprocessing.py:143-156 | what one line contributes to `sentences` holds no empty piece |
| Segmenter.PiecesOf | preprocessing.py:141-156 | the specification of the loop over the lines: `sentences` holds no empty piece |
| Segmenter.Pieces | preprocessing.py:132-156 | the pieces of a text before balancing hold no empty piece |
| Segmenter.SplitSentences | preprocessing.py:101-162 | the specification `SplitSentencesLoop` is proved equal to: in every mode but raw, no sentence is empty |
| Segmenter.SplitSentencesLoop | preprocessing.py:101-162 | the loop builds exactly `SplitSentences`: raw mode returns `[text]`, sentence mode the balanced pieces, every other mode the unbalanced pieces |
| Segmenter.PiecesOfStep | preprocessing.py:142-156 | one loop turn appends the contribution of one line |
| Segmenter.PiecesWellFormed | preprocessing.py:136-156 | every piece is non-empty, has no whitespace at either end, contains no '\n', and either has none of the mode's delimiters or consists of delimiters only |
| Segmenter.LinePiecesWellFormed | preprocessing.py:147-156 | a stripped, non-empty line without '\n' yields only pieces of that form |
| Segmenter.BreakCjkSpaces | preprocessing.py:136 | the substitution's result is no longer than the text and holds only the text's characters and '\n' |
| Segmenter.BreakGaps | preprocessing.py:136 | the text is its kept pieces interleaved with the matched gaps. Each gap is a non-empty whitespace run between an ideograph that ends the piece before it and an ideograph that starts the piece after it. The result is the kept pieces joined by single '\n'. A whitespace run between two ideographs survives inside a piece only at the piece's start, right after the ideograph that closed the previous gap; every other such run is replaced |
| Segmenter.BreakSkipsChainedGap | preprocessing.py:136 | as written, "一 二 三" becomes "一\n二 三": the gap after 二 survives, and clause mode gives the two pieces "一" and "二 三" |
| Segmenter.BreakThree | preprocessing.py:136 | for any ideographs a, b, c, "a b c" becomes "a\nb c" |
| Segmenter.PiecesThree | preprocessing.py:136-156 | for any ideographs a, b, c, clause mode cuts "a b c" into "a" and "b c" |
| Segmenter.BreakAllCjkSpaces | preprocessing.py:132-136 | the substitution as the comment describes it is no longer than the text and keeps its first character |
| Segmenter.BreakAllLeavesNoGap | preprocessing.py:132-136 | after that substitution, the only whitespace between two ideographs is a single '\n' |
| Segmenter.BreakAllKeepsContent | preprocessing.py:132-136 | that substitution changes nothing but whitespace |
| Segmenter.BreakAllThree | preprocessing.py:132-136 | for any ideographs a, b, c, it turns "a b c" into "a\nb\nc" |
| Segmenter.BreakAllChainedGaps | preprocessing.py:132-136 | it turns "一 二 三" into "一\n二\n三" |
| Segmenter.BreakAllGapBecomesNewline | preprocessing.py:132-136 | for any text x ending in an ideograph, any non-empty whitespace run and any text y starting with an ideograph, the lookahead substitution of x + run + y is that of x, one '\n', and that of y: every such run becomes exactly one '\n' |
| Segmenter.BreakKeepsContent | preprocessing.py:136 | replacing whitespace between two ideographs with a line break does not change the text once whitespace is deleted |
| Segmenter.GapSource | preprocessing.py:136 | a matched gap contributes only its two ideographs once whitespace is deleted |
| Segmenter.PiecesOfContent | preprocessing.py:141-156 | the pieces of the lines, with delimiters and whitespace deleted, equal the lines with them deleted |
| Segmenter.LineContributionContent | preprocessing.py:143-156 | the same for one line: stripping, splitting on delimiters and dropping blanks lose only ignored characters |
| Segmenter.StrippedNonBlankContent | preprocessing.py:148-152 | keeping the stripped non-blank parts loses only ignored characters |
| Segmenter.PiecesContent | preprocessing.py:136-156 | the pieces of the text lose only delimiters and whitespace |
| Segmenter.SplitSentencesPreservesContent | test_preprocessing.py:176-180 | in every mode, deleting 。.？?！!，,、；; and whitespace from the input and from the joined output gives the same string |
| Preprocess.SplitLines | preprocessing.py:6 | `str.splitlines()` gives no lines for the empty text, at least one line for any other text, and never more lines than characters; `SplitLinesChars`, `SplitLinesAtNewlines`, `SplitLinesJoin` and `SplitLinesContent` pin the lines themselves |
| Preprocess.SplitLinesChars | preprocessing.py:6 | every line holds only characters of the text and no line break |
| Preprocess.SplitLinesAtNewlines | preprocessing.py:6 | when '\n' is the only line boundary in the text, the lines are the pieces of `split("\n")`, without the empty piece after a final '\n'; the empty text has no lines |
| Preprocess.SplitLinesJoin | preprocessing.py:6 | for such a text that does not end in '\n', joining the lines with '\n' gives back the text |
| Preprocess.SplitLinesContent | preprocessing.py:6 | the lines concatenate to the text with its line breaks deleted |
| Preprocess.MarkerLength | preprocessing.py:12 | the removed prefix fits in the line, and a non-empty one ends in a digit followed by the arrow |
| Preprocess.MarkerFound | preprocessing.py:12 | a non-zero marker length is a leading whitespace run, at least one digit, then the arrow |
| Preprocess.MarkerUnique | preprocessing.py:12 | any marker the pattern `^\s*\d+→` matches has exactly the computed length |
| Preprocess.NoMarker | preprocessing.py:12 | a line with no marker has marker length 0, so the substitution removes nothing |
| Preprocess.Body | preprocessing.py:12 | the substitution leaves a suffix of the line: what it removes is a prefix |
| Preprocess.CleanLine | preprocessing.py:12-13 | the cleaned line has no whitespace at either end |
| Preprocess.CleanLineChars | preprocessing.py:12-13 | the cleaned line holds only characters of the line |
| Preprocess.Preprocess | preprocessing.py:5-18 | the loop builds exactly `PreprocessText`: non-empty cleaned lines joined by single spaces |
| Preprocess.Kept | preprocessing.py:14-15 | one loop turn appends at most one line, and never an empty one |
| Preprocess.CleanLinesStep | preprocessing.py:10-15 | one loop turn appends the cleaned line when it is not empty |
| Preprocess.CleanLines | preprocessing.py:9-15 | `cleaned_lines` after the loop: at most one entry per line, none of them empty |
| Preprocess.CleanLinesShape | preprocessing.py:10-15 | every kept line is non-empty, stripped and free of line breaks |
| Preprocess.PreprocessSingleLine | preprocessing.py:5-18 | the result has no line break |
| Preprocess.PreprocessText | preprocessing.py:5-18 | the specification `Preprocess` is proved equal to: the result has no whitespace at either end |
| Preprocess.CleanLinesContent | preprocessing.py:10-15 | the kept lines, with whitespace deleted, are the marker-free line bodies with whitespace deleted |
| Preprocess.JoinSpaces | preprocessing.py:18 | joining with spaces adds only whitespace |
| Preprocess.PreprocessContent | preprocessing.py:5-18 | the result, with whitespace deleted, is the text with markers and whitespace deleted |
| Preprocess.BodiesWithoutMarkers | preprocessing.py:12 | lines without markers are kept whole |
| Preprocess.Bodies | preprocessing.py:12 | one body per line, each a suffix of its line: the marker removed is a prefix |
| Preprocess.PreprocessKeepsUnmarkedText | preprocessing.py:5-18 | a text whose lines carry no marker loses only whitespace |
| Decimal.Show | preprocessing.py:176 | the decimal text of a natural number is digits only, at least one, and has no leading zero unless the number is 0 |
| Decimal.ReadShow | preprocessing.py:176 | reading the decimal text gives back the number |
| Decimal.ShowInjective | preprocessing.py:176 | different numbers have different texts |
| Decimal.ZeroPad | preprocessing.py:176 | padding to width w gives digits only, of length max(w, original length) |
| Decimal.ReadZeroPad | preprocessing.py:176 | zero padding does not change the number |
| Decimal.ReadOrder | preprocessing.py:176 | among digit strings of one length, the smaller number sorts first |
| Decimal.ReadInjective | preprocessing.py:176 | digit strings of one length that denote one number are equal |
| Decimal.DigitAppendInjective | preprocessing.py:176 | appending a decimal digit is injective: a * 10 + d == b * 10 + e with digits d and e forces a == b and d == e |
| Utterance.FormatIndex | preprocessing.py:176 | `index:05d` has max(5, number of digits of the index) characters for a non-negative index and max(5, number of digits of its magnitude + 1) otherwise; it is digits denoting the index when the index is non-negative, and a minus followed by digits denoting its magnitude otherwise |
| Utterance.FormatIndexRoundTrip | preprocessing.py:176 | the formatted index parses back to the index |
| Utterance.UttId | preprocessing.py:165-176 | the id is the basename, an underscore, and at least five more characters that parse back to the index |
| Utterance.UttIdInjective | preprocessing.py:165-176 | two indices give the same id under one basename only if they are equal |
| Utterance.FormatIndexWidth | preprocessing.py:176 | indices 0..99999 take exactly five digits |
| Utterance.UttIdOrder | preprocessing.py:165-176 | for indices 0..99999 the ids sort in index order |
| Crossfade.ConcatWithCrossfade | main.py:200-248 | the method returns exactly `Command`: the error for no file, a copy for one file, the ffmpeg command otherwise |
| Crossfade.Command | main.py:200-248 | the specification `ConcatWithCrossfade` is proved equal to: the error exactly when there is no path, the copy exactly when there is one |
| Crossfade.InputArgs | main.py:210-212 | the specification `CollectInputArgs` is proved equal to: two arguments per path |
| Crossfade.ChainFilter | main.py:224-238 | filter i reads input i+1 as its second stream and writes either label a_i or the default output; for three or more inputs it writes the default output exactly when i = n-2 |
| Crossfade.Fade | main.py:227-237 | the acrossfade f-string starts with its two input pads and `acrossfade=d=` and ends with its output label |
| Crossfade.FilterText | main.py:217 | a filter renders as its two pads and `acrossfade=d=` first and its output label last; `ChainFilterText` gives the text of each branch and `PadTextInjective` shows different pads render differently |
| Crossfade.Render | main.py:222-238 | one rendered filter string per filter |
| Crossfade.FilterComplex | main.py:215-239 | the `filter_complex` argument, for two inputs and for more, starts by crossfading input 0 with input 1 |
| Crossfade.CollectInputArgs | main.py:210-212 | the loop builds exactly `InputArgs` |
| Crossfade.ChainFilters | main.py:222-239 | the index loop with first, middle and last branches renders exactly the filters of `Graph(n)` |
| Crossfade.ChainFilterText | main.py:224-238 | filter i renders as the f-string of its branch |
| Crossfade.InputArgsShape | main.py:210-212 | the input arguments are `-i` and the path for every path in order, 2n strings |
| Crossfade.CommandShape | main.py:200-248 | no path raises the error; one path copies it to the output; two or more give `ffmpeg -y`, the input arguments, `-filter_complex`, the graph, and the output path |
| Crossfade.TwoInputs | main.py:215-218 | two paths give the single unlabelled filter reading `[0][1]` |
| Crossfade.Graph | main.py:215-239 | n inputs give n-1 filters |
| Crossfade.InputsReadOnce | main.py:224-238 | every input 0..n-1 is read by exactly one filter (inputs 0 and 1 by the first, input k by filter k-1), and no other input is read |
| Crossfade.LabelsWrittenOnce | main.py:224-238 | label a_j is written only by filter j, and only for j <= n-3 |
| Crossfade.LabelsReadOnce | main.py:224-238 | label a_j is read only by filter j+1, and only for j <= n-3 |
| Crossfade.OneUnlabelled | main.py:229-233 | only the last filter is unlabelled, so it alone feeds the output |
| Crossfade.PadTextInjective | main.py:224-238 | different stream references render differently |
| Crossfade.GraphMixesInOrder | main.py:215-239 | run filter by filter, the graph reads no label before it is written and yields one output: the inputs crossfaded one after another in path order |
| Crossfade.ChainPrefix | main.py:222-238 | after the first i filters, label a_(i-1) holds the first i+1 inputs crossfaded in order, and nothing has reached the output |

## Findings

| source | as written | input that shows it | evidently intended | confidence | as-written member | corrected member |
|---|---|---|---|---|---|---|
| preprocessing.py:136 | `re.sub` matches do not overlap and each match consumes the ideograph after the gap, so the gap after that ideograph is never matched | "一 二 三" becomes "一\n二 三", and clause mode gives the pieces "一" and "二 三" | every whitespace run between two ideographs becomes '\n', as with a lookahead for the second ideograph, giving "一\n二\n三" | not executed | Segmenter.BreakSkipsChainedGap | Segmenter.BreakAllLeavesNoGap |

## Left out

- Unicode tables: `\s`, `str.strip` and `str.splitlines` are modelled with predicates `IsSpace` and `IsLineBreak`. These predicates list the code points of Python's tables by range, and no other Unicode behaviour is modelled. `\d` is modelled as ASCII digits only, although Python's `\d` also matches other decimal digits.
- Floating point: the half-average test of `balance_segments` is modelled over exact reals and proved equal to an integer inequality. `int(english_words * 1.5)` is modelled as `3 * w / 2`, which agrees for every count a text can have. The crossfade duration's float formatting is not modelled: the duration is an opaque string.
- `concat_wavs_with_crossfade`: the `shutil.copy` and the `subprocess.run` with its return-code check are not performed. The model returns what would be copied or run. What ffmpeg does with the command is represented only by the evaluation semantics `Evaluate` of the filter graph.
- The rest of `main.py` is not part of this model: audio durations, SRT output, the retrying HTTP calls, the thread pool and argument parsing. Neither is `client.py`, since they are network, file and clock I/O.
- Default arguments: `split_sentences` and `balance_segments` default to `max_tokens=70` and mode "sentence", and `concat_wavs_with_crossfade` defaults to `crossfade_duration=0.05` and `fade_curve="tri"`. The model takes every one of them as an explicit parameter. Nothing is lost: `split_sentences` passes `max_tokens` on (preprocessing.py:160), and `main.py` passes all of them explicitly (main.py:270-272 and 367-372).
- `ensure_max_tokens`, `force_split_by_char`, `strip_punctuation` and the `min_tokens` parameter are imported or passed by `test_preprocessing.py` and `main.py`. They do not exist in `preprocessing.py` and are not modelled. The test assertions about them are not contracts of this code.
