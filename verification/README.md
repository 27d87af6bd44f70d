# Timed quiz: question loading and scoring

A model of the sequential core of a small command-line quiz written in Go
(`main.go`). The program reads question/answer pairs from a CSV file, may
shuffle them, asks them one by one on the terminal and counts the answers
that match. The model covers three pieces of that program:

- **Loading** (`readCSV`). Each CSV record becomes a `Question` whose prompt and
  answer are the record's first two fields with white space trimmed. The
  questions keep file order. When the `randomize` flag is set, the list is then
  shuffled in place by Fisher–Yates: the index `i` runs down from `len-1` to 1,
  and each step swaps positions `i` and `rand.Intn(i+1)`.
- **Trimming** (`strings.TrimSpace`). The code uses it on both CSV fields and on
  every line the user types. It is modelled as Go implements it: a forward scan
  over leading white space, then a backward scan over trailing white space. The
  slice between the two is kept untouched.
- **Scoring** (the asking loop in `quiz`). A counter starts at 0. For every
  question, the trimmed line read for it is compared with the expected answer.
  The comparison is exact and case-sensitive. On a match the counter goes up by
  one.

Files and modules:

- `text.dfy` (module `Text`): `IsSpace`, the two scans `Start` and `Stop`, and
  `Trim`. Lemmas characterise `Trim` completely. What it cuts off is white
  space. What it keeps is a contiguous slice that neither starts nor ends with
  white space. Conversely, trimming any trimmed string wrapped in white space
  gives back that string.
- `questions.dfy` (module `Questions`): the `Question` datatype and the
  conversion, both as a specification function (`Converted`) and as the
  appending loop (`ToQuestions`). It also holds the Fisher–Yates shuffle, both
  as a specification function (`Shuffled`) and as an in-place method on an
  `array` (`Shuffle`). `ReadQuestions` puts the two together under the
  `randomize` flag.
- `scoring.dfy` (module `Scoring`): the specification `CountMatches`, the
  counting loop `Score`, and lemmas about the score. The score equals the
  number of correct positions. Its bounds and monotonicity are proved, plus
  "full score iff all correct" and "zero iff none correct".

The random draws of `rand.Intn(i+1)` are a parameter `choices`, where
`choices[i]` is the draw at the step for index `i`, so `choices[i] <= i`. The
CSV reader's output is a parameter too: a sequence of records, each a
sequence of fields. The lines the user types are a sequence `guesses`, with
one string per question. Each is exactly what `ReadString('\n')` returned,
trailing `'\n'` included.

The loop body does not stop after a failed read. In the code
(main.go:60-63), the error is sent on the `errs` channel with no `return` or
`continue` after it, so the partial line that was read is still compared
with the answer. `Score` models that loop body: it compares every guess it is
given, whether or not its read failed.

## Model

| member | source | states |
|---|---|---|
| Text.IsSpace | main.go:37 | below U+0100 a character is white space exactly when it is one of the eight Latin-1 spaces tab, line feed, vertical tab, form feed, carriage return, space, U+0085 and U+00A0 |
| Text.Start | main.go:37 | the forward scan of TrimSpace returns an index between `i` and the length of the string |
| Text.StartSpec | main.go:37 | Start stops at the first non-space index at or after `i` (or at the end): everything it skipped is white space |
| Text.Stop | main.go:37 | the backward scan returns an index between `lo` and `j` |
| Text.StopSpec | main.go:37 | Stop stops just after the last non-space character before `j`, or at `lo`: everything it skipped is white space |
| Text.StartUnique | main.go:37 | any index preceded only by white space and sitting on non-space text (or the end) is the one Start returns |
| Text.StopUnique | main.go:37 | any index followed only by white space up to `j` and preceded by non-space text (or equal to `lo`) is the one Stop returns |
| Text.Trim | main.go:37 | TrimSpace never lengthens its input |
| Text.TrimSpec | main.go:37 | the trimmed string neither starts nor ends with white space; it is the contiguous, unchanged slice of the input between all-white-space lead and trail, so inner white space is kept |
| Text.TrimOfSurrounded | main.go:63 | trimming a trimmed string wrapped in any white space returns exactly that string (the converse of TrimSpec) |
| Text.TrimIdempotent | main.go:37 | trimming twice equals trimming once |
| Text.TrimIgnoresSurroundingSpace | main.go:63 | white space added around a line (such as the `'\n'` ReadString keeps) does not change its trimmed form |
| Text.TrimLineExamples | main.go:63 | `"4\n"` and `"  4  \n"` trim to `"4"`, `"Paris\n"` to `"Paris"`, `"paris\n"` to `"paris"` |
| Text.TrimFieldExamples | main.go:37 | the CSV fields `" 2+2 "` and `" 4 "` trim to `"2+2"` and `"4"` |
| Questions.FromRecord | main.go:37 | a record becomes a question whose prompt and answer neither start nor end with white space and are no longer than the fields they come from |
| Questions.Converted | main.go:35-38 | the conversion yields exactly one question per record |
| Questions.ConvertedAt | main.go:37 | question k comes from record k: its prompt is the trimmed field 0 and its answer the trimmed field 1 |
| Questions.ToQuestions | main.go:35-38 | the append loop produces exactly the converted list, in record order |
| Questions.ConvertedSnoc | main.go:36-37 | one more record appends one more question at the end |
| Questions.ConvertedAppend | main.go:35-38 | file order is preserved: converting two runs of records in sequence is converting their concatenation |
| Questions.ConvertedFieldsTrimmed | main.go:37 | every loaded prompt and answer is already trimmed, so trimming the answer again changes nothing |
| Questions.ConversionExample | main.go:37 | the record `" 2+2 , 4 "` becomes the question `("2+2", "4")` |
| Questions.Swap | main.go:42 | the swap exchanges positions i and j and leaves every other position as it was |
| Questions.SwapPermutes | main.go:42 | a swap keeps the multiset of questions |
| Questions.ShuffleSteps | main.go:40-43 | the shuffle steps keep the length of the list |
| Questions.ShuffleStepsPermutes | main.go:40-43 | the shuffle steps are a permutation: the multiset of questions is unchanged |
| Questions.Shuffled | main.go:40-43 | the shuffle keeps the length and the multiset, and leaves a list of length 0 or 1 unchanged (the loop body never runs) |
| Questions.Shuffle | main.go:40-43 | the in-place loop over the array leaves exactly the specified shuffle of the original contents |
| Questions.ShuffleStepsKeepsAbove | main.go:40-43 | a step at index i or below never touches a position above i |
| Questions.LastIsFirstDraw | main.go:40-42 | the last position ends up holding the question picked by the first draw, and it keeps that question to the end |
| Questions.ShuffleStepsIdentity | main.go:41-42 | if every draw picks the current index, every swap is a no-op and the order is kept |
| Questions.ShuffleExample | main.go:40-43 | `[x, y, z]` with all draws 0 becomes `[y, z, x]` |
| Questions.ReadQuestions | main.go:35-45 | without `randomize` the result is the converted list itself; with it, the result is the shuffle of that list; either way the length is the record count and the multiset equals the converted list's |
| Scoring.Correct | main.go:63 | a guess can only match an answer that neither starts nor ends with white space, and a matching line is at least as long as the answer |
| Scoring.CountMatches | main.go:51-66 | the score is at most the number of questions; an empty list scores 0 |
| Scoring.Score | main.go:51-66 | the counting loop ends with exactly CountMatches of the questions and guesses |
| Scoring.MatchSetSnoc | main.go:57-66 | one more question adds its position to the set of correct positions exactly when its guess is correct |
| Scoring.CountIsMatchSetSize | main.go:57-66 | the score equals the number of positions whose trimmed guess equals the answer |
| Scoring.FullScoreIffAllCorrect | main.go:63-64 | the score equals the number of questions if and only if every guess is correct |
| Scoring.ZeroScoreIffNoneCorrect | main.go:63-64 | the score is 0 if and only if no guess is correct |
| Scoring.ScoreGrowsByAtMostOne | main.go:57-66 | the running score never decreases, and over k - j questions it grows by at most k - j |
| Scoring.CorrectIgnoresSurroundingSpace | main.go:63 | white space around the typed answer does not affect whether it scores |
| Scoring.ScoreExamples | main.go:57-66 | answers `"4\n"`, `"Paris\n"` score 2 against `("2+2","4")`, `("CapitalOfFrance","Paris")`; `"  4  \n"`, `"paris\n"` score 1 (case-sensitive) |

## Left out

- The race in `quiz` is not modelled: the goroutine, the `errs` and `completed` channels, the `select` against `time.NewTicker`, and the second `<-errs` receive on line 72 (main.go:53-78). This is concurrency and timing. The same goes for the unsynchronised read of `score` when the timer wins. So the model says nothing about timeouts or about which score is reported when the timer or an error comes first. `Score` gives the value the counter reaches when every guess is compared and no read fails.
- Read errors are not modelled. Each guess is the string `ReadString` returned, partial or empty after an error. Whether an error occurred only matters to the channel protocol, which is left out above.
- Score: the model does not capture what becomes of the score once a read fails. The send on the unbuffered `errs` channel blocks until it is received (main.go:53, 61). The runner receives at most two errors, at main.go:71-72, and none once the timer has won (main.go:75); any later failed read blocks the goroutine at main.go:61 for good. If the first read to fail is the last question's, the runner waits at main.go:72 while the goroutine waits at main.go:67, and `quiz` never returns. Whenever `quiz` returns through the `errs` branch (main.go:71-72), `main` discards the score (main.go:96-99). When the timer wins first, `quiz` returns the score with no error (main.go:78) and `main` prints it (main.go:100), whatever reads fail afterwards.
- File I/O is not modelled: `os.Open` and `csv.NewReader(...).ReadAll()` (main.go:26-34). The model starts from the parsed records. Their failure paths belong to the file and CSV layer.
- Flag parsing and the global configuration (`init`, main.go:19-23, 81-86) are not modelled. Neither are `main` (main.go:88-102), the prompts, the "Time is up!" and score output, or `log.Fatal`. All of this is interactive I/O and process plumbing.
- `rand.Intn` is replaced by the caller-supplied draws `choices`. The model proves that every sequence of draws gives a permutation. It does not model that the draws are uniform, so it says nothing about the distribution of the result.
- A record with fewer than two fields makes the source panic with an index out of range (main.go:37). The model excludes it with the precondition `WellFormed` and does not model the panic.
- `IsSpace` follows Go's `unicode.IsSpace` character set, but strings are modelled as sequences of Unicode code points. Go strings are UTF-8 bytes, and an invalid byte decodes to U+FFFD, which is not white space. Byte-level decoding is not modelled.
