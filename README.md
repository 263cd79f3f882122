# wordle-assist, modelled in Dafny

wordle-assist is a console helper for Wordle. It keeps a list of possible answers,
which at the start is the whole five-letter lexicon. Each round runs in four steps:

1. **Scorer.** Every possible answer y gets a score. For every word x of the list
   (x == y included) and every letter position p, y gains 5 when x and y share the
   letter at p. Otherwise y gains 4 when it contains x's letter at p anywhere. The
   x-range is split into one contiguous chunk per hardware thread. Each worker sends
   a full-length partial vector over a channel, and the main thread adds the vectors
   up as they arrive.
2. **Ranker.** The words are paired with their scores and sorted by score, highest
   first. The first five entries are shown, or all of them when fewer remain.
3. **Feedback filter.** The player types `word-codes`, for example `crane-02010`.
   A `2` at position i keeps the words with the guess's letter at i. A `1` keeps the
   words that hold that letter somewhere else. A `0` records the letter as absent.
   A second pass removes the words that contain an absent letter that no position
   marked present. Last, the guess itself is removed.
4. **Session rule.** The guess is counted. The session ends with "Wordle solved!"
   when no possible answer is left or when six guesses have been counted, and then
   offers a restart.

The project has six modules:

- `lexicon.dfy` (`Lexicon`): the word length and the `Playable` predicate for words
  that can be indexed at every position.
- `scorer.dfy` (`Scorer`): the plain double sum `Score`, and the methods
  `PartialScores` (one worker's triple loop on an array), `SpawnWorkers` (one partial
  vector per chunk), `Collect` (the summation loop, in the order the vectors arrive)
  and `Scores`. It proves that the chunked sum equals the double sum for every
  thread count and every arrival order.
- `ranker.dfy` (`Ranker`): zip, the stable sort by score and the top-five slice.
- `feedback.dfy` (`Feedback`): trim, split at `-`, and `ParseLine`, which returns
  `None` exactly where the program would panic.
- `filter.dfy` (`Filter`): the `retain` predicates as `Rule`s, `Survivors` as the
  meaning of `retain`, the rules of one round in the order they are applied, and the
  position-by-position predicate `Consistent` that the survivors satisfy.
- `session.dfy` (`Session`): the class `Game`, which holds the possible answers, the
  guess count and the session status. Its methods are `Suggest`, `ApplyFeedback`
  (the two loops that push present and absent letters and retain), `Guess` and
  `Restart`.

Points where the code's own behaviour decides the model:

- The code sorts with `sort_by`, which is stable. The model proves that entries
  with equal scores keep their lexicon order (`Ranker.SortIsStable`).
- A malformed feedback line makes the code panic. The model returns `Panicked`,
  and the session stops.
- A code character other than `0`, `1` or `2` is ignored by the code
  (`Filter.UncodedPositionIgnored`).
- A guess field of any length is accepted, as long as every position that carries a
  code has a letter. A longer guess or a longer code field is not rejected.
- The "Wordle failed!" branch can never be taken: its condition is already part of
  the first branch. `Session.Verdict` proves that it never returns `Failed`.

## Model

| member | source | states |
|---|---|---|
| Scorer.Weight | src/main.rs:50-56 | a position adds 5 exactly when the letters agree, 4 exactly when they differ and y holds x's letter, and 0 exactly when y lacks it |
| Scorer.ChunkSizeAtMost | src/main.rs:29-30 | the chunk size, the integer ceiling of N / t, never exceeds N, and is N for one thread |
| Scorer.ChunkTo | src/main.rs:35-42 | the end of a chunk is clamped to N, is at most the start plus the chunk size, and is not below the start when the start is within N |
| Scorer.ChunksAdjacent | src/main.rs:35-42 | about `ChunkFrom` and `ChunkTo`: chunk c + 1 starts a chunk size after chunk c, chunk c ends at N or where chunk c + 1 starts, and a chunk that starts below N is not empty |
| Scorer.PartialScores | src/main.rs:46-59 | a worker's vector has one entry per word, and entry y is the sum of the pair weights of the words from..to against y |
| Scorer.SpawnWorkers | src/main.rs:29-65 | one vector per chunk c, each of length N, holding the contributions of chunk c, with chunk size ceil(N/t) and the upper end clamped to N |
| Scorer.Collect | src/main.rs:67-71 | the received vectors are added entry by entry, in arrival order, into a vector of length N |
| Scorer.Scores | src/main.rs:26-71 | the final vector has length N and entry y equals the plain double sum over all x and all five positions, for every thread count and arrival order |
| Scorer.CeilDiv | src/main.rs:29-30 | the chunk size times the thread count covers N and overshoots it by less than the thread count |
| Scorer.ChunksPartition | src/main.rs:29-42 | every x below N lies in exactly one chunk, the chunk numbered x / chunk size, and that number is below the thread count |
| Scorer.AllChunksCoverAll | src/main.rs:34-42 | chunks 0 to t-1 together reach the end of the x-range |
| Scorer.RowScoreSplit | src/main.rs:47-57 | the contribution of an x-range splits into the contributions of its two parts |
| Scorer.ChunksInOrder | src/main.rs:34-71 | adding the first c chunk vectors in chunk order gives the contribution of the x-prefix they cover |
| Scorer.OrderedSumRemove | src/main.rs:67-71 | adding a vector in the middle of the arrival order is the same as adding it last |
| Scorer.OrderIrrelevant | src/main.rs:67-71 | the sum over any permutation of the chunk indexes equals the sum in chunk order |
| Scorer.ArrivalSumIsScore | src/main.rs:29-71 | for every thread count and every arrival order, the chunked sum equals the plain double sum |
| Scorer.ThreadCountIrrelevant | src/main.rs:28-71 | two thread counts with two arrival orders give the same summed score |
| Scorer.ArrivalOrderLength | src/main.rs:67 | an arrival order receives exactly one vector per thread |
| Scorer.PairScoreBounds | src/main.rs:49-57 | one word adds at most 25 to another word's score and exactly 25 to its own |
| Scorer.RowScoreBounds | src/main.rs:47-57 | an x-range adds at most 25 per word, and at least 25 when it contains y |
| Scorer.ScoreBounds | src/main.rs:46-57 | every score lies between 25 and 25 times N |
| Scorer.SingleWordScore | src/main.rs:46-57 | a one-word lexicon scores exactly 25 |
| Scorer.ScoreGrowsWithLexicon | src/main.rs:47-57 | adding a word adds exactly its pair score to each old word's score |
| Scorer.ScoreFitsU32 | src/main.rs:69-77 | with fewer than 171798692 words, no partial vector entry and no final score reaches 2^32 |
| Scorer.OrderedSumPrefix | src/main.rs:67-71 | every running total of the receive loop is at most the total over all the vectors |
| Scorer.RunningTotalFitsU32 | src/main.rs:67-71 | with fewer than 171798692 words, no running total of the receive loop exceeds the final score or reaches 2^32, so the u32 additions never wrap |
| Ranker.Zip | src/main.rs:73-77 | the pairs have the length of the shorter input, and pair i holds word i and score i |
| Ranker.Insert | src/main.rs:79 | inserting into a list adds exactly one entry |
| Ranker.Rank | src/main.rs:73-79 | the ranked list has one entry per pair, is sorted by non-increasing score, and is a permutation of the zipped pairs |
| Ranker.SortByScore | src/main.rs:79 | the result is a permutation of the input with non-increasing scores |
| Ranker.InsertSorted | src/main.rs:79 | inserting into a sorted list keeps it sorted |
| Ranker.InsertAdds | src/main.rs:79 | inserting adds exactly one copy of the entry |
| Ranker.InsertWithScore | src/main.rs:79 | an inserted entry goes before every entry that has the same score |
| Ranker.SortIsStable | src/main.rs:79 | for every score, the entries with that score keep their input order |
| Ranker.RankIsStableSort | src/main.rs:73-79 | the ranked list has length N, is a permutation of the zipped pairs, is sorted and is stable on ties |
| Ranker.Top | src/main.rs:83-87 | the shown slice has exactly min(5, N) entries and is a prefix of the ranked list |
| Ranker.TopIsBest | src/main.rs:79-87 | no shown entry scores below an entry that is not shown |
| Ranker.TopOfTwo | src/main.rs:83-87 | with two candidates both are shown |
| Feedback.TrimStart | src/main.rs:98 | the result drops leading whitespace only, and it starts with a non-whitespace character or is empty |
| Feedback.TrimEnd | src/main.rs:98 | the result drops trailing whitespace only, and it ends with a non-whitespace character or is empty |
| Feedback.WellFormedMeaning | src/main.rs:100-124 | a round is well formed exactly when each of its five positions can be read: code i exists and, when it is '0', '1' or '2', letter i exists |
| Feedback.Trim | src/main.rs:98 | the trimmed line is no longer than the line, and starts and ends with a non-whitespace character |
| Feedback.TrimEmpty | src/main.rs:98 | a line trims to nothing exactly when it is all whitespace |
| Feedback.IndexOf | src/main.rs:99 | the position of the first occurrence of the character |
| Feedback.Split | src/main.rs:99 | the fields hold no hyphen, join back to the line, and number at least two exactly when the line holds a hyphen |
| Feedback.ParseLine | src/main.rs:98-124 | a parsed round is two consecutive fields of the trimmed line that can be read at every position; None only when the line has no hyphen or its first two fields are not readable at every coded position |
| Feedback.SplitJoin | src/main.rs:99 | splitting a join of hyphen-free fields gives those fields back |
| Feedback.TrimUnchanged | src/main.rs:98 | a line without surrounding whitespace is its own trim |
| Feedback.TrimNewline | src/main.rs:96-98 | the line read_line returns trims to what was typed |
| Feedback.SplitTwo | src/main.rs:99-101 | word, hyphen, codes splits into exactly those two fields |
| Feedback.ParseRoundTrip | src/main.rs:96-101 | a typed `word-codes` line ended by a newline reads back as that word and those codes |
| Feedback.ParseRejectsMissingHyphen | src/main.rs:99-101 | a line without a hyphen is rejected |
| Feedback.ParseRejectsShortCodes | src/main.rs:106-107 | a code field of four characters is rejected |
| Feedback.ParseRejectsShortWord | src/main.rs:106-124 | a guess shorter than the coded positions it must supply is rejected |
| Feedback.ParseIgnoresExtraFields | src/main.rs:99-101 | a trimmed line of three or more hyphen-free fields reads as its first two fields |
| Filter.KeepsMeaning | src/main.rs:110-134 | a '2' retain keeps the words with the letter at the position, a '1' retain the words with another letter there and the letter elsewhere, an absent-letter retain the words without the letter, and the last retain every word but the guess |
| Filter.RuleAt | src/main.rs:106-122 | a position contributes at most one retain, and one exactly when its code is '2' or '1' |
| Filter.RuleAtShape | src/main.rs:106-122 | that retain is at the position and checks the guess's letter there, and it is an exact-position retain exactly for '2' |
| Filter.PositionRules | src/main.rs:106-122 | the first n positions contribute at most n retains |
| Filter.PositionRulesShape | src/main.rs:106-122 | those retains are all positional, at positions below n |
| Filter.AbsentRules | src/main.rs:128-132 | the absent pass adds at most one retain per recorded absent letter |
| Filter.AbsentRulesShape | src/main.rs:128-132 | each of its retains is for a letter that is absent and not present, and every such letter has one |
| Filter.RoundRules | src/main.rs:106-134 | the last retain of a round drops the guess |
| Filter.RoundRulesShape | src/main.rs:106-134 | no retain before the last one drops the guess |
| Filter.Filtered | src/main.rs:106-134 | the answers left after a round are no more numerous than before and all come from the prior answers |
| Filter.PositionStep | src/main.rs:106-122 | the retain of position i after those of the earlier positions leaves the survivors of positions 0 to i |
| Filter.AbsentStep | src/main.rs:128-132 | the retain for the k-th absent letter after the earlier ones leaves the survivors of the first k + 1 absent letters |
| Filter.Survivors | src/main.rs:110-134 | the result keeps exactly the words of the input that every rule keeps, is no longer than the input, and stays playable |
| Filter.SurvivorsConcat | src/main.rs:110-134 | the survivors of a concatenation are the concatenated survivors, so relative order is kept |
| Filter.SurvivorsSubMultiset | src/main.rs:110-134 | filtering only removes: no word occurs more often than before |
| Filter.SurvivorsAllKept | src/main.rs:110-134 | a list that every rule keeps is left unchanged |
| Filter.SurvivorsStep | src/main.rs:110-134 | one more retain after a list of rules equals one pass with the longer list |
| Filter.SurvivorsIdempotent | src/main.rs:110-134 | filtering twice with the same rules removes nothing further |
| Filter.KeepsAllConcat | src/main.rs:106-134 | a concatenation of rule lists keeps a word exactly when both lists do |
| Filter.PositionRulesMeaning | src/main.rs:106-122 | the position rules keep exactly the words with W[i] at every '2' position, and with W[i] elsewhere at every '1' position |
| Filter.PresentLettersMeaning | src/main.rs:103-122 | a letter is recorded as present exactly when some position codes it '2' or '1' |
| Filter.AbsentLettersMeaning | src/main.rs:104-125 | a letter is recorded as absent exactly when some position codes it '0' |
| Filter.AbsentRulesMeaning | src/main.rs:128-132 | the second pass keeps exactly the words without any absent letter that is not present |
| Filter.AbsentPassMeaning | src/main.rs:103-132 | a '0' letter removes words only when no position of the guess marks it present, whichever position comes first |
| Filter.RoundRulesMeaning | src/main.rs:106-134 | the rules of a round keep a word exactly when it is consistent with the round at every position and is not the guess |
| Filter.FilteredSurvivors | src/main.rs:106-134 | the survivors are exactly the prior words consistent with the round, and no word occurs more often than before |
| Filter.FilteredConcat | src/main.rs:106-134 | filtering a concatenation filters each part, so the prior order is kept |
| Filter.GuessNeverSurvives | src/main.rs:134 | the guessed word is never a survivor |
| Filter.FilteredIdempotent | src/main.rs:106-134 | entering the same round again removes nothing further |
| Filter.UncodedPositionIgnored | src/main.rs:106-126 | a code character outside '0', '1', '2' adds no constraint, whichever such character it is |
| Filter.ConsistentSingleKept | src/main.rs:106-134 | a one-word list whose word is consistent with the round is kept |
| Filter.PresentBeforeAbsent | src/main.rs:103-132 | with `aabcd-10000`, the word `xyzwa` survives although 'a' is coded '0' at position 1 |
| Filter.AbsentBeforePresent | src/main.rs:103-132 | with `aabcd-01000`, the word `xyzwa` survives although 'a' is coded '0' at position 0 |
| Filter.AllExactNarrows | src/main.rs:106-113 | with `crane-22222`, neither `crane` nor `slate` survives |
| Session.Verdict | src/main.rs:138-144 | the verdict is never Failed; the session goes on exactly when answers remain and fewer than six guesses were counted |
| Session.Game.constructor | src/main.rs:11-20 | a session starts with the whole lexicon, no guess counted, and playing |
| Session.Game.Suggest | src/main.rs:26-88 | the suggestions are the first min(5, N) entries of the possible answers ranked by their double-sum scores |
| Session.Game.ApplyFeedback | src/main.rs:103-134 | the two loops and the last retain leave exactly Filtered of the prior answers, and every survivor comes from the lexicon |
| Session.Game.Guess | src/main.rs:98-144 | a readable line filters the answers, counts one guess and sets the verdict; an unreadable line stops the program; fewer than six guesses are counted while playing |
| Session.Game.Restart | src/main.rs:148-156 | the reply "y", after trimming, restores the whole lexicon and a zero count; any other reply changes nothing |

## Left out

- Loading the word list from embedded JSON (src/main.rs:11-12): foreign library and resource; the lexicon is the constructor's parameter.
- Console output and input (src/main.rs:14-18, 81-96, 137, 149-153): I/O; the feedback line and the restart reply are string parameters, and the shown entries are `Suggest`'s result.
- Timing with `Instant` (src/main.rs:9, 24, 90): a clock and a floating-point duration.
- Threads, channels and `available_parallelism` (src/main.rs:28, 32-65): concurrency; the workers run one after another, the thread count is a parameter of at least 1, and the channel's receive order is the `arrival` permutation.
- Scorer.SpawnWorkers: the chunk size is the integer ceiling (N + t - 1) / t in place of the `f64` ceiling at src/main.rs:30; the two agree whenever the floating-point quotient does not round across an integer, which holds for any word-list size and thread count of realistic magnitude.
- Scorer.Scores: scores are unbounded naturals; `Scorer.ScoreFitsU32` and `Scorer.RunningTotalFitsU32` show that no u32 entry, partial, running or final, wraps for any lexicon below 171798692 words, so wrap-around is not modelled.
- Lexicon.Playable: every word of the lexicon must have at least five letters (the constructor's requirement); the bundled list is taken to satisfy it. On a shorter word the source's worker threads panic at src/main.rs:50-51, their vectors are never sent, and `for r in rx` at src/main.rs:67 sums fewer vectors without the main thread noticing; the model excludes that case.
- Session.Game.Guess: on a line the program cannot read, the real program aborts, possibly after some `retain` calls have already run; the model leaves the answers unchanged and ends with `Panicked`.
- Session.Game.Restart: the recursive call to `main` (src/main.rs:155) is modelled as resetting the answers to the lexicon and the count to zero; the nested call stack is not.
- Non-ASCII text: strings are sequences of Unicode scalar values, as Rust's `chars` sees them; trimming uses the Unicode White_Space set and nothing else.
