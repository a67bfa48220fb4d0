# Spell checker core, modelled in Dafny

The program is a dictionary-based spell checker written in C (`Project_Code.c`).
It loads a word list into a hash table of 10007 chains. Each word is stored
under its normalised form: the first 49 characters, keeping only the letters,
lowercased. The hash is djb2, computed in 64-bit `unsigned long` arithmetic.

It then reads up to `limit` tokens of a text and classifies each one. A token
is correct when some entry in the chain of its own bucket equals it or contains
it as a substring. A token that is not correct is reported with up to three
suggestions, chosen in three steps:

1. Collect candidates. A candidate is a stored word with the same first and
   last letter as the token and the token's length or one more. At most 1000
   candidates are kept. Each is scored by the length of its longest common
   subsequence (LCS) with the token.
2. Fill a 4 x 4 "at most three items, capacity three" knapsack table.
3. Pick the best cell of the table and walk the candidates back from last to
   first.

The model is a set of pure functions over immutable values. Each loop of the C
code is also written as a method on arrays or sequences, proved to compute the
same result as its function:

- `filterWord`: `Words.FilterWordInPlace`.
- `hash`: `Djb2.HashLoop`.
- `addToDictionary` and the loading loop: `Dictionary.AddToDictionary` and
  `Dictionary.LoadDictionary`.
- The chain walk of `isCorrectWord`: `Lookup.IsCorrectWordLoop`.
- `LCS`: `Similarity.LcsTable`.
- The candidate scan: `Candidates.CollectCandidates`.
- The knapsack loops: `Knapsack.FillTable`.
- The reconstruction walk: `Selection.Reconstruct`.
- The classification loop: `SpellChecker.ProcessWords`.

Two loops have no functional twin:

- `stringMatch` (`Substring.StringMatch`) is specified directly against the
  `Occurs` predicate.
- The best-cell scan (`Selection.FindBest`) is specified directly by the
  maximum and the row-major order.

The modules:

| module | covers |
|---|---|
| `Words` | `filterWord`, and the `strncpy` truncation every caller does first |
| `Djb2` | `hash`, with the 2^64 wrap-around written out |
| `Substring` | `stringMatch` |
| `Dictionary` | the chain table, `addToDictionary` and the loading loop |
| `Lookup` | `isCorrectWord` |
| `Similarity` | `LCS` |
| `Candidates` | the candidate scan of `suggestCorrections` |
| `Knapsack` | the selection table of `suggestCorrections` |
| `Selection` | the best-cell scan, the reconstruction walk and the suggestions printed |
| `SpellChecker` | the classification loop of `processWordsFromFile` |

Clocks, files and the console are left out. The dictionary is passed in as a
`Table` value. The words of the input files are passed in as sequences of
tokens, one per `fscanf("%s")` read. A report records what would be printed
for one misspelt word.

### Behaviour the model follows because the code has it

- **Substring matches only within one bucket.** Substring acceptance only looks
  at the query's own bucket. "cat" is a substring of "category", yet with only
  "category" stored the query "cat" is rejected. The two words hash to buckets
  2780 and 6174 (`Lookup.SubstringOutsideBucketRejected`).
- **A different last letter rules a word out.** A misspelling whose intended
  word ends in a different letter gets no candidates. For example, "caat" never
  produces "cats".
- **The walk is not an optimiser.** It reads the final table, not the table as
  it stood when each candidate was offered. It can stop short of `best_k` picks
  and miss the best-scoring subset. With candidate profits 5, 3, 2, 4 the table's
  best total is 12 (candidates 0, 1 and 3), but the walk takes only candidate 1
  (`Selection.ReconstructionNotOptimal`).
  - These profits can occur together. For a query of five letters, every
    candidate shares the query's first and last letter and has five or six
    letters, so its score lies between 2 and 5.
  - A profit of 1 next to a profit of 5 cannot occur, so the example uses 2.
- **The best cell is always on the diagonal.** With unit weights and scores
  of at least 1, the best-cell scan always settles on the diagonal cell
  `(min(3, n), min(3, n))` (`Selection.FirstMaxIsSettled`).
- **At least one suggestion whenever there is a candidate.** The walk always
  takes at least one candidate when there is one, although it may take fewer
  than three. Going from `k - 1` to `k` items, the best total grows by the
  profit of some candidate (`Knapsack.BestGainIsAProfit`). The walk's first
  test looks for exactly that gain, so the walk meets that candidate or takes
  a later one first (`Selection.SelectionNonEmpty`). So for a word with
  letters, "No suitable suggestions" is printed exactly when the scan found
  no candidate.

## Model

| member | source | states |
|---|---|---|
| `Words.ToLower` | Project_Code.c:36-37 | An uppercase ASCII letter becomes the same letter in lowercase: it keeps its place in the alphabet. A lowercase letter and any non-letter (`isalpha` false) are unchanged. |
| `Words.FilterWord` | Project_Code.c:33-42 | The result is never longer than the input, and it consists of lowercase letters only. |
| `Words.FilterWordInPlace` | Project_Code.c:33-42 | The read/write two-index loop leaves exactly the filtered word in the first `j` cells of the buffer. |
| `Words.Truncate` | Project_Code.c:45-47 | The copy is a prefix of the raw word. It is the whole word when the word fits, and exactly 49 characters when it does not. |
| `Words.Normalize` | Project_Code.c:44-48 | The key of a raw word has at most 49 characters, all lowercase letters. |
| `Words.FilterWordAppend` | Project_Code.c:33-42 | Filtering a concatenation is the concatenation of the filtered parts. |
| `Words.FilterWordFixesNormal` | Project_Code.c:33-42 | A word that is already all lowercase letters passes through the filter unchanged. |
| `Words.FilterWordIdempotent` | Project_Code.c:33-42 | Filtering twice gives the same word as filtering once. |
| `Words.NormalizeIdempotent` | Project_Code.c:44-48 | Normalising a stored key again gives back the same key. |
| `Words.FilterWordKeepsLetters` | Project_Code.c:35-41 | Some increasing list of positions marks exactly the letters of the input. The k-th output character is the lowercased letter at the k-th such position. |
| `Words.FilterWordExample` | Project_Code.c:33-42 | `"Th3 Qu!ck"` filters to `"thquck"`. |
| `Djb2.Step` | Project_Code.c:29 | One round of `h * 33 + c` stays below 2^64. |
| `Djb2.Accumulate` | Project_Code.c:28-29 | The accumulator is always below 2^64. |
| `Djb2.Hash` | Project_Code.c:27-31 | The bucket index is always below 10007. |
| `Djb2.HashLoop` | Project_Code.c:27-31 | The character loop computes exactly the bucket of `Hash`. |
| `Djb2.HashSamples` | Project_Code.c:27-31 | "cat" hashes to bucket 2780 and "category" to 6174. |
| `Substring.StringMatch` | Project_Code.c:64-86 | The result is 0 or 1. It is 1 exactly when the pattern occurs as a contiguous block of the text. The empty pattern always gives 1, and a pattern longer than the text gives 0. |
| `Substring.OccursInItself` | Project_Code.c:96 | An exact match is also a substring match, so the `strcmp` test adds nothing. |
| `Substring.OccursBounds` | Project_Code.c:71 | A pattern longer than the text never occurs in it. The empty pattern always occurs. |
| `Dictionary.Empty` | Project_Code.c:18 | Every chain starts empty, and the empty table is well formed. |
| `Dictionary.Add` | Project_Code.c:44-57 | The key goes to the head of its own bucket, in front of the old chain. Every other bucket is unchanged. A well-formed table stays well formed: every entry is normalised and sits in the bucket of its hash. |
| `Dictionary.Load` | Project_Code.c:235-237 | Loading any token sequence into a well-formed table keeps it well formed. |
| `Dictionary.AddToDictionary` | Project_Code.c:44-57 | Copying at most 49 characters, filtering in place, hashing and linking a node at the head gives exactly the table of `Add`. |
| `Dictionary.LoadDictionary` | Project_Code.c:235-237 | The read-and-add loop gives exactly the table of `Load`. |
| `Dictionary.AddKeepsEntries` | Project_Code.c:55-56 | Adding a word never removes a stored entry. |
| `Dictionary.LoadStoresEvery` | Project_Code.c:228-237 | After loading, the key of every token read is stored in the bucket of its hash. |
| `Lookup.EntryAccepts` | Project_Code.c:96 | The test `!strcmp(entry, w) \|\| stringMatch(entry, w)` holds exactly when `w` occurs in the entry: the equality disjunct never decides anything. |
| `Lookup.ChainAccepts` | Project_Code.c:94-100 | The chain walk accepts exactly when some entry of the chain contains the query. |
| `Lookup.IsCorrectWord` | Project_Code.c:88-101 | A word is accepted exactly when some entry in the bucket of its key contains that key as a substring. |
| `Lookup.IsCorrectWordLoop` | Project_Code.c:88-101 | Normalising, hashing and walking the chain with the early `return 1` gives exactly `IsCorrectWord`. |
| `Lookup.AddThenCorrect` | Project_Code.c:88-101 | A word just added is accepted. |
| `Lookup.AddKeepsCorrect` | Project_Code.c:55-56 | Adding a word never turns an accepted query into a rejected one. |
| `Lookup.LoadThenCorrect` | Project_Code.c:235-237 | Every token of the dictionary file is accepted once the file is loaded. |
| `Lookup.CorrectOnlyWithinBucket` | Project_Code.c:94 | In a well-formed table, an accepting entry always hashes to the query's own bucket. |
| `Lookup.SubstringOutsideBucketRejected` | Project_Code.c:94-96 | With only "category" stored, "cat" is rejected. |
| `Similarity.Lcs` | Project_Code.c:111-119 | The score never exceeds either word's length. |
| `Similarity.LcsIsUpperBound` | Project_Code.c:103-124 | No common subsequence of the two words is longer than the score. |
| `Similarity.LcsIsAttained` | Project_Code.c:103-124 | Some common subsequence is exactly as long as the score. |
| `Similarity.LcsSymmetric` | Project_Code.c:152 | Swapping the query and the dictionary word does not change the score. |
| `Similarity.LcsSelfAndEmpty` | Project_Code.c:113-114 | A word scores its full length against itself and 0 against the empty word. |
| `Similarity.LcsSameLastLetter` | Project_Code.c:145-152 | Two non-empty words that end in the same letter score at least 1. |
| `Similarity.LcsPrefixStep` | Project_Code.c:113-118 | The score of two prefixes follows the cell rule of `dp[i][j]`. |
| `Similarity.LcsRow` | Project_Code.c:112-119 | Filling row `i` left to right makes every cell of rows 0 to `i` hold the score of the matching prefixes. |
| `Similarity.LcsTable` | Project_Code.c:103-125 | `LCS` returns the longest-common-subsequence length, which lies between 0 and both lengths. |
| `Candidates.Plausible` | Project_Code.c:135-148 | No normalised word passes the four-part test for the empty query, whose first and last letters are NUL. |
| `Candidates.Entries` | Project_Code.c:141-143 | Everything the scan visits is stored in some bucket. `Candidates.EntriesContains` gives the converse. |
| `Candidates.Matching` | Project_Code.c:141-159 | Each candidate of an unbounded scan is a scanned word that passes the four-part test. It has weight 1 and its profit is its score. |
| `Candidates.Cap` | Project_Code.c:150 | The kept candidates are a prefix of the matches. They are all of the matches when there are at most 1000, and exactly the first 1000 otherwise. |
| `Candidates.FindCandidates` | Project_Code.c:133-159 | At most 1000 candidates, each a stored word passing the test, with weight 1. Each profit is the score, at most the query length, and at least 1 for a non-empty query. |
| `Candidates.EntriesContains` | Project_Code.c:141-143 | The bucket-by-bucket scan visits every stored word. |
| `Candidates.MatchingComplete` | Project_Code.c:144-155 | Every scanned word that passes the test becomes a candidate. |
| `Candidates.FindCandidatesComplete` | Project_Code.c:141-159 | Below the buffer limit, every stored word that passes the test is a candidate. |
| `Candidates.EmptyQueryMatchesNothing` | Project_Code.c:135-136 | With the NUL first letter of the empty query, no normalised word qualifies. |
| `Candidates.EmptyQueryNoCandidates` | Project_Code.c:133-148 | A well-formed table yields no candidates for an empty query. |
| `Candidates.MatchingSnoc` | Project_Code.c:143-157 | Scanning one more entry appends that entry's candidate exactly when it passes the test. |
| `Candidates.CapSnoc` | Project_Code.c:150-155 | A new match is appended only while fewer than 1000 are held. |
| `Candidates.ScanChain` | Project_Code.c:142-158 | The walk of one chain extends the capped candidate list exactly as scanning those entries would. |
| `Candidates.CollectCandidates` | Project_Code.c:141-159 | The nested scan loops, calling `LCS`, build exactly `FindCandidates`. |
| `Knapsack.Init` | Project_Code.c:164-167 | The initial table is 4 x 4. |
| `Knapsack.Relaxed` | Project_Code.c:175-177 | A cell never decreases, and it ends at least as high as taking this candidate on top of the reachable cell one item and `w` weight lower. When it changes, it becomes exactly that value. |
| `Knapsack.Relax` | Project_Code.c:173-181 | One candidate's pass keeps a 4 x 4 table. No cell decreases, and row 0 (no items) is untouched. |
| `Knapsack.Fill` | Project_Code.c:169-182 | Offering all candidates keeps a 4 x 4 table whose row 0 stays as initialised: profit 0 at weight 0, -1 elsewhere. |
| `Knapsack.Best` | Project_Code.c:164-182 | The reference optimum for exactly `k` items: -1 for more items than candidates, and non-negative otherwise when profits are non-negative. |
| `Knapsack.BestIsUpperBound` | Project_Code.c:169-182 | No choice of `k` distinct candidates has a larger total than `Best`. |
| `Knapsack.BestIsAttained` | Project_Code.c:169-182 | Some choice of `k` distinct candidates reaches `Best`. |
| `Knapsack.BestIncreasing` | Project_Code.c:184-195 | With profits of at least 1, one more item gives a strictly larger best total. |
| `Knapsack.BestConcave` | Project_Code.c:169-182 | The gains of the best total never grow: one more item adds at most what the previous one added. |
| `Knapsack.GainOfSnoc` | Project_Code.c:169-182 | After offering one more candidate with profit `x`, each gain of the best total is `x` or a gain from before. |
| `Knapsack.BestGainIsAProfit` | Project_Code.c:169-182 | Each gain of the best total, from `k - 1` to `k` items, is the profit of some candidate. |
| `Knapsack.FillDiagonal` | Project_Code.c:169-182 | With unit weights and non-negative profits, `dp[k][j]` is -1 off the diagonal, and `dp[k][k]` is the best total of `k` distinct candidates. |
| `Knapsack.RelaxRow` | Project_Code.c:174-180 | The downward weight loop sets row `k` to the relaxed values and leaves every other row alone. |
| `Knapsack.FillTable` | Project_Code.c:164-182 | The in-place loops on the array produce exactly the `Fill` table. |
| `Selection.FindBest` | Project_Code.c:184-195 | The scan returns the maximum of the table and the first cell in row-major order holding it. With no reachable cell it returns (0, 0). |
| `Selection.Pick` | Project_Code.c:202-211 | The walk adds at most `remaining_k` picks. |
| `Selection.PickStep` | Project_Code.c:206 | A candidate is taken exactly when its weight fits and the two cells differ by its profit. |
| `Selection.PickBelow` | Project_Code.c:202-211 | Every pick is an index into the candidate list. |
| `Selection.Reconstruct` | Project_Code.c:197-211 | The loop returns the walk's picks, at most `best_k` of them, in strictly decreasing candidate order, with the matching candidates. |
| `Selection.BestStrictlyIncreasing` | Project_Code.c:184-195 | With profits of at least 1, the best total grows strictly with the number of items. |
| `Selection.FirstMaxIsSettled` | Project_Code.c:184-195 | With unit weights and profits of at least 1, the best scan settles on the diagonal cell `(min(3, n), min(3, n))`, and its maximum is the best total for that many items. |
| `Selection.WalkMeetsGain` | Project_Code.c:202-211 | If some candidate's profit equals the gain `dp[K][K] - dp[K-1][K-1]`, the walk from `(K, K)` takes at least one candidate. |
| `Selection.SelectionNonEmpty` | Project_Code.c:197-211 | With unit weights, profits of at least 1 and at least one candidate, the walk from the settled cell takes at least one candidate. |
| `Selection.SelectSuggestions` | Project_Code.c:164-211 | At most three distinct input candidates come out, in decreasing candidate order, and none for an empty list. With unit weights and positive profits, the picks are the walk from `(min(3, n), min(3, n))` over the filled table, and at least one comes out whenever there is a candidate. |
| `Selection.Suggestions` | Project_Code.c:127-211 | At most three suggestions. |
| `Selection.SuggestionsNonEmpty` | Project_Code.c:197-220 | A word with letters that has at least one candidate gets at least one suggestion. |
| `Selection.SuggestCorrections` | Project_Code.c:127-225 | At most three words, each a stored word passing the candidate test. There are none when there is no candidate, or when the query has no letters and the table is well formed. For a query with letters they are exactly `Suggestions`, and there is at least one whenever there is a candidate. |
| `Selection.ExampleBest` | Project_Code.c:164-182 | For profits 5, 3, 2, 4 the best totals of one, two and three items are 5, 9 and 12. |
| `Selection.ReconstructionNotOptimal` | Project_Code.c:197-211 | For profits 5, 3, 2, 4 the optimum is 12, reached by candidates 0, 1 and 3, yet the walk picks only candidate 1. |
| `SpellChecker.Processed` | Project_Code.c:255 | The loop handles a prefix of the tokens: the first `limit` of them, and none for a non-positive limit. |
| `SpellChecker.Accepted` | Project_Code.c:256-258 | Because the loop filters before `isCorrectWord` truncates, the key looked up is the first 49 letters of the token. A token is accepted exactly when some entry in that key's bucket contains the key. |
| `SpellChecker.Verdicts` | Project_Code.c:255-258 | There is one verdict per token handled. |
| `SpellChecker.VerdictsAt` | Project_Code.c:256-258 | The k-th verdict is `isCorrectWord` applied to the filtered k-th token. |
| `SpellChecker.Rejected` | Project_Code.c:260-262 | Every misspelt word listed is the filtered form of a token whose verdict is incorrect. |
| `SpellChecker.CountsPartition` | Project_Code.c:258-264 | Every token is counted exactly once: correct plus incorrect equals the tokens handled. |
| `SpellChecker.VerdictsPrefix` | Project_Code.c:255 | The verdicts on a prefix of the text are the prefix of the verdicts. |
| `SpellChecker.AcceptedShortToken` | Project_Code.c:256-258 | For a token of at most 49 characters, filtering before the lookup changes nothing. |
| `SpellChecker.DictionaryTextAllCorrect` | Project_Code.c:255-264 | A text made only of dictionary words is all correct, with nothing misspelt. |
| `SpellChecker.CountCorrectMonotone` | Project_Code.c:255 | A larger limit never lowers the correct count. |
| `SpellChecker.TallyStep` | Project_Code.c:256-264 | One pass of the loop body keeps the counts, verdicts and reports in step with the tokens handled. |
| `SpellChecker.CheckWord` | Project_Code.c:256-263 | The verdict is the loop's test and the report names the filtered token. A rejected token carries what `suggestCorrections` offers. |
| `SpellChecker.ProcessWords` | Project_Code.c:241-270 | The function processes `min(limit, tokens)` words, none for a non-positive limit. `correct + incorrect` is that total, and `correct` counts the accepted ones. There is one report per incorrect token, naming the filtered tokens in reading order, each with its suggestions. |

## Left out

- Timing is not modelled. This covers `clock_gettime`, `diff_in_ms` and the
  global millisecond accumulators, which have no effect on results.
- File and console I/O is not modelled: `fopen`/`fclose`, the error exits
  when a file cannot be opened, the `fprintf` text of a report, and `main`
  with its CSV files. Inputs become token sequences, and output becomes
  `Report` values.
- `malloc` failure and `exit(1)` in `addToDictionary` are not modelled; the
  model has unbounded memory.
- Tokens of 50 or more characters overflow the 50-byte `fscanf` buffer in the
  C code, which is undefined behaviour. The model filters the whole token
  instead. `SpellChecker.AcceptedShortToken` covers tokens that fit.
- Locale-dependent `isalpha`/`tolower`, signed `char` and non-ASCII bytes are
  not modelled. Characters are ASCII, and strings are the contents of C
  strings, so they contain no NUL.
- `unsigned long` is taken as 64 bits. On a platform with a 32-bit `long` the
  buckets would differ.
- The stack size of the variable-length `dp` array in `LCS` is not modelled.
- The loop of `processWordsFromFile` reads one extra token before checking
  the limit. The model does not model that read, because it has no effect
  beyond the file position.
- `Selection.SuggestCorrections`: for a query with no letters it states "no
  suggestions" only for a well-formed table. A table built by `Add` is always
  well formed.
- `Selection.SelectSuggestions`: the picks are characterised through the walk
  only for unit weights and profits of at least 1. These are the only inputs
  `suggestCorrections` produces.
- `Selection.Suggestions`: its contract gives only the size bound. What the
  suggestions are is stated by `Selection.SuggestCorrections`,
  `Selection.SuggestionsNonEmpty` and `Selection.ReconstructionNotOptimal`.
