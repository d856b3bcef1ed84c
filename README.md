# ngram counter, modelled in Dafny

`ngram_counter.cpp` counts the n-grams of all `.txt` files under a directory. A fixed
pool of `num_threads` workers takes part. Each worker claims files through a shared
atomic index and counts their n-grams into a local map. It then cuts that map into one
bucket per worker, chosen by `hash(ngram) % num_threads`, and hands bucket `t` to worker
`t` through a matrix of promises. Finally each worker sums the buckets it receives and
prints its five most frequent n-grams.

This project models that computation sequentially and proves the following about it:

- **Character maps.** The three per-character maps do what they are meant to, and the
  normalised text keeps only the characters the tokenizer expects.
- **Tokenizer.** Every counted key is an n-gram of `[a-z]+` words taken from one clause.
  For `n >= 1`, a clause of `w` words adds `max(0, w - n + 1)` counts; for `n = 0` it adds none.
- **Shuffle.** Partitioning loses and duplicates nothing, and every n-gram ends up at
  exactly one worker, its owner, with its corpus-wide count. The total is conserved.
  With one worker the shuffle changes nothing.
- **Top five.** The selection is a correct top five, with ties left unordered.

Modules, one file each:

| module | file | what it holds |
|---|---|---|
| `Text` | `text.dfy` | the three character maps; splitting on `'\|'`; words as maximal `[a-z]` runs |
| `Counts` | `counts.dfy` | `std::map<std::string, uint64_t>` as `map<string, nat>`; `operator[]` reads 0 for a missing key; totals |
| `Tokenizer` | `tokenizer.dfy` | `process_file` as methods: the in-place transforms of a `char` array, then the loops over clauses, words and windows |
| `Shuffle` | `shuffle.dfy` | partition of a local map into buckets, and the merge by summation of the buckets a worker receives |
| `TopFive` | `topfive.dfy` | the five-slot selection and the printed report lines |
| `NgramCounter` | `ngram_counter.dfy` | `compute`: claiming and counting files, the promise matrix, the reduction, and the end-to-end theorems |
| `Scenario` | `scenario.dfy` | the sentence "The cat sat. The cat ran." worked out in bigrams |

Representation choices:

- File contents are a `string`, with one `char` per byte of the file.
- `std::hash<std::string>` is a parameter `owner: string -> nat`, so nothing proved
  depends on its values.
- The files are given as a sequence of contents.
- Each method is proved against a specification function:
  - `ProcessFile` returns `Bump(freq, FileNgrams(contents, ngram))`.
  - `Partition` returns buckets whose maps are `Bucket(local, ...)`.
  - `Merge` returns `MergeAll(updates)`.
  - `TopFive` returns a vector satisfying `IsTopFive`.
  - `Compute` returns `Expected(files, numThreads, ngram, owner)`. This does not depend
    on which worker claimed which file.
- The lemmas state what the source promises about those functions.

## Model

| member | source | states |
|---|---|---|
| Text.ToLowerCase | ngram_counter.cpp:138-141 | a char changes iff it is upper case (65..90), and then it becomes the lower-case letter at the same alphabet position |
| Text.ToLowerCaseIdempotent | ngram_counter.cpp:138-141 | no upper-case letter remains after lower-casing, so a second pass changes nothing |
| Text.RemoveNewlineAndTab | ngram_counter.cpp:143-146 | a char changes iff it is tab (9) or newline (10), and then only into a space (32) |
| Text.RemoveNewlineAndTabIdempotent | ngram_counter.cpp:143-146 | no tab or newline remains, so a second pass changes nothing |
| Text.RemovePunctuationAndNumbers | ngram_counter.cpp:148-151 | a char comes out as `'\|'` iff it is in 33..64, 91..96 or 123..126 or already is `'\|'`; a char outside those ranges is unchanged |
| Text.RemovePunctuationAndNumbersIdempotent | ngram_counter.cpp:148-151 | the only punctuation left is `'\|'` itself, and a second pass changes nothing |
| Text.NormalizeClasses | ngram_counter.cpp:160-162 | after the three maps in source order: no char in 65..90, 9, 10 or 33..64 remains; a char becomes `[a-z]` iff it was a letter of either case; it becomes `'\|'` iff it was punctuation or a digit; it becomes a space iff it was a space, tab or newline; every other char is unchanged |
| Text.NormalizeIdempotent | ngram_counter.cpp:160-162 | applying the three maps twice gives the same text as applying them once |
| Text.NormalizeText | ngram_counter.cpp:160-162 | the normalised text has the same length; no position holds an upper-case letter, tab, newline or a char of 33..64; a position holds `[a-z]` iff the contents held a letter of either case there, `'\|'` iff they held punctuation or a digit, and a space iff they held a space, tab or newline |
| Text.Split | ngram_counter.cpp:164-169 | at least one piece, and no piece contains the separator |
| Text.JoinSplit | ngram_counter.cpp:164-169 | joining the pieces back with the separator gives the original text: the split loses nothing |
| Text.SplitJoin | ngram_counter.cpp:164-169 | splitting undoes joining for separator-free pieces |
| Text.LetterRun | ngram_counter.cpp:175-178 | the length of the maximal run of `[a-z]` at the start of a string |
| Text.Words | ngram_counter.cpp:175-178 | every token of a clause is a non-empty run of `[a-z]` |
| Text.WordsSeparated | ngram_counter.cpp:175-178 | any non-letter char, such as a space or `'\r'`, separates words: the words of `a + [c] + b` are those of `a` followed by those of `b` |
| Text.WordsOfJoin | ngram_counter.cpp:175-178 | tokenizing words joined by single spaces gives back those words |
| Tokenizer.Transform | ngram_counter.cpp:160-162 | `std::transform` in place: every array cell becomes the map of its old value |
| Tokenizer.NormalizeBuffer | ngram_counter.cpp:159-162 | the buffer after the three transforms is the normalised contents |
| Tokenizer.Windows | ngram_counter.cpp:178-195 | a clause yields at most one window per word, and at least one window iff `1 <= n <=` its number of words (so none for `n = 0`) |
| Tokenizer.GrowWindow | ngram_counter.cpp:181-191 | the inner loop joins `min(ngram, words left)` words (at least one) with single spaces, so the window is complete exactly when `n == ngram` |
| Tokenizer.CountWindowAt | ngram_counter.cpp:180-195 | one iteration over the words increments the count of the `i`-th window of the clause when that window exists, and changes nothing otherwise |
| Tokenizer.CountClause | ngram_counter.cpp:178-196 | the loops over one clause count exactly the windows of its words, in order |
| Tokenizer.CountClauses | ngram_counter.cpp:169-198 | the loop over clauses skips empty ones and counts the windows of every other one |
| Tokenizer.ProcessFile | ngram_counter.cpp:153-199 | `local_freq` after processing is the old map bumped once per n-gram of the file |
| Tokenizer.WindowsLength | ngram_counter.cpp:178-195 | a clause of `w` words yields `w - n + 1` windows when `w >= n >= 1`, and none otherwise (none at all for `n = 0`) |
| Tokenizer.WindowAt | ngram_counter.cpp:180-191 | the `i`-th window is words `i .. i + n` of the clause joined by spaces |
| Tokenizer.WindowIsNgram | ngram_counter.cpp:180-191 | every window has the n-gram shape and tokenizes back to its consecutive words of the clause |
| Tokenizer.ClauseNgramsOrigin | ngram_counter.cpp:169-198 | every counted n-gram is a window of one single non-empty clause |
| Tokenizer.FileNgramShape | ngram_counter.cpp:164-195 | every key a file adds is `n` words of `[a-z]+` joined by single spaces, all from one `'\|'`-free clause |
| Tokenizer.ClauseEffect | ngram_counter.cpp:178-195 | a clause of `w` words adds `max(0, w - n + 1)` to the total for `n >= 1`, and 0 when `n = 0`; no count decreases; keys not emitted keep their count |
| Tokenizer.ProcessFileEffect | ngram_counter.cpp:153-199 | processing a file raises each count by exactly its occurrences, never lowers one, leaves keys not emitted unchanged, and raises the total by the number of n-grams |
| Tokenizer.EmptyFile | ngram_counter.cpp:164-171 | an empty file yields no n-gram |
| Counts.Count | ngram_counter.cpp:97 | `m[k]` as `operator[]` reads it: the stored count of a present key, 0 for a missing one (a definition, with no contract of its own) |
| Counts.Bump | ngram_counter.cpp:194 | counting a sequence of n-grams only ever adds keys, never removes one |
| Counts.Inc | ngram_counter.cpp:194 | `local_freq[k]++` adds `k` if missing, raises its count by one and leaves every other count alone |
| Counts.CountBump | ngram_counter.cpp:194 | after the increments, each count is the old count plus the key's occurrences, and a key is present iff it was present or occurs |
| Counts.TotalBump | ngram_counter.cpp:194 | each increment adds one to the total |
| Counts.BumpPositive | ngram_counter.cpp:194 | counting never stores a zero count |
| Shuffle.Destination | ngram_counter.cpp:81 | the assigned thread `hash % num_threads` is always one of the workers |
| Shuffle.Bucket | ngram_counter.cpp:78-83 | the entries routed to worker `i`: a sub-map of the local map with the same counts, all with destination `i`, and empty for `i >= num_threads` |
| Shuffle.Partition | ngram_counter.cpp:77-83 | `num_threads` buckets; each has distinct keys and holds exactly the pairs of the local map whose destination is that bucket |
| Shuffle.BucketsPartition | ngram_counter.cpp:81 | every key of the local map lands in exactly one bucket, `owner(key) % num_threads < num_threads`, with its count |
| Shuffle.PushPair | ngram_counter.cpp:82 | pushing a pair with a new key keeps the bucket duplicate-free and adds exactly that entry |
| Shuffle.BucketsConserve | ngram_counter.cpp:77-83 | the totals of all buckets add up to the total of the local map: nothing is lost |
| Shuffle.DistinctPairsAt | ngram_counter.cpp:77-83 | every pair of a duplicate-free bucket is read back from the bucket's map |
| Shuffle.SingleBucket | ngram_counter.cpp:81 | with one worker its bucket is the whole map |
| Shuffle.Merge | ngram_counter.cpp:91-99 | the receiving loops compute the fold of `reduced_freq[ngram] += cnt` over every sender's bucket |
| Shuffle.Add | ngram_counter.cpp:97 | `reduced_freq[ngram] += cnt` adds the key if missing, raises its count by `cnt` and leaves every other count alone |
| Shuffle.CountAddPairs | ngram_counter.cpp:95-98 | adding a bucket raises each count by the sum of that key's counts in the bucket |
| Shuffle.CountMergeAll | ngram_counter.cpp:91-99 | the merged count of a key is the sum of its counts over all senders' buckets |
| Shuffle.MergeColumn | ngram_counter.cpp:85-99 | if each sender delivered its bucket `t`, the merged map of worker `t` is bucket `t` of the summed local maps |
| Shuffle.ColumnCount | ngram_counter.cpp:85-99 | the count a receiver collects for a key is its sum over all workers when the receiver owns it, else 0 |
| Shuffle.MergedTotals | ngram_counter.cpp:91-99 | receivers that each hold their own bucket hold together the sum of the bucket totals |
| Shuffle.CountCombined | ngram_counter.cpp:78-99 | summing local maps key by key gives each key its sum of counts |
| Shuffle.TotalCombined | ngram_counter.cpp:78-99 | the total of the summed maps is the sum of the local totals |
| Shuffle.CombinedSingle | ngram_counter.cpp:78-99 | the sum of a single local map is that map |
| TopFive.InsertSorted | ngram_counter.cpp:101-108 | inserting into a descending prefix shifts the smaller entries up by one and keeps the prefix descending |
| TopFive.Offer | ngram_counter.cpp:101-108 | offering one more entry keeps the selection a correct top five of the entries seen so far |
| TopFive.ProgressReplace | ngram_counter.cpp:101-108 | once five are held, a strictly larger entry pushes out the smallest and the selection stays correct |
| TopFive.ProgressSkip | ngram_counter.cpp:101-108 | once five are held, an entry no larger than the smallest is passed over and the selection stays correct |
| TopFive.IsTopFive | ngram_counter.cpp:101-108 | the contract of `partial_sort_copy` with the greater-count comparison; it implies that the first slot holds a largest count of the map, and that no entry left out has a larger count than any selected one |
| TopFive.TopFive | ngram_counter.cpp:101-108 | length 5; the first `min(5, \|m\|)` slots hold distinct entries of the map in non-increasing count order; no entry left out has a larger count than the last one selected; the other slots stay `("", 0)` |
| TopFive.ReportLine | ngram_counter.cpp:115-122 | a slot prints `...` iff its count is 0; otherwise it prints its own n-gram and count |
| TopFive.Report | ngram_counter.cpp:113-122 | one line per slot, `...` exactly for the slots of count 0, and the slot itself for every other |
| TopFive.ReportPlaceholders | ngram_counter.cpp:113-122 | a slot prints as `...` exactly when it is at or beyond the number of distinct n-grams; the others print their n-gram and count |
| NgramCounter.CountFiles | ngram_counter.cpp:65-73 | every file is claimed by exactly one worker, and each worker's local map counts the n-grams of the files it claimed, in claiming order |
| NgramCounter.WorkerLocalsSnoc | ngram_counter.cpp:70-73 | claiming a file adds its n-grams to the claiming worker's map and to no other |
| NgramCounter.WorkersCoverCorpus | ngram_counter.cpp:65-73 | however the files are claimed, the local maps together count every n-gram of the corpus exactly once, per key and in total |
| NgramCounter.SingleWorker | ngram_counter.cpp:65-73 | a single worker's local map is the count of the whole corpus |
| NgramCounter.TallyCounts | ngram_counter.cpp:194 | counting into an empty map gives each key its occurrences; keys are exactly the emitted n-grams; counts are positive; the total is the number of n-grams |
| NgramCounter.CombinedIsTally | ngram_counter.cpp:65-99 | the local maps summed key by key are the counts of the whole corpus |
| NgramCounter.ShuffleLocals | ngram_counter.cpp:76-88 | promise `(t, s)` of the matrix holds sender `s`'s bucket `t`, duplicate-free, for every pair of workers |
| NgramCounter.ReduceAll | ngram_counter.cpp:90-108 | worker `t` ends with bucket `t` of the summed local maps, and with a correct top five of it |
| NgramCounter.Compute | ngram_counter.cpp:25-136 | with no worker nothing is claimed or reported. Otherwise every file is claimed by some worker and each local map counts the files its worker claimed. Each merged map is the owner's bucket of the corpus counts, whatever the claiming order, and each report is a correct top five of it |
| NgramCounter.ExpectedOwnership | ngram_counter.cpp:76-99 | an n-gram is in worker `t`'s merged map iff it occurs in the corpus and `t` is its owner; its count there is its number of occurrences in the whole corpus |
| NgramCounter.ExpectedConservation | ngram_counter.cpp:76-99 | the merged counts of all workers add up to the number of n-gram windows of the corpus (that the local counts add up to the same number is `NgramCounter.WorkersCoverCorpus`) |
| NgramCounter.ExpectedSingle | ngram_counter.cpp:78-99 | with one worker, the merged map equals the local map |
| NgramCounter.CorpusOrigin | ngram_counter.cpp:70-73 | every n-gram of the corpus comes from one of its files |
| NgramCounter.ExpectedShape | ngram_counter.cpp:164-195 | every key any worker reports is `n` words of `[a-z]+` joined by single spaces |
| Scenario.SampleNgrams | ngram_counter.cpp:153-199 | "The cat sat. The cat ran." gives clauses "the cat sat", " the cat ran" and an empty one, and bigrams "the cat", "cat sat", "the cat", "cat ran" |
| Scenario.SampleReport | ngram_counter.cpp:101-123 | one worker on that file holds {"the cat": 2, "cat sat": 1, "cat ran": 1} and reports "the cat: 2" first, the two others next in either order, then two `...` lines |

## Left out

- Reading the file (`std::ifstream`, `rdbuf`, lines 156-158) is left out: the model takes the contents as a string. A file that cannot be opened reads as empty contents, and `Tokenizer.EmptyFile` covers that case.
- The directory scan `utils::find_all_files` (lines 30-31) is left out: it is a filesystem operation whose code is not part of this model. The files are given as a sequence of contents.
- Threads, the atomic `global_index`, the promise and future matrix, and the mutex (lines 28, 34, 38-63, 70, 87, 94, 111, 126-135) are not modelled as concurrency:
  - The claiming of files is a loop in which each next index goes to an arbitrary worker (`:|`), so every interleaving of the fetch-and-add is covered.
  - The promise matrix is an `array2`. `ShuffleLocals` sets each cell once, in its loops over senders and receivers. This holds by the structure of those loops; no contract states it. `ReduceAll` then only reads the matrix; it has no `modifies` clause.
  - So all writes come before all reads. This stands in for the blocking `get()`. Deadlock and thread failure are not modelled.
- `std::hash<std::string>` is implementation-defined. It is the abstract parameter `owner`.
- The `std::regex` engine is not modelled; `Text.Split` and `Text.Words` model its effect.
  - `sregex_token_iterator` with `-1` yields one empty piece for empty text, as `Text.Split` does. It drops the empty piece after a final `'|'`, which `Text.Split` keeps.
  - Empty clauses are skipped (line 171), so both give the same n-grams.
- `Counts.Inc`: does not model `uint64_t` wrap-around of counts, because counts are `nat`. Overflow would need more than 2^64 n-grams.
- `std::cout` output (lines 112-122) is not modelled character by character. Only the line rule is modelled: count 0 prints `...`, otherwise `ngram: count` (`TopFive.Report`). The `Thread t:` header and the interleaving of blocks between threads are not modelled.
- `TopFive.TopFive`: does not fix which of several equal-count entries is selected, nor their order. `partial_sort_copy` is not stable, and the source promises only descending counts. The model fills the five slots by offering entries one at a time in arbitrary map order. That does not copy the heap steps of `partial_sort_copy`; it meets the same contract.
- `Shuffle.Partition`: the source visits `local_freq` in ascending key order (line 78), so each bucket lists its pairs in that order. The model visits the keys in arbitrary order (`:|`), so the order of pairs inside a bucket is not modelled. The merge cannot observe it: `Shuffle.MergeColumn` holds for any order that delivers the right bucket.
- `TopFive.TopFive`: the source iterates `reduced_freq` in ascending key order. The model iterates in arbitrary order, since no property depends on it.
- `ngram == 0`: the code counts nothing, because `n` starts at 1 and never equals 0. `Tokenizer.WindowsLength` states this. The model follows the code, not a configuration error; the argument checks of `ngram.cpp` are not part of this model.
- `num_threads == 0`: no worker starts, so nothing is counted or printed. `NgramCounter.Compute` returns empty results and claims no file.
- `ngram.cpp` (command-line handling) is not part of this model.
- Bytes of 128 and above: the source's `char` may be signed, so such bytes are negative there. Every range the maps test lies in 9..126, so these bytes pass through unchanged both in the source and in the model, and they are never word characters.
