# Byte-pair-encoding trainer, modelled in Dafny

This project models the core of a byte-level BPE (byte-pair encoding)
tokenizer trainer and proves properties of the model.

- **`train_bpe`** (`cs336_basics/train_bpe.py`) builds a vocabulary.
  - It starts from the 256 single bytes, followed by the special tokens.
  - It then repeatedly merges the most frequent pair of adjacent tokens in a
    table of pre-tokenized words. Ties go to the pair whose byte strings are
    largest.
  - It keeps three tables and updates them after every merge, so nothing is
    recounted from scratch:
    - the word counts;
    - the pair counts ("candidates");
    - an index from each pair to the words that contain it ("used words").
- **`find_chunk_boundaries`** and the aggregation loop
  (`cs336_basics/pretokenization.py`) do two jobs:
  - cut the input file at occurrences of a special token, searching forward
    4096 bytes at a time;
  - add up the per-chunk word counts.
- **`cs336_basics/experimental.py`** is the earlier trainer. It re-sorts all
  pairs after every merge and rewrites the word table through `update_counts`.
  It serves here as a reference for the incremental trainer.

Files:

- `Words.dfy`: pairs in a word (`PairCount`, `HasPair`, `PairSet`) and the
  greedy left-to-right rewrite `Merge` that both trainers perform.
- `Tables.dfy`:
  - Counter operations (`Get`, `AddTo`, `CounterUpdate`);
  - the pair counts a word table implies (`Weighted`);
  - the word index (`IndexOf`);
  - the table a merge produces (`MergedCounts`), with its order-independence
    lemmas.
- `Reference.dfy`: `experimental.py`, over string tokens.
- `Trainer.dfy`: `train_bpe.py`, over integer token ids.
- `Pretokenization.dfy`: chunk boundaries and aggregation, over a byte sequence.
- `Wrappers.dfy`: `Option` and `Result`.

Python dictionaries that a loop updates become map-valued variables of a
method, and the method returns the new maps. The Python callers reassign the
returned tables anyway.

A Python exception becomes an `Err` result:

- `max_pair[0]` on an empty list raises `IndexError`;
- `used_words[best_pair]` on a missing key raises `KeyError`.

`train_bpe` reaches one of these only when no pair occurs in the word table
any more. Its `candidates` table can keep zero-count pairs that the word index
no longer has; for example, `(t, A)` is left behind after `[A, B, A, B]`
becomes `[t, t]`. When every count is zero, `find_best_pair` can return such a
pair, and `update_dictionaries` then fails at line 82. `TrainBpe` proves
exactly this: it returns `Err` only when no pair is left to merge.

A zero-count pair that is still in the index is merged like any other pair.
Such a merge rewrites no word.

## Model

| member | source | states |
|---|---|---|
| Words.MergeLength | cs336_basics/train_bpe.py:89-118 | the rewritten word is shorter than the old one by the number of replaced occurrences, which is at most the number of occurrences of the pair |
| Words.MergeRemovesPair | cs336_basics/train_bpe.py:89-118 | when the new token differs from both halves of the pair, the rewritten word no longer contains the pair |
| Words.MergeFixed | cs336_basics/experimental.py:63-68 | a word without the pair is left unchanged by the rewrite |
| Words.MergeTokens | cs336_basics/train_bpe.py:99-118 | every token of the rewritten word is a token of the old word or the new token |
| Words.HasPairIffCount | cs336_basics/train_bpe.py:127-128 | a word contains a pair exactly when the pair's occurrence count in it is positive |
| Words.PairCountConcat | cs336_basics/train_bpe.py:44-46 | pair occurrences in a concatenation are those of each part plus the one pair that bridges the join |
| Words.GreedyScanEnd | cs336_basics/train_bpe.py:89-118 | the left-to-right scan with the skip flag ends with exactly the greedy rewrite, the last token appended only when it was not consumed by a merge |
| Words.MergeExamples | cs336_basics/train_bpe.py:89-118 | overlapping occurrences are merged left to right: [a,b,a,b] becomes [t,t] and [a,a,b] becomes [a,t] |
| Tables.AddTo | cs336_basics/train_bpe.py:46 | the Counter increment changes exactly one entry by the added amount and keeps the other keys |
| Tables.WeightedSign | cs336_basics/train_bpe.py:43-46 | with positive word counts, a pair's total count is non-negative and positive exactly when some word contains it |
| Tables.WeightedMove | cs336_basics/train_bpe.py:121-124 | replacing a word by its rewrite changes each pair's total by the word's count times the change in its occurrences |
| Tables.WeightedAbsent | cs336_basics/train_bpe.py:43-46 | a pair no word contains has total count zero |
| Tables.AllPairsIff | cs336_basics/train_bpe.py:43-48 | a pair is in the table's pair set exactly when some word contains it |
| Tables.RekeyRemove | cs336_basics/experimental.py:45-69 | the merged table does not depend on the order in which the words are visited |
| Tables.RekeySplit | cs336_basics/experimental.py:45-69 | merging two disjoint parts of a table one after the other equals merging their union |
| Tables.RekeyFixed | cs336_basics/experimental.py:45-69 | when no word contains the pair, the merge leaves the table unchanged |
| Tables.MergedCountsTotal | cs336_basics/experimental.py:45-69 | a merge keeps the total number of word occurrences |
| Tables.MergedCountsValue | cs336_basics/experimental.py:66-69 | a word is in the merged table exactly when some old word rewrites to it, and its count is the sum over those old words |
| Tables.MergedCountsKeeps | cs336_basics/train_bpe.py:121-124 | a word without the pair stays in the merged table and collects its own count plus any rewritten word that collides with it |
| Tables.RekeyAffected | cs336_basics/train_bpe.py:82-124 | rewriting only the words the index lists for the pair gives the same table as rewriting every word |
| Tables.IndexMove | cs336_basics/train_bpe.py:130-137 | replacing a word by a different one removes it from every pair's index entry and adds the new word under exactly its pairs |
| Tables.RekeyValue | cs336_basics/experimental.py:66-69 | each merged count is the old count plus the counts of the words that rewrite to it |
| Tables.RekeyKeys | cs336_basics/experimental.py:66-69 | the merged table's keys are the old keys plus the rewritten words |
| Reference.InsertDesc | cs336_basics/experimental.py:26 | inserting into a list sorted by (count, pair) descending keeps it sorted and adds exactly that item |
| Reference.AboveTotal | cs336_basics/experimental.py:26 | the sort key orders any two distinct pairs (string pairs compare lexicographically) |
| Reference.AboveTransitive | cs336_basics/experimental.py:26 | the sort key is transitive |
| Reference.CountWordPairs | cs336_basics/experimental.py:21-23 | counting one word adds its count once per occurrence of each of its pairs |
| Reference.SortDescending | cs336_basics/experimental.py:26 | the sorted list is descending, lists every pair of the table once, each with its count |
| Reference.FindMergeCandidates | cs336_basics/experimental.py:18-28 | the result lists exactly the pairs occurring in the table, each with its total count, descending by (count, pair) |
| Reference.CandidateListTop | cs336_basics/experimental.py:26-34 | the list is empty exactly when no pair occurs; otherwise its head has the greatest count, and the greatest pair among those tied |
| Reference.RewriteKey | cs336_basics/experimental.py:47-68 | a word is flagged for update exactly when it contains the pair, and the flagged word is rewritten to the greedy merge |
| Reference.UpdateCounts | cs336_basics/experimental.py:42-71 | the new table is the merged table (each word replaced by its rewrite, colliding counts added) |
| Reference.MergePairs | cs336_basics/experimental.py:30-40 | it returns as many merges as asked for; the first is the head of the given list and each later one is a best pair of the table left by the earlier merges; an IndexError occurs only when no pair is left |
| Pretokenization.FindFrom | cs336_basics/pretokenization.py:54 | bytes.find returns the first occurrence at or after the start, or -1 when there is none |
| Pretokenization.Window | cs336_basics/pretokenization.py:43-45 | a read returns at most 4096 bytes, the contiguous bytes of the file from the seek position; it is empty exactly at or past the end, and a short read ends exactly at the end of the file |
| Pretokenization.SnapSpec | cs336_basics/pretokenization.py:40-66 | a boundary moves to the end of the file or to an occurrence of the special token at or after the guess; every earlier occurrence straddles two 4096-byte reads |
| Pretokenization.SearchFrom | cs336_basics/pretokenization.py:41-66 | the read-ahead loop computes the snapped boundary and the backup boundary of one guess |
| Pretokenization.SortedUnique | cs336_basics/pretokenization.py:70 | sorted(set(...)) is strictly increasing and holds exactly the values of its input |
| Pretokenization.IncreasingUnique | cs336_basics/pretokenization.py:70 | two strictly increasing lists with the same values are equal |
| Pretokenization.FindChunkBoundaries | cs336_basics/pretokenization.py:9-70 | the boundaries are strictly increasing, start at 0, end at the file size, number at most n+1, and are exactly the snapped uniform guesses; the backup boundaries are computed for each guess |
| Pretokenization.BoundariesSpec | cs336_basics/pretokenization.py:31-32 | the deduplicated snapped guesses start at 0 and end at the file size |
| Pretokenization.AggregateCounts | cs336_basics/pretokenization.py:103-106 | the merged table has exactly the words of some chunk, each with the sum of its chunk counts; no chunks is an IndexError |
| Pretokenization.SumAtPermutation | cs336_basics/pretokenization.py:103-106 | the merged counts do not depend on the order in which the chunk tables arrive |
| Trainer.IndexWordPairs | cs336_basics/train_bpe.py:44-48 | indexing one word adds its count per pair occurrence and lists the word under exactly its pairs |
| Trainer.FindInitialMergeCandidates | cs336_basics/train_bpe.py:39-50 | the pair table holds each occurring pair with its total count and the index lists, per pair, exactly the words that contain it |
| Trainer.MaxCountPairs | cs336_basics/train_bpe.py:54-64 | the scan finds the greatest count (at least 0) and keeps, in visiting order, exactly the pairs with that count |
| Trainer.GreatestKey | cs336_basics/train_bpe.py:67-68 | the chosen tied pair has the greatest byte key, and it is the first such pair, as a stable descending sort keeps it |
| Trainer.FindBestPair | cs336_basics/train_bpe.py:52-70 | an IndexError occurs exactly when every count is negative (in particular for an empty table); otherwise the pair has the greatest count, and no tied pair has a greater byte key |
| Trainer.TiedMember | cs336_basics/train_bpe.py:54-64 | a pair is kept by the scan exactly when it is visited and has the greatest count |
| Trainer.BytesLessTotal | cs336_basics/train_bpe.py:68 | byte strings compare as Python compares bytes, and the order is total |
| Trainer.RewriteWord | cs336_basics/train_bpe.py:84-118 | the word is rewritten to the greedy merge and the correction table moves each pair's total exactly as the rewrite changes it |
| Trainer.ScanEnd | cs336_basics/train_bpe.py:89-118 | the skip/last_pair scan yields the greedy merge, with corrections that account for every pair on both sides of each merge |
| Trainer.Unlink | cs336_basics/train_bpe.py:131-133 | the old word is removed from the index entry of each of its pairs except the merged one; other entries are kept |
| Trainer.Link | cs336_basics/train_bpe.py:135-137 | the new word is added to the index entry of each of its pairs, creating missing entries |
| Trainer.ProgressEnd | cs336_basics/train_bpe.py:140-144 | once every listed word is rewritten, adding the corrections with Counter.update (line 140) leaves the merged pair at count 0 (the assert at line 141 holds), and after the deletions the pair counts equal the recount of the merged word table and the index is exact again |
| Trainer.UpdateDictionaries | cs336_basics/train_bpe.py:73-146 | a KeyError occurs exactly when the pair has no index entry; otherwise the word table becomes the merged table, the pair counts and index agree with it exactly, and the merged pair is gone from both |
| Trainer.InitialVocab | cs336_basics/train_bpe.py:14-15 | ids 0..255 hold the single bytes and ids from 256 hold the special tokens in order |
| Trainer.ChosenIsBest | cs336_basics/train_bpe.py:26 | the pair find_best_pair picks from consistent tables is a best merge of the word table |
| Trainer.NoneOccurs | cs336_basics/train_bpe.py:26 | if every pair count is negative, no pair occurs in the word table |
| Trainer.CountsAfterStep | cs336_basics/train_bpe.py:34 | the word table after one more merge is the merged table of the previous one |
| Trainer.TrainedStep | cs336_basics/train_bpe.py:28-35 | adding a merge keeps the vocabulary layout: the new id holds the concatenated bytes of the pair and the merge list records the two byte strings |
| Trainer.TrainBpe | cs336_basics/train_bpe.py:10-37 | the trainer returns exactly max(vocab_size - 256 - #special, 0) merges; each merge is a best merge of the table the earlier merges left, and the vocabulary holds bytes, specials, then one concatenation per merge; it fails only when no pair occurs any more |

## Left out

- Reading the input file, the regular-expression pre-tokenizer (`split_chunk`,
  `pretokenize_file`, `pre_tokenize`), the process pool, `print`, profiling and
  the `__main__` blocks are not modelled. I/O, concurrency and regular
  expressions are outside the model.
- TrainBpe: the word table is a parameter. Its precondition is what
  pre-tokenization delivers: every count is positive and every token is a byte.
- TrainBpe: special tokens are given as byte strings. Their UTF-8 encoding is
  not modelled.
- TrainBpe: the `vocab` argument of `find_initial_merge_candidates` is unused
  in the source and is dropped.
- FindBestPair: dictionary iteration order becomes an explicit `order`
  parameter that lists each key once. It matters only between tied pairs whose
  byte keys are equal.
- FindChunkBoundaries: the file handle becomes a byte sequence. `seek`, `tell`
  and `read` become `Window` over that sequence.
- FindChunkBoundaries: requires at least one chunk. For n <= 0 the source
  fails, and the model does not reproduce either failure: 0 chunks divide by
  zero at line 27 (ZeroDivisionError), and a negative count leaves the list
  empty, so the assignment at line 32 raises IndexError.
- FindChunkBoundaries: the backup boundaries are returned rather than printed.
  The source only prints them.
- AggregateCounts: `collected` is a sequence of tables, and an empty one gives
  `None`, in place of the `IndexError` of line 103. The per-chunk counting
  itself is not modelled.
- Reference.UpdateCounts and Reference.FindMergeCandidates: token strings are
  `seq<char>`, and the concatenation `"".join` is sequence concatenation.
- Reference.MergePairs: the case where the candidate list runs out becomes an
  `Err` carrying the number of merges done. The `IndexError` message is not
  modelled.
