# bpe in Dafny

A verified model of the two algorithms of the `bpe` crate.

* **Byte-pair-encoding tokenizer** (`src/llm_bpe.rs`). `BpeCore` trains a vocabulary.
  * It holds two tables, `ranks` (token bytes to id) and `encoder` (id to token bytes).
  * Both are seeded with the 256 single-byte tokens.
  * Training then repeatedly merges a most frequent adjacent pair of ids across all words into a new token, and rewrites every word with it.
  * `merge` is the encoding engine. It cuts a byte string into spans: one byte each at first, then repeatedly joining the leftmost adjacent pair whose concatenation has the lowest rank. It keeps a cache of pair ranks and refreshes it with `get_rank`.
  * `pair_split` returns the spans and `pair_encode` their ranks.
* **Byte-pair-substitution compressor** (`src/lib.rs`).
  * `compress` takes byte values that do not occur in the input as codes, handed out smallest first.
  * Pass after pass, it scans the buffer from the left. At each position it looks at the pair starting there. If that pair's count at the start of the pass reaches `max_freq as u32` and the pair has no code yet, the pair gets the least free code, which replaces it in the buffer.
  * A later occurrence of a pair that already got a code is never substituted, because every later pass skips it too, so the result may still contain a coded pair. A pair that overlaps a substitution is left for the next pass.
  * It stops after a pass that substitutes nothing, and returns the buffer with the code table.
  * `decompress` expands the codes again with an explicit stack.

## Modules

* **`pairs.dfy`, module `Pairs`.** The adjacent-pair count both algorithms rely on.
* **`bpe_train.dfy`, module `BpeTrain`.**
  * Rewriting words (`RewriteWord`, `RewriteWords`, specified by the function `Replace`).
  * The pair statistic (`CountStat`, `MostCommonPair`).
  * The class `BpeCore`, whose fields `ranks`, `encoder` and `vocabSize` are the struct's. `Train` updates them in place.
  * The invariant the training loop keeps (`TrainInv`). The tables stay consistent (`Tables`). Entry 256 + m of `encoder` is the concatenation of the m-th merged pair (`MergedBy`). While the tables are in step, every word still expands to its input bytes (`Expands`).
  * A ghost record of training (`Trace`): the words before each merge, the pair merged, which was a most frequent one (`MostFrequent`), and the id it got. Each step's words are the previous step's rewritten with that merge (`ReplaceAll`).
* **`bpe_merge.dfy`, module `BpeMerge`.**
  * `GetRank`, `Merge`, `PairEncode` and `PairSplit`.
  * `Merge` is proved against a cache-free reference, `MergeSpec`. It joins the leftmost lowest-rank pair and recomputes every rank, until no pair has a rank.
  * The cached loop returns exactly the boundaries of that reference.
  * Separate lemmas prove of the reference:
    * the boundaries stay a strictly increasing cut from 0 to `|data|` and only lose entries;
    * every span is a single byte or a ranked token;
    * no two neighbours join into a ranked token;
    * the spans concatenate back to the data.
* **`compressor.dfy`, module `Compressor`.** `Compress`, `Decompress` and the substitution pass. The model passes the buffer as a value from step to step, where the source edits its `Vec` in place.
  * The function `Step` is the decision at one scan position, `Scan` a whole pass and `Rounds` the pass loop. `SubstitutionPass` and `Compress` return exactly what these give.
  * A ghost `CodeBook` records, for each code, its pair and an acyclicity level.
  * `Decompress` is proved to compute the expansion `ExpandAll` through the table.
  * `Compress` is proved to return a buffer and table whose expansion is the input. So `decompress(compress(data)) == data`, which `CompressDecompress` states.

Things the source does that the model states in its own terms:

* **Panics.** They become preconditions where the caller must avoid them. Where the panic depends on the input, they become error results instead:
  * an exhausted free set in `compress` returns `OutOfCodes`;
  * a span that `pair_encode` cannot find in `ranks` gives `None`.
* **`u32::MAX`.** Its use as "no rank" is the `Rank` constructor `Max`. In `merge`, a stored rank equal to `u32::MAX` behaves exactly like a missing one (`AsRank`), and comparing ranks is comparing their `u32` values (`RankOrder`, `RawMinIsLeftmost`). `pair_encode` is different: it returns a stored `u32::MAX` as an id and panics only on a missing key.
* **`max_freq as u32`** sign-extends a negative `i8` (`Threshold`).

Three behaviours of the code that the model follows as written:

* **The size check.** `new` and `train` assert `vocab_size >= size_of::<u8>()`, which is 1; the assertion message speaks of 256. With a target of at most 256 the seeded vocabulary already reaches it, and no merge happens (`Train` ensures this).
* **Empty input.** `merge` computes `data.len() - 1` on a `usize`, which underflows and panics on empty data. `Merge`, `PairSplit` and `PairEncode` therefore require non-empty data.
* **Repeated tokens.** A merge can produce a token already in `ranks`. `ranks` then keeps one entry while `encoder` grows, and the two tables drift apart. The inverse facts (`ranks[encoder[k]] == k`, words expanding to their input) are therefore proved while `|ranks| == |encoder|`.

## Model

| member | source | states |
|---|---|---|
| Pairs.CountPositive | src/llm_bpe.rs:61-72 | a pair's window count is positive exactly when the pair occurs adjacently, so an empty statistic means no word has two ids left |
| Pairs.CountPrefixStep | src/lib.rs:16-20 | counting one more window adds one to exactly the pair in that window |
| Pairs.CountAt | src/lib.rs:30 | the pair at any position of a buffer has a positive count |
| Compressor.Threshold | src/lib.rs:30 | `max_freq as u32`: a non-negative value is kept, a negative one becomes value + 2^32 |
| Compressor.FreeSlots | src/lib.rs:4-12 | a byte value is free exactly when it does not occur in the input |
| Compressor.MinOf | src/lib.rs:34 | `pop_first` takes an element of the set that is no larger than any other |
| Compressor.FrequencyMap | src/lib.rs:14-22 | the counting loop (run again at lines 44-50) yields a map whose keys are exactly the adjacent pairs, each mapped to its count |
| Compressor.Substituted | src/lib.rs:36-38 | writing the code at i and removing i + 1 gives a buffer one shorter, with the code at i and everything else unchanged |
| Compressor.StoreRemove | src/lib.rs:36-38 | the store at line 36 leaves element i + 1 alone, and store then remove equals the substitution |
| Compressor.Step | src/lib.rs:30-39 | one decision only takes codes out of the free set; it marks a substitution exactly when it takes a code, and then the buffer loses one byte for the one code; a decision that takes no code and does not fail changes nothing; a failure changes nothing else |
| Compressor.InitInv | src/lib.rs:14-23 | before any pass the buffer is the input, no code is allocated and the free set is all unused values; the compressor invariant holds |
| Compressor.PassStart | src/lib.rs:25-26 | at the start of a pass the pass invariant holds with nothing substituted |
| Compressor.PassLookup | src/lib.rs:30 | the key looked up is an adjacent pair of the buffer as it was at the start of the pass, so it is in `frequency_map` with its pass-start count and the lookup never misses |
| Compressor.PassSkip | src/lib.rs:30-33 | skipping a pair below the threshold or already in `table` keeps the pass invariant |
| Compressor.PassSubstitute | src/lib.rs:34-39 | substituting the smallest free code keeps the pass invariant: one more substitution, one fewer free code, the pair entered in `table`, and the removed `frequency_map` key the one starting with the new code |
| Compressor.PassEnd | src/lib.rs:26-41 | after a pass: a pass that substituted has fewer free codes; one that did not changed nothing, and every adjacent pair is below the threshold or already coded; old table entries are kept, and every new entry is a pair adjacent at pass start with count at least the threshold |
| Compressor.ScanAt | src/lib.rs:27-40 | one iteration of the pass loop makes exactly the decision `Step` describes: a pair whose pass-start count reaches the threshold and that has no code gets the least free code, written at i with byte i + 1 removed and the stale count of the new pair dropped; any other pair leaves the state unchanged; no free code left is a failure |
| Compressor.StepSubstitutes | src/lib.rs:30-39 | when the pair at i qualifies and a code is free, the decision succeeds and keeps both the pass invariant and the compressor invariant with one more substitution |
| Compressor.StepSkips | src/lib.rs:30-33 | a pair below the threshold or already in `table` leaves the state unchanged and keeps the pass invariant |
| Compressor.StepPanics | src/lib.rs:34 | a qualifying pair with no free code is a failure, and then the pass-start buffer is at least two bytes longer than the free set was |
| Compressor.StepKeepsInv | src/lib.rs:30-39 | every decision keeps the pass invariant and the compressor invariant, or fails only with an empty free set on a buffer two bytes longer than the pass-start free set |
| Compressor.PassStep | src/lib.rs:26-40 | one loop iteration advances the reference scan by one position, and the invariants hold after it unless it failed for lack of a free code |
| Compressor.ScanFree | src/lib.rs:26-40 | a pass only takes codes out of the free set, one for each byte it removes from the buffer; a pass that substituted used at least one, which bounds the number of passes |
| Compressor.SubstitutionPass | src/lib.rs:25-41 | a whole pass returns exactly the reference scan of the pass-start buffer; it fails only when no code is free and the buffer is two bytes longer than the free set; on success it keeps the invariant (expansion still equals the input, tables consistent), uses a code if it substituted and otherwise changes nothing and leaves every pair below the threshold or coded; old entries are kept and every new one is a pair adjacent at pass start with count at least the threshold |
| Compressor.FreqIsPairCounts | src/lib.rs:43-50 | the recount after a pass yields exactly the pair counts of the buffer, so each pass starts from fresh counts |
| Compressor.PairCountsAt | src/lib.rs:44-50 | a pair has a recount entry exactly when it occurs adjacently, and the entry is its number of occurrences |
| Compressor.RoundsStep | src/lib.rs:24-54 | a round that substitutes hands its buffer, free set and table to the next round; a round that substitutes nothing or fails ends the loop with its own result |
| Compressor.RoundsSettle | src/lib.rs:24-54 | the loop ends on a pass that substitutes nothing, never gains free codes, and spends exactly one code per byte it removes from the buffer |
| Compressor.CompressRound | src/lib.rs:25-53 | one iteration of the outer loop: a pass with fresh counts, then the recount; it fails exactly where the loop `Rounds` fails, a round that substituted uses a code and leaves `Rounds` unchanged from its result, and one that did not changes nothing and leaves every adjacent pair below the threshold or coded; the invariant and fresh counts hold after it |
| Compressor.CompressLoop | src/lib.rs:24-54 | the outer loop returns what `Rounds` gives from the input, its unused values and an empty table, fails exactly when `Rounds` does, keeps the invariant and ends with every adjacent pair below the threshold or coded; input shorter than two bytes is returned unchanged |
| Compressor.ExampleCounts | src/lib.rs:14-22 | on [1, 2, 3, 1, 2, 3] the counting loop gives (1, 2) and (2, 3) twice and (3, 1) once |
| Compressor.ExampleCodes | src/lib.rs:4-12 | on [1, 2, 3, 1, 2, 3] the first two codes handed out are 0 and then 4 |
| Compressor.ExampleFirst | src/lib.rs:30-39 | at position 0 of [1, 2, 3, 1, 2, 3] with threshold 2, the pair (1, 2) gets code 0, giving [0, 3, 1, 2, 3] |
| Compressor.ExampleSkips | src/lib.rs:30-33 | positions 1 and 2 of [0, 3, 1, 2, 3] are skipped: (3, 1) is below the threshold and (1, 2) already has a code |
| Compressor.ExampleLast | src/lib.rs:30-39 | at position 3, the pair (2, 3) gets code 4, giving [0, 3, 1, 4] |
| Compressor.ScanExample | src/lib.rs:26-41 | a pass over [1, 2, 3, 1, 2, 3] with threshold 2 gives [0, 3, 1, 4] with (1, 2) coded 0 and (2, 3) coded 4; the second (1, 2) is left because it already has a code |
| Compressor.AllocateKeepsTables | src/lib.rs:34-35 | allocating the smallest free code to a pair without one keeps the tables consistent: codes are absent from the input and below every free value, and both directions of the table agree |
| Compressor.AllocateRanked | src/lib.rs:35 | a new code sits above the codes its pair mentions, so the table stays acyclic |
| Compressor.ExpandExtend | src/lib.rs:35 | adding a fresh code does not change the expansion of a byte that was already known |
| Compressor.ExpandAllExtend | src/lib.rs:35 | adding a fresh code does not change the expansion of a buffer of known bytes |
| Compressor.ExpandAllAt | src/lib.rs:36-38 | a buffer expands to its prefix, the expansions of the pair at i, and its suffix |
| Compressor.ExpandAllReplacePair | src/lib.rs:36-38 | replacing a pair by a code that expands to the pair's expansion keeps the buffer's expansion |
| Compressor.SubstitutedExpands | src/lib.rs:36-38 | after a substitution the buffer still expands to the input under the extended table |
| Compressor.SubstitutionKeepsKnown | src/lib.rs:36-38 | after a substitution every byte of the buffer and of the table is an input byte or a code |
| Compressor.SubstitutionKeepsInv | src/lib.rs:34-38 | a substitution keeps the whole compressor invariant |
| Compressor.ExpandAllConcat | src/lib.rs:65-89 | expansion distributes over concatenation |
| Compressor.ExpandAllPlain | src/lib.rs:84-86 | a buffer without codes is copied through unchanged, in particular under an empty table |
| Compressor.StackPush | src/lib.rs:82-83 | pushing onto the stack puts that byte's expansion in front of what the stack still holds |
| Compressor.PopStep | src/lib.rs:72-73 | popping the top of the stack takes its expansion off the front of what remains |
| Compressor.ReadStep | src/lib.rs:74-76 | reading the next input byte takes its expansion off the front of what remains |
| Compressor.PushStep | src/lib.rs:81-83 | pushing b then a for a code leaves its expansion, a's part first, in front, and lowers the termination measure |
| Compressor.LeafStep | src/lib.rs:84-86 | a byte that is not a code is emitted as itself |
| Compressor.Decompress | src/lib.rs:65-89 | the output is the expansion of the input through the table, codes expanded recursively with the first part first and other bytes copied in order |
| Compressor.Invert | src/lib.rs:56-62 | turning the pair table around gives a map with the reverse entries in both directions |
| Compressor.InvertIsCodes | src/lib.rs:56-62 | the turned-around table is exactly the code table the invariant tracks, and no two pairs share a code |
| Compressor.CodesSmallestFirst | src/lib.rs:34 | every code handed out is smaller than every unused byte value that is not a code |
| Compressor.FixpointInTable | src/lib.rs:51-53 | at the final pass every adjacent pair reaching the threshold has a code in the returned table |
| Compressor.CompressOutcome | src/lib.rs:51-62 | the result expands back to the input; codes are absent from the input, taken smallest first and pairwise distinct in their pairs; each code saves one byte |
| Compressor.Compress | src/lib.rs:3-63 | the result is exactly the pass loop `Rounds` from the input, its unused values and an empty table, and fails exactly when a pass runs out of codes, which never happens when the input has at most one byte more than its unused values (so at most 128 bytes); on success the returned buffer expands through the returned table to the input, codes do not occur in the input and are the smallest unused values, distinct codes stand for distinct pairs, buffer plus table size equals input size and no adjacent pair reaching the threshold is left without a code; input shorter than two bytes returns the input and an empty table |
| Compressor.CompressDecompress | src/lib.rs:96-101 | decompressing a successful compression gives the input back; compression succeeds exactly when the pass loop does not run out of codes, in particular on every input of at most 128 bytes, such as both test inputs |
| BpeTrain.RewriteWord | src/llm_bpe.rs:90-105 | the loop computes `Replace`, the greedy left-to-right replacement of non-overlapping occurrences of the pair |
| BpeTrain.RewriteWords | src/llm_bpe.rs:87-107 | every word is rewritten, the number of words is unchanged |
| BpeTrain.ReplaceFlat | src/llm_bpe.rs:87-107 | when the new token's bytes are its pair's bytes, rewriting keeps a word's byte expansion |
| BpeTrain.ReplaceLength | src/llm_bpe.rs:92-104 | rewriting never lengthens a word, keeps non-empty words non-empty, and shortens a word exactly when it contains the pair |
| BpeTrain.ReplaceHead | src/llm_bpe.rs:93-98 | the first id of a rewritten word is the token when the word starts with the pair, and otherwise the old first id |
| BpeTrain.ReplaceLeavesNoPair | src/llm_bpe.rs:92-100 | with a token distinct from both ids of the pair, no occurrence of the pair survives the rewrite |
| BpeTrain.ReplaceIdsBelow | src/llm_bpe.rs:94 | rewriting with a token that is a valid id keeps every id valid |
| BpeTrain.TotalCountPositive | src/llm_bpe.rs:61-72 | the total count of a pair over all words is positive exactly when some word contains it |
| BpeTrain.StatStep | src/llm_bpe.rs:63-66 | counting the window at position k of a word adds one to exactly that pair's entry |
| BpeTrain.StatWord | src/llm_bpe.rs:62-67 | once all windows of a word are counted, the statistic covers every word up to and including it |
| BpeTrain.RewriteShortens | src/llm_bpe.rs:87-107 | rewriting never increases the total word length, and strictly decreases it when the pair occurs, which is the loop's termination measure |
| BpeTrain.CountStat | src/llm_bpe.rs:61-67 | the statistic maps exactly the adjacent pairs occurring in some word to their total counts |
| BpeTrain.MostCommonPair | src/llm_bpe.rs:74-78 | the chosen pair is in the statistic and its count is at least every other pair's; any maximal pair may be chosen |
| BpeTrain.MostCommonFrequent | src/llm_bpe.rs:74-78 | the pair `max_by_key` picks from the statistic occurs in the words, and no pair occurs more often |
| BpeTrain.NoPairsLeft | src/llm_bpe.rs:69-72 | an empty statistic means every word has fewer than two ids |
| BpeTrain.PairBelow | src/llm_bpe.rs:79-80 | both ids of a pair that occurs are valid `encoder` indices |
| BpeTrain.MergedByStep | src/llm_bpe.rs:79-85 | appending the concatenation of two existing tokens extends the merge record by that pair |
| BpeTrain.MergeKeepsTables | src/llm_bpe.rs:79-85 | inserting the new token with id `ranks.len()` and appending it to `encoder` keeps the tables consistent; the tables stay in step only if they were in step before |
| BpeTrain.FlatExtend | src/llm_bpe.rs:85 | appending to `encoder` does not change the expansion of a word of old ids |
| BpeTrain.FlatSeeded | src/llm_bpe.rs:35-53 | through the seeded `encoder` a word of byte values expands to itself |
| BpeTrain.RewriteBelow | src/llm_bpe.rs:87-107 | after a merge all rewritten words use ids below the new `encoder` size |
| BpeTrain.RewriteExpands | src/llm_bpe.rs:87-107 | after a merge every rewritten word still expands to its input bytes |
| BpeTrain.TrainStep | src/llm_bpe.rs:55-107 | one training iteration keeps the training invariant, appends exactly one `encoder` entry (the concatenation of the pair's tokens) and decreases the total word length; while the tables are in step the new id is fresh, so no word still contains the merged pair |
| BpeTrain.TraceStep | src/llm_bpe.rs:74-107 | a most frequent pair and the words rewritten with it extend the record of merges by one step |
| BpeTrain.RecordStep | src/llm_bpe.rs:55-107 | one iteration extends the record: the merge is a most frequent pair of the current words, the rewritten words follow it, the new id is `ranks.len()` and the vocabulary stays within the target |
| BpeTrain.TrainRound | src/llm_bpe.rs:61-107 | one loop iteration either stops, unchanged, because no word has two ids, or merges a most frequent pair into a new id, keeps the invariant and the record, and shortens the words |
| BpeTrain.TrainStart | src/llm_bpe.rs:35-53 | on the seeded tables the input words, as ids, satisfy the loop invariant with an empty record |
| BpeTrain.TrainLoop | src/llm_bpe.rs:55-108 | the `while` loop ends at the target size or when no word has two ids, with the invariant and the full record of merges |
| BpeTrain.BpeCore.constructor | src/llm_bpe.rs:13-28 | a new instance has the target size it was given and empty tables; the size must be at least 1 |
| BpeTrain.BpeCore.Seed | src/llm_bpe.rs:35-38 | after seeding, `encoder[i] == [i]` and `ranks[[i]] == i` for every byte i, 256 entries in each table |
| BpeTrain.BpeCore.Train | src/llm_bpe.rs:30-108 | after training the tables are consistent and every entry from 256 up is the concatenation of two earlier entries; each merge was a most frequent pair of the words at that step and the final words are the input rewritten by the merges in order; merge m got id `ranks.len()`, 256 + m while the tables are in step; a target of at most 256 performs no merge and a larger one is never exceeded; while the tables are in step the rewritten words expand to the input words; training stops at the target size or when no word has two ids left |
| BpeMerge.LeftmostSpec | src/llm_bpe.rs:150-155 | the scan finds `MAX` exactly when every rank is `MAX`, and otherwise a position holding the minimum that every earlier rank exceeds: the leftmost minimum |
| BpeMerge.RankOrder | src/llm_bpe.rs:130 | on `u32` values, one rank is below another exactly when its value is, and only `u32::MAX` itself is `MAX`, so `rank < min_rank.0` never selects a stored `u32::MAX` |
| BpeMerge.RawMinIsLeftmost | src/llm_bpe.rs:150-155 | the source's scan on raw `u32` values, starting from `u32::MAX` and keeping a value only when it is strictly below the minimum so far, finds the same position as the scan on ranks, and `MAX` exactly where its minimum is `u32::MAX` |
| BpeMerge.LeftmostSnoc | src/llm_bpe.rs:150-155 | scanning one more rank moves the minimum to it only when it is strictly lower, so ties keep the earlier position |
| BpeMerge.RemoveBounds | src/llm_bpe.rs:149 | dropping an inner boundary keeps a strictly increasing cut from 0 to the data length |
| BpeMerge.RemoveAt | src/llm_bpe.rs:149 | `parts.remove(k)` leaves one element fewer: those before k in place, those after k moved down by one |
| BpeMerge.FiniteRankInside | src/llm_bpe.rs:142-149 | a finite rank only occurs where there is a next span to join, so `remove(i + 1)` drops an inner boundary |
| BpeMerge.GetRank | src/llm_bpe.rs:112-121 | the rank of the span from boundary i to i + 3 is the rank the pair at i has once boundary i + 1 (or i + 2) is dropped |
| BpeMerge.StartCached | src/llm_bpe.rs:126-140 | the initial parts have offsets 0..=len with exact pair ranks, `MAX` in the last two |
| BpeMerge.CachedRankSeq | src/llm_bpe.rs:150-155 | under the rank cache the ranks the rescan reads are those of the reference algorithm |
| BpeMerge.ShiftedPairRank | src/llm_bpe.rs:149 | dropping boundary i + 1 keeps the pair ranks left of i - 1 and shifts those right of i |
| BpeMerge.JoinCache | src/llm_bpe.rs:143-149 | refreshing ranks i - 1 and i and dropping boundary i + 1 keeps every cached rank exact |
| BpeMerge.ScannedStep | src/llm_bpe.rs:126-138 | one iteration of the first loop records the next offset with its pair rank and moves the minimum only to a strictly lower rank |
| BpeMerge.StartPushes | src/llm_bpe.rs:139-140 | the two closing pushes with rank `MAX` complete an exact cache over offsets 0..=len and do not change the minimum |
| BpeMerge.Start | src/llm_bpe.rs:126-140 | the first loop builds one part per byte offset with exact ranks and finds the leftmost lowest rank |
| BpeMerge.Join | src/llm_bpe.rs:143-149 | one join drops exactly boundary i + 1 and keeps the cache exact, so the last two entries stay `MAX` |
| BpeMerge.FindMin | src/llm_bpe.rs:150-155 | the rescan finds the leftmost lowest rank of every entry but the last |
| BpeMerge.NoRankLeft | src/llm_bpe.rs:142 | when the scan finds `MAX`, every part carries `MAX` |
| BpeMerge.Merge | src/llm_bpe.rs:123-158 | the offsets returned are those of the reference algorithm, which joins at the leftmost lowest finite rank each step, started from one span per byte; the cache is exact and no rank is left |
| BpeMerge.MergeSpecCut | src/llm_bpe.rs:142-156 | the boundaries stay a strictly increasing cut from 0 to the data length and only ever lose entries |
| BpeMerge.MergeSpecStops | src/llm_bpe.rs:142 | when merging stops, no two adjacent spans join into a ranked token |
| BpeMerge.JoinTokens | src/llm_bpe.rs:144-149 | joining at a finite rank keeps every span a single byte or a ranked token |
| BpeMerge.MergeSpecTokens | src/llm_bpe.rs:142-156 | spans that start as single bytes or ranked tokens stay so |
| BpeMerge.ConcatPrefix | src/llm_bpe.rs:167-172 | the first k spans concatenate to the data up to boundary k |
| BpeMerge.SpansConcat | src/llm_bpe.rs:167-172 | the spans of a cut concatenate to the data |
| BpeMerge.MergedSpans | src/llm_bpe.rs:167-172 | the spans of `merge`, `windows(2)` over its offsets, are those of the reference algorithm |
| BpeMerge.SplitStops | src/llm_bpe.rs:167-172 | no two neighbouring spans concatenate to a ranked token |
| BpeMerge.SplitTokens | src/llm_bpe.rs:167-172 | every span is non-empty and a single byte or a ranked token |
| BpeMerge.SingleByteVocabulary | src/llm_bpe.rs:123-158 | when every token is one byte (the seeded vocabulary), nothing merges and every byte is its own span |
| BpeMerge.PairSplit | src/llm_bpe.rs:167-172 | the spans are those of the reference merge; they concatenate exactly to the data; each is non-empty and a single byte or a ranked token; no two neighbours join into a ranked token |
| BpeMerge.PairEncode | src/llm_bpe.rs:160-165 | the ids are the ranks of the spans `pair_split` gives, one per span, and the result is missing exactly when some span is not in `ranks` |
| BpeMerge.EncodeTotal | src/llm_bpe.rs:160-165 | with every single byte in `ranks`, as after training, every span is in `ranks`, so the lookup never misses |
| BpeMerge.Decode | src/llm_bpe.rs:191-194 | one token per id, each the `encoder` entry at that id |
| BpeMerge.DecodeRanks | src/llm_bpe.rs:191-194 | while the trained tables are in step, looking up each id in `encoder` gives back the spans |
| BpeMerge.EncodeDecode | src/llm_bpe.rs:185-201 | with the tables of a trained instance in step, encoding and then decoding through `encoder` yields the `pair_split` spans, which concatenate to the data |

## Left out

- The pre-tokenizer: the regular expression `pat_str`, `Regex::new` and its `expect`, `from_utf8_lossy` and `find_iter` (src/llm_bpe.rs:20, 41-53). `Train` takes the words `find_iter` would produce and requires each of them to be non-empty. The pattern is a parameter of `new` (src/llm_bpe.rs:13). The pattern in the repository's test (src/llm_bpe.rs:182) matches only non-empty text. A pattern that can match the empty string would make `word.len() - 1` (src/llm_bpe.rs:92) underflow, and that case is not modelled.
- `println!` and `print!` output, and the compression ratio in `f64` (src/lib.rs:109-113). They do not affect results.
- `HashMap` iteration order. `MostCommonPair` may return any pair of maximal count, a superset of what `max_by_key` can pick. So the concrete vocabulary, and the concrete spans the test at src/llm_bpe.rs:195-201 expects, are not derived. `EncodeDecode` proves only that the decoded tokens are the spans of the merge and concatenate to the input.
- Fixed-width integers. Counts, ids and offsets are unbounded (`u32`, `usize`). Only `u32::MAX` as a rank sentinel and the `i8` to `u32` cast are modelled. A count or an id at `u32::MAX` would need more than 2^32 input.
- `usize::MAX` as the initial index in `merge`: the model starts the index at 0. The index is read only when the rank is finite, and then it has been set.
- Calling `train` twice on one instance. `BpeTrain.BpeCore.Train` requires empty tables, as after `new`. A second call re-inserts the seed tokens on top of the learned ones.
- BpeTrain.BpeCore.Train: the training loop updates local copies of `ranks` and `encoder` and stores them back when it ends. The source updates the fields directly; no other code observes the difference.
- BpeTrain.BpeCore.Train: the in-step facts (`ranks[encoder[k]] == k`, words expanding to their input) are stated only while `|ranks| == |encoder|`. A merge that produces an existing token breaks them in the source itself.
- BpeMerge.DecodeRanks: requires the tables to be in step, for the same reason.
- BpeMerge.Merge, BpeMerge.PairSplit, BpeMerge.PairEncode: require non-empty data, because the source underflows computing `data.len() - 1` there.
- BpeMerge.PairSplit: "no two neighbours join into a token" is stated for tokens whose rank is below `u32::MAX`. A stored rank of `u32::MAX` is treated as absent by the source too.
- Compressor.Decompress: requires a ghost witness that the table is acyclic. On a cyclic table the source does not terminate. Every table `Compress` returns comes with such a witness.
- Compressor.Compress: exhausting the free byte values makes the source panic at `pop_first().unwrap()`. The model returns `OutOfCodes` instead, and `CompressDecompress` reports it with `ok == false`. This cannot happen when the input has at most one byte more than the values it leaves unused, in particular at 128 bytes or fewer.
- The two test functions of src/lib.rs:96-116 are not replayed step by step. Both inputs are at most 128 bytes long, so `CompressDecompress` guarantees that they compress without running out of codes and decompress to themselves.
