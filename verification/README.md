# Verified models of the Ivy C library's containers and option scanner

The Ivy message bus (ivy-c 3.15.1) finds the receivers of a message in a uthash table keyed by regular
expression, parks messages for slow receivers in a congestion FIFO, and reads the command lines of its tools
with a small `getopt` that keeps its place between calls. This project models the three of them in Dafny and
proves what they are for. `dafny verify dfyconfig.toml` checks everything.

**The hash table (`uthash.h`).** An element sits in two intrusive doubly linked structures at once: the
application-order list and a bucket chain. `HashTable.Hash` works on heap objects with the C code's own
links (`next`, `prev`, `hhNext`, `hhPrev`), an array of buckets, the counters and the Bloom filter's bit
vector, and relinks them in place. Each of its methods is tied to a function on plain values
(`TableSpec`), and what the library promises is proved of those functions: of single operations in
`TableLaws` and `TableMeaning`, of whole runs in `TableRuns`. The hash function is an arbitrary function of the key bytes.

- `Handles`, `Buckets`, `Bloom`, `Bits`: links, bucket array, bit vector, machine-word operators.
- `HashExpand`: the in-place redistribution of HASH_EXPAND_BUCKETS.
- `MergeSpec`, `HashSort`: the bottom-up mergesort of HASH_SRT on sequences, and on the list itself.
- `Threshold`: a run that reaches the bounds on chains.
- `HashTable`: HASH_ADD, HASH_DELETE, HASH_FIND, HASH_SRT, HASH_FSCK, HASH_SELECT, HASH_ITER.
- `Common`, `Seqs`: notions and facts about sequences that the others share.

The load bound rests on weights. Right after an expansion let `w_j = count_j / ideal`. Then the `w_j` sum to
at most the number of buckets and `count_j <= 10 * w_j + 9`; adds that do not trigger an expansion, and
deletions, keep this, so there are at most 19 elements a bucket, and one more element followed by a doubling
brings the ideal length back to at most 10.

**The congestion FIFO (`ivyfifo.c`).** `RingFifo.IvyFifoBuffer` is the growable ring buffer with wrapping
positions; `FifoSpec` is the byte queue with a capacity and a drop flag that it refines. Equal positions
always mean an empty buffer, because every growth leaves at least one byte unused.

**The option scanner (`tools/getopt.c`).** `Getopt.Scanner` keeps `optind`, `optarg` and the static position
inside a clustered word; `Getopt.Parse` is a recursive parser of the same language.

`Replay` drives the pointer structures through arbitrary runs of calls, so that the theorems about runs of
the plain models are theorems about the table and the ring buffer.

Where code and comments differ, the model follows the code:

- uthash.h:909-910 says that a bucket is expanded when its chain *exceeds* the threshold; the code (line 657)
  expands when the count *reaches* it.
- After an expansion a chain can already stand at its threshold, `10 * (expand_mult + 1)`: exactly when the table
  holds more than 18 elements to an old bucket and a new bucket gets exactly 10 of them
  (`TableLaws.ExpandStrictlyBelow`). A run of 1157 adds gets there (`Threshold.ThresholdIsReached`,
  `Replay.ReachThreshold`), so chains are bounded by `<=`, not `<`.
- A FIFO whose drop flag is set goes on dropping small writes even when they would fit, but takes a write that
  makes it grow (`FifoSpec.AcceptsExactly`, with a run in `FifoSpec.FullDropsWhatFits`). Since only draining a byte
  or growing clears the flag, one that is set while nothing is queued stays set for ever unless a write makes the
  buffer grow (`FifoSpec.StuckForever`).
- HASH_SELECT neither moves `tail` nor fills the Bloom filter of the new table. Its tail is right exactly when one
  element was selected (`HashTable.Hash.SelectFrom`), and with HASH_BLOOM its lookups are right exactly for absent
  keys (`TableRuns.SelectedFind`); `Replay.SelectTwo` has both go wrong. A HASH_ADD to such a
  table drops all selected elements but the first from the application order, and the HASH_FSCK at its end fails,
  unless at most one was selected (`HashTable.Hash.AddToSelection`). HASH_SRT puts the tail right
  (`HashTable.Hash.Sort`).
- getopt leaves the old `optarg` in place when it rejects a letter, and does not step over `--`.

## Model

| member | source | states |
|---|---|---|
| `MergeSpec.MergeSorts` | ivy-c_3.15.1/src/uthash.h:784-812 | merging two sorted runs gives a sorted run, for any total preorder |
| `MergeSpec.MergeKeepsTies` | ivy-c_3.15.1/src/uthash.h:784-812 | among elements that tie, those of the left run stay ahead of those of the right run, each in their old order |
| `MergeSpec.PassDoublesRuns` | ivy-c_3.15.1/src/uthash.h:772-824 | a pass with insize w turns a list of sorted runs of length w into one of sorted runs of length 2w |
| `MergeSpec.MergesInIsCeil` | ivy-c_3.15.1/src/uthash.h:772-773 | a pass over n elements does ceil(n / 2w) merges |
| `MergeSpec.PassesAreLogarithmic` | ivy-c_3.15.1/src/uthash.h:826-831 | the number of passes is the least k >= 1 with n <= w * 2^k: max(1, ceil(log2 n)) from w = 1 |
| `MergeSpec.SortCostBound` | ivy-c_3.15.1/src/uthash.h:797-800 | the comparator is called at most n times a pass |
| `MergeSpec.SortIsStableSort` | ivy-c_3.15.1/src/uthash.h:758-835 | for any comparator the result is a permutation; for a total preorder it is sorted and elements that tie keep their order |
| `MergeSpec.SortMeaning` | ivy-c_3.15.1/src/uthash.h:758-835 | in plain terms: if the comparator is a total preorder on the elements, cmp(r[i], r[j]) <= 0 for all i < j, and the elements that compare equal to any given one stay in their old order |
| `MergeSpec.StableSortUnique` | ivy-c_3.15.1/src/uthash.h:758-835 | a sorted arrangement that keeps ties in order is unique, so the sort is characterised by its properties alone |
| `HashSort.MergeStep` | ivy-c_3.15.1/src/uthash.h:785-821 | one turn of the inner loop moves one element to the end of the output list and keeps output ++ merge of what is left; prev and next of the output stay inverse |
| `HashSort.MergeRuns` | ivy-c_3.15.1/src/uthash.h:783-823 | the inner loop appends exactly the merge of the left run with at most insize elements of the right run, and q is left at the next run |
| `HashSort.OnePass` | ivy-c_3.15.1/src/uthash.h:768-825 | a pass relinks the list into the merged one, null-terminated at both ends, and counts its merges |
| `HashSort.SortList` | ivy-c_3.15.1/src/uthash.h:763-832 | the whole sort terminates; next and prev hold the stable sort of the old order, head is its first and tail its last element; passes and comparator calls are those of the cost lemmas |
| `Bits.MaskIsMod` | ivy-c_3.15.1/src/uthash.h:175-178 | `hashv & (num_buckets-1)` is reduction modulo a power of two |
| `Bits.CeilDivLeast` | ivy-c_3.15.1/src/uthash.h:695-698 | the ideal chain length is the least c with c * num_buckets >= num_items |
| `Bits.CeilByShiftAndMask` | ivy-c_3.15.1/src/uthash.h:695-702 | the shift-and-mask expression computes that ceiling |
| `Bits.CeilDivIsQuotient` | ivy-c_3.15.1/src/uthash.h:695-698 | the ceiling is the quotient, plus one if there is a remainder |
| `Bloom.SetTest` | ivy-c_3.15.1/src/uthash.h:112-113 | setting bit i of a byte sets that bit and changes no other |
| `Bloom.BitSet` | ivy-c_3.15.1/src/uthash.h:112 | afterwards the vector holds its old bits and this one |
| `Bloom.BitTest` | ivy-c_3.15.1/src/uthash.h:113 | reports exactly whether the bit is held |
| `Bloom.ByteLengthIsLeast` | ivy-c_3.15.1/src/uthash.h:96-97 | the vector has just enough bytes for 2^HASH_BLOOM bits |
| `Buckets.LinkFront` | ivy-c_3.15.1/src/uthash.h:653-656 | the element becomes the first of its chain; every other chain and every count stays |
| `Buckets.UnlinkChain` | ivy-c_3.15.1/src/uthash.h:666-674 | the chain loses this element and keeps its order; every other chain and every count stays |
| `TableLaws.MovedIsReversedShare` | ivy-c_3.15.1/src/uthash.h:722-738 | moving a chain's elements one by one to the front of bucket j leaves there the chain reversed and filtered by the new hash bits |
| `TableLaws.RedistributeKeepsAll` | ivy-c_3.15.1/src/uthash.h:720-739 | doubling the bucket array keeps the number of chained elements |
| `TableLaws.MaskedBucket` | ivy-c_3.15.1/src/uthash.h:175-178 | the masked hash value is the number of the element's bucket |
| `TableLaws.CrowdedHasItems` | ivy-c_3.15.1/src/uthash.h:657-660 | a bucket that triggers an expansion belongs to a table of at least 10 elements, so the expansion never divides by a zero ideal length |
| `TableLaws.WeightedLoad` | ivy-c_3.15.1/src/uthash.h:908-919 | while the weights hold there are at most 19 elements a bucket |
| `TableLaws.PushBalanced` | ivy-c_3.15.1/src/uthash.h:650-661 | an add that does not trigger an expansion keeps the weights |
| `TableLaws.ExpandBalances` | ivy-c_3.15.1/src/uthash.h:705-751 | an expansion with at most 19b + 1 elements in b buckets computes an ideal length from 1 to 10 and re-establishes the weights |
| `TableLaws.ExpandStrictlyBelow` | ivy-c_3.15.1/src/uthash.h:705-739 | of a table with at most 19b + 1 elements in b buckets: after the expansion every chain is strictly below 10 * (expand_mult + 1) if and only if there are at most 18b elements or no new bucket gets exactly 10 |
| `Threshold.ThresholdIsReached` | ivy-c_3.15.1/src/uthash.h:657-660 | from any sufficient supply of elements, a legal run of 1157 adds whose last one expands, with ideal length 10, and leaves a chain of 10 at the threshold 10, expansion still allowed |
| `Threshold.RunIsLegal` | ivy-c_3.15.1/src/uthash.h:150-173 | that run is legal and adds only elements of the supply |
| `Replay.ReachThreshold` | ivy-c_3.15.1/src/uthash.h:650-661 | the pointer structure gets there: bucket 63 has count 10 = (expand_mult + 1) * 10 with noexpand still 0 |
| `TableLaws.InsertCountingPlaced` | ivy-c_3.15.1/src/uthash.h:868-870 | adding to a bucket keeps the partition into chains also when num_items lags behind, whatever it is |
| `TableLaws.AddKeepsInv` | ivy-c_3.15.1/src/uthash.h:150-173 | HASH_ADD of a fresh element, expanding or not, keeps the whole invariant and appends to the application order |
| `TableLaws.DeleteKeepsInv` | ivy-c_3.15.1/src/uthash.h:192-225 | HASH_DELETE keeps the whole invariant and takes just this element out of the application order |
| `TableLaws.ResortKeepsInv` | ivy-c_3.15.1/src/uthash.h:758-835 | HASH_SRT with any comparator keeps the whole invariant and permutes the application order |
| `TableRuns.RunKeepsInv` | ivy-c_3.15.1/src/uthash.h:249-299 | after every run of adds, deletes and sorts the chains partition the elements by masked hash value, the counters and the filter are right and the load is balanced |
| `TableRuns.RunLoadBound` | ivy-c_3.15.1/src/uthash.h:908-919 | after every run, while noexpand is not set: num_items <= 19 * num_buckets, and every chain has at most 10 * (expand_mult + 1) elements |
| `TableRuns.HistoryIsVerdicts` | ivy-c_3.15.1/src/uthash.h:741-749 | after every run the recorded history is, for each call since the table was made that doubled the buckets, whether the elements beyond the ideal length of their chains, read off the chains after that call, were more than half |
| `TableRuns.RunCounters` | ivy-c_3.15.1/src/uthash.h:741-749 | after every run, with those verdicts: 32 * 2^k buckets for k verdicts, ideal length from 1 to 10, ineff_expands is the trailing run of bad verdicts, noexpand is set exactly when the last two were bad |
| `TableRuns.RunStacked` | ivy-c_3.15.1/src/uthash.h:653-656 | over every run of adds and deletes that has not doubled the buckets, each chain is its bucket's elements, the newest first |
| `TableRuns.RunFilter` | ivy-c_3.15.1/src/uthash.h:112-116 | after every run the filter has exactly the bits of the elements added since the table was made: the low bits of their hash values |
| `TableLaws.FilterIndexIsMod` | ivy-c_3.15.1/src/uthash.h:115-119 | the filter index is the hash value modulo 2^min(HASH_BLOOM, 32) |
| `TableRuns.InhibitedForGood` | ivy-c_3.15.1/src/uthash.h:657-660 | no operation on an inhibited table changes its bucket count or thresholds, short of freeing it |
| `TableRuns.InhibitedRun` | ivy-c_3.15.1/src/uthash.h:944-950 | once noexpand is set, bucket count and thresholds stay over any further operations during which the table lives |
| `TableRuns.RunContinues` | ivy-c_3.15.1/src/uthash.h:944-950 | further operations after a run make a longer run, so this holds of the table that any run leads to |
| `TableMeaning.ExpandMeaning` | ivy-c_3.15.1/src/uthash.h:705-751 | an expansion keeps application order and filter; new chain j is the reverse of old chain j mod b, restricted to the new bucket; the ideal length is the ceiling, nonideal_items the sum of max(0, count - ideal), expand_mult count / ideal where count > ideal and 0 elsewhere; ineff_expands goes up by one if nonideal_items is more than half and to 0 otherwise, and noexpand is set when it reaches 2 |
| `TableMeaning.AddMeaning` | ivy-c_3.15.1/src/uthash.h:650-661 | one add doubles the buckets if and only if its chain reaches 10 * (expand_mult + 1) and noexpand is not set; otherwise the element becomes the first of its chain and no other chain or counter changes; the filter gains its bit |
| `TableMeaning.FirstAddMeaning` | ivy-c_3.15.1/src/uthash.h:128-145 | the first add makes 32 buckets with multiplier 0, expansion allowed, and only this element in its chain, the order and the filter |
| `TableMeaning.DeleteMeaning` | ivy-c_3.15.1/src/uthash.h:192-225 | a delete takes the element out of the order and its chain, each otherwise in place; nothing else changes, and the last delete frees the table |
| `TableMeaning.NewestIsFound` | ivy-c_3.15.1/src/uthash.h:650-661 | after an add that does not double the buckets, looking up its key finds that very element, also when the key was there already |
| `TableMeaning.SelectMeaning` | ivy-c_3.15.1/src/uthash.h:868-870 | a selected element is entered as by HASH_ADD, but an expansion is judged by a num_items that does not count it yet |
| `TableMeaning.SelectedPlaced` | ivy-c_3.15.1/src/uthash.h:842-878 | a selection holds the selected elements in order, partitioned into chains by bucket, with an empty filter |
| `TableRuns.ChainsHoldAll` | ivy-c_3.15.1/src/uthash.h:257-279 | the chains, one after the other, hold every element of the application order exactly once and nothing else |
| `TableRuns.FirstWithKeyIs` | ivy-c_3.15.1/src/uthash.h:636-647 | the element found in a chain has the key and none before it has; null means that none has |
| `TableRuns.FindIsExact` | ivy-c_3.15.1/src/uthash.h:636-647 | a lookup returns a present element with the key, and null only if there is none |
| `TableRuns.FilterIsTransparent` | ivy-c_3.15.1/src/uthash.h:82-126 | with HASH_BLOOM defined HASH_FIND answers as without it |
| `TableRuns.FindRefinesMap` | ivy-c_3.15.1/src/uthash.h:82-93 | with distinct keys, after every run of adds, deletes and sorts, HASH_FIND is lookup in the finite map of the run, for any hash function |
| `TableRuns.SelectedFind` | ivy-c_3.15.1/src/uthash.h:842-878 | on a table with an empty filter, as HASH_SELECT leaves it, HASH_FIND is right if and only if HASH_BLOOM is off or the key is absent |
| `TableRuns.SelectedMisses` | ivy-c_3.15.1/src/uthash.h:842-878 | with HASH_BLOOM and an empty filter every present element is missed, which the unfiltered lookup finds |
| `TableRuns.RunOrder` | ivy-c_3.15.1/src/uthash.h:150-173 | without sorting, the application order is insertion order minus deletions |
| `HashExpand.Tally` | ivy-c_3.15.1/src/uthash.h:727-731 | counting one more element keeps count, expand_mult and nonideal_items what they are defined to be |
| `HashExpand.MoveStep` | ivy-c_3.15.1/src/uthash.h:725-736 | one element moves to the front of its new chain; no other unmoved element is touched |
| `HashExpand.MoveAll` | ivy-c_3.15.1/src/uthash.h:719-739 | the nested loops redistribute every chain into the new array, with the new statistics, although the links are overwritten while they are walked |
| `HashTable.Hash.constructor` | ivy-c_3.15.1/src/uthash.h:155-156 | a null head is a valid table without elements |
| `HashTable.Hash.MakeHashTable` | ivy-c_3.15.1/src/uthash.h:128-145 | 32 empty buckets, zero counters, an empty filter, and tail at the head |
| `HashTable.Hash.AddAt` | ivy-c_3.15.1/src/uthash.h:150-171 | on any intact table, with tail at its k-th element: chains, counters and filter become those of the model, and the application order becomes the first k + 1 elements and the new one |
| `HashTable.Hash.Add` | ivy-c_3.15.1/src/uthash.h:150-173 | keeps the table valid, its new value is that of the model, and the element is last in application order |
| `HashTable.Hash.AddToBkt` | ivy-c_3.15.1/src/uthash.h:650-661 | the element is first in its chain and counted, and the table is expanded exactly when the count reaches the threshold and noexpand is not 1 |
| `HashTable.Hash.ExpandBuckets` | ivy-c_3.15.1/src/uthash.h:705-751 | the new bucket array and all five counters are those of the model |
| `HashTable.Hash.IdealIsCeil` | ivy-c_3.15.1/src/uthash.h:716-718 | the expression on the table's fields is the ceiling for the doubled bucket count |
| `HashTable.Hash.BloomAdd` | ivy-c_3.15.1/src/uthash.h:115-116 | the filter holds its old bits and the element's |
| `HashTable.Hash.Delete` | ivy-c_3.15.1/src/uthash.h:192-225 | keeps the table valid and takes just this element out of list and chain; the table lets go of it, so it is free for another table; deleting the last element frees the table |
| `HashTable.Hash.DelInBkt` | ivy-c_3.15.1/src/uthash.h:664-674 | the chain and its count lose the element |
| `HashTable.Hash.Find` | ivy-c_3.15.1/src/uthash.h:82-93 | answers as the model's HASH_FIND, filter test included, on any intact table, a selection too |
| `HashTable.Hash.FindInBkt` | ivy-c_3.15.1/src/uthash.h:636-647 | the first element of the chain with that key, or null |
| `HashTable.Hash.Sort` | ivy-c_3.15.1/src/uthash.h:758-835 | on any intact table, wherever its tail is: head, tail, next and prev hold the sorted order, so a selection gets its tail back; bucket links, buckets and counters are outside the frame; at most n comparator calls a pass |
| `HashTable.Hash.SortValid` | ivy-c_3.15.1/src/uthash.h:758-835 | a valid table stays valid, and its new value is that of the model |
| `HashTable.Hash.FsckBucket` | ivy-c_3.15.1/src/uthash.h:258-274 | accepts a chain, known only to be walkable, if and only if its back links and the bucket's count are right |
| `HashTable.Hash.FsckOrder` | ivy-c_3.15.1/src/uthash.h:281-297 | accepts a walkable list if and only if its prev links and num_items are right |
| `HashTable.Hash.Fsck` | ivy-c_3.15.1/src/uthash.h:249-299 | HASH_FSCK accepts if and only if head is null or all back links, bucket counts and both item counts agree with the forward links: both structures are then doubly linked |
| `HashTable.Hash.FsckValid` | ivy-c_3.15.1/src/uthash.h:249-299 | every valid table passes HASH_FSCK |
| `HashTable.Hash.FsckIntact` | ivy-c_3.15.1/src/uthash.h:877 | so does the destination of HASH_SELECT, which is intact in every respect but its tail and filter |
| `HashTable.Hash.SelectFrom` | ivy-c_3.15.1/src/uthash.h:842-878 | the new table holds exactly the selected elements, each once, in the source's bucket order, and is what taking them one by one makes of an empty table, statistics included, even if it expanded midway; the source stays valid and outside the frame; tail is right if and only if one element was selected |
| `Replay.SelectTwo` | ivy-c_3.15.1/src/uthash.h:842-878 | two elements selected into an empty table, for any two keys: both keys are there, but tail is not the last element, and with HASH_BLOOM neither key is found |
| `HashTable.Hash.AddToSelection` | ivy-c_3.15.1/src/uthash.h:150-173 | HASH_ADD to a table that HASH_SELECT left links the element behind the first selected one, so that the application order is just these two; the HASH_FSCK at its end accepts if and only if at most one element had been selected |
| `HashTable.Hash.ListedExactly` | ivy-c_3.15.1/src/uthash.h:275-297 | with chains, counts and back links right, HASH_FSCK accepts if and only if the application order has num_items elements |
| `HashTable.Hash.IterDelete` | ivy-c_3.15.1/src/uthash.h:890-898 | a HASH_ITER loop that deletes any of the elements while current visits all original elements once in order and leaves a valid table of the others, head null if none is left |
| `Replay.Call` | ivy-c_3.15.1/src/uthash.h:150-225 | each call on the pointer structure is a step of the model |
| `Replay.RunTable` | ivy-c_3.15.1/src/uthash.h:150-225 | every legal run of adds, deletes and sorts on a new table ends valid, in the model's final state |
| `Replay.RunThenFind` | ivy-c_3.15.1/src/uthash.h:82-93 | after any such run with distinct keys, HASH_FIND on the pointer structure is lookup in the run's finite map |
| `FifoSpec.AlignedIsNext` | ivy-c_3.15.1/src/ivyfifo.c:88-89 | the aligned size is the least multiple of the block above the requested size, and exceeds the limit exactly when the request reaches it |
| `FifoSpec.AcceptsExactly` | ivy-c_3.15.1/src/ivyfifo.c:85-114 | a FIFO not flagged full refuses a write if and only if length + size >= the limit; a flagged one accepts if and only if size of the buffer <= length + size < the limit |
| `FifoSpec.FullDropsWhatFits` | ivy-c_3.15.1/src/ivyfifo.c:107-114 | one write of the limit's size to an empty FIFO leaves it flagged and empty, and every small write is then dropped although it fits |
| `FifoSpec.StuckExactly` | ivy-c_3.15.1/src/ivyfifo.c:107-176 | a flagged FIFO with nothing queued is moved by no call but a write whose size reaches the buffer's and stays below the limit; that one is accepted and clears the flag |
| `FifoSpec.StuckForever` | ivy-c_3.15.1/src/ivyfifo.c:107-176 | so over any further calls without such a write the FIFO stays exactly as it is |
| `FifoSpec.WriteIsAtomic` | ivy-c_3.15.1/src/ivyfifo.c:107-124 | a write is all or nothing, sets the flag exactly when refused, and keeps length < size, whole blocks and the limit; the buffer never shrinks |
| `FifoSpec.RoomToSpare` | ivy-c_3.15.1/src/ivyfifo.c:85-111 | after the test and the growth an unflagged FIFO has room for the write and at least one byte more |
| `FifoSpec.StartMeaning` | ivy-c_3.15.1/src/ivyfifo.c:29-39 | a FIFO starts empty, with 262144 bytes, not flagged |
| `FifoSpec.StepMeaning` | ivy-c_3.15.1/src/ivyfifo.c:85-176 | what every call makes of queue, buffer size and flag, in numbers: a write of need = length + size bytes in all is accepted if and only if need < 33554432 and, under the flag, need reaches the buffer size; it grows the buffer to (need / 262144 + 1) * 262144 when need reaches its size; a read or send drops a prefix and clears the flag if that is not empty |
| `FifoSpec.FlagExactly` | ivy-c_3.15.1/src/ivyfifo.c:107-176 | over every run the flag is up if and only if some write was refused and every call after it was a refused write or took no byte |
| `FifoSpec.NothingDropped` | ivy-c_3.15.1/src/ivyfifo.c:85-176 | over every run in which no write would take the queue to the limit, delivered bytes ++ queued bytes are all bytes written, and the flag is down |
| `FifoSpec.SentAllExactly` | ivy-c_3.15.1/src/ivyfifo.c:147-164 | everything queued is sent if and only if no send was short |
| `FifoSpec.RunConserves` | ivy-c_3.15.1/src/ivyfifo.c:85-176 | over every interleaving, delivered bytes ++ queued bytes are the accepted writes in order |
| `FifoSpec.RunNeverShrinks` | ivy-c_3.15.1/src/ivyfifo.c:85-105 | over every run the buffer never shrinks |
| `RingFifo.RingWrite` | ivy-c_3.15.1/src/ivyfifo.c:115-123 | a chunk at the write position, wrapping included, appends to the queue as long as one byte stays free |
| `RingFifo.RingDrain` | ivy-c_3.15.1/src/ivyfifo.c:168-176 | moving the read position, wrapping included, drops a prefix of the queue |
| `RingFifo.IvyFifoBuffer.constructor` | ivy-c_3.15.1/src/ivyfifo.c:29-39 | an empty queue in one block, not flagged |
| `RingFifo.IvyFifoBuffer.Length` | ivy-c_3.15.1/src/ivyfifo.c:67-73 | the pointer difference is the number of queued bytes |
| `RingFifo.IvyFifoBuffer.Avail` | ivy-c_3.15.1/src/ivyfifo.c:75-78 | the free bytes, never none |
| `RingFifo.IvyFifoBuffer.Drain` | ivy-c_3.15.1/src/ivyfifo.c:168-176 | drops that many bytes, clears the flag if any, and the positions stay inside the buffer |
| `RingFifo.IvyFifoBuffer.Read` | ivy-c_3.15.1/src/ivyfifo.c:80-83 | copies the next min(buf_size, length) bytes to the start of the destination, keeps the rest of both, and returns the count |
| `RingFifo.IvyFifoBuffer.Realloc` | ivy-c_3.15.1/src/ivyfifo.c:85-105 | grows to the aligned size with the same queue and a clear flag, or sets the flag, or does nothing |
| `RingFifo.IvyFifoBuffer.Write` | ivy-c_3.15.1/src/ivyfifo.c:107-124 | appends all bytes or none, as the model decides |
| `RingFifo.IvyFifoBuffer.SendSocket` | ivy-c_3.15.1/src/ivyfifo.c:147-164 | at most two sends; what leaves is a prefix of the queue, the rest stays in order; the number of bytes left is returned, and it is 0 if and only if no send was short |
| `Replay.CallFifo` | ivy-c_3.15.1/src/ivyfifo.c:80-164 | each call on the ring buffer is a step of the byte queue and yields the bytes the queue gives up |
| `Replay.RunFifo` | ivy-c_3.15.1/src/ivyfifo.c:80-176 | every run of writes, reads and sends on a new ring buffer delivers, with what is still queued, the accepted writes in order |
| `Getopt.StrChr` | ivy-c_3.15.1/tools/getopt.c:33 | the first position of a character, the terminator included, and none exactly when it does not occur |
| `Getopt.LookUp` | ivy-c_3.15.1/tools/getopt.c:32-51 | the character behind the found one is a colon exactly when the option takes an argument |
| `Getopt.Scanner.NextOffset` | ivy-c_3.15.1/tools/getopt.c:38-42 | moving on inside a cluster, or to the next word at its end, leaves ahead what the parser makes of the letters behind |
| `Getopt.Scanner.TakeArgument` | ivy-c_3.15.1/tools/getopt.c:51-67 | the argument is the rest of the word, or the next word, or missing, as the parser has it |
| `Getopt.Scanner.GetOpt` | ivy-c_3.15.1/tools/getopt.c:8-76 | a call reports the first event of the parse of what lies ahead and leaves the rest ahead; it advances (optind, position) lexicographically; EOF changes nothing |
| `Getopt.ScanAll` | ivy-c_3.15.1/tools/getopt.c:8-76 | repeated calls terminate, for any argv, an empty one too, and their letters, arguments and remaining words are those of the recursive parser |
| `Getopt.ParseFlags` | ivy-c_3.15.1/tools/getopt.c:69-73 | known flags at the front of a cluster are reported one by one |
| `Getopt.ParseReadsBack` | ivy-c_3.15.1/tools/getopt.c:8-76 | round trip: options written in any mixture of clustered, attached and separate forms are read back as written, up to the first operand |
| `Getopt.StopsExactly` | ivy-c_3.15.1/tools/getopt.c:19-23 | nothing is reported if and only if there is no word, or the first one is empty, does not start with a dash, or is a lone dash or `--`; all words are then operands |
| `Getopt.ReportsOptions` | ivy-c_3.15.1/tools/getopt.c:28-75 | every reported letter is '?' or a letter of the option string other than ':', with an argument if and only if it takes one; what is left is a tail of the words, at which scanning stops |
| `Getopt.ParseRejected` | ivy-c_3.15.1/tools/getopt.c:32-44 | colons and letters that the option string does not have are reported one by one as '?', and optarg stays as it was |
| `Getopt.ParseMissing` | ivy-c_3.15.1/tools/getopt.c:56-60 | an option at the very end that lacks its argument is reported as '?', with optarg null |
| `Getopt.OptStringMeans` | ivy-c_3.15.1/tools/getopt.c:33-51 | an option string that lists distinct letters, some followed by a colon, is read as that list: these are the options, and these take an argument |

## Left out

- Integer width: counters, sizes and hash values are unbounded; the 32-bit wrap-around of `num_items`, of `_hs_insize` and of the FIFO's sizes is not modelled.
- Memory: malloc failure, uthash_fatal and the moment of freeing; HASH_DELETE of the last element and growth drop the old storage.
- Hash handle and element are one object, and the head variable and its UT_hash_table are another: the offset `hho`, ELMT_FROM_HH and the `tbl` back pointers are not modelled.
- The hash functions (HASH_JEN and the others): any function of the key bytes will do. The key bytes are constant; the application must not change them while the element is in a table.
- HASH_CLEAR, HASH_COUNT and HASH_EMIT_KEY, and the signatures for external analysis.
- HashTable.Hash.SelectFrom: selects into an empty destination only; the other handle of an element is given by an injective function.
- HashTable.Hash.Fsck: reports false where the macro prints and exits, and takes the forward links to end in null; the macro does not return on a cyclic list.
- HashTable.Hash.IterDelete: the choice of what to delete is a function of the element, and the loop body does nothing else to the table.
- Fields that exist only in the model: the abstract value and the element set of a table, the history of expansions, and the pass and call counts of the sort.
- TableSpec.InsertCounting tests that num_items is positive before it divides; the code does not, and need not (`TableLaws.CrowdedHasItems`).
- RingFifo.IvyFifoBuffer.SendSocket: a send takes between 0 and all of the bytes offered; the code hands a failed send's -1 to the drain unchanged, which is not modelled.
- IvyFifoFree, IvyFifoNew and IvyFifoDelete, and the callback of IvyFifoGenericRead, which its only caller leaves null. FIFO pointers are offsets into the buffer.
- getopt on an argv that the caller changes between calls; strings are sequences without the terminator, and the sign of `char` plays no part.
- ivy.c, ivyloop.c, ivysocket.c and the other users of these containers, ivybuffer.c, and the message protocol.
- The simulator, displays and other programs of the repository: mostly floating-point formulas and calls into libraries.
