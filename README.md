# Column ordering and consensus calling of cPecanMultipleAlign

`cPecanMultipleAlign` builds a multiple alignment of several sequencing reads,
then turns it into one consensus sequence. The aligner returns an unordered
set of columns. Each column is a singly linked chain of `Column` nodes. Each
node names one input sequence (`seqName`, its index in the read list) and one
position in it (`position`), and links to the next node (`nColumn`).

This project models the part of the program that orders those columns and
calls the consensus from them:

- `cmpPositions` orders the entries of one column by sequence index.
- `sortColumn` puts one chain in that order, in place, by relinking its nodes.
- `cmpColumnFn` compares two canonical columns with a two-cursor walk.
- `getSortedColumnList` canonicalises every column and sorts the list with
  `cmpColumnFn`.
- The consensus loop of `main` counts A/C/G/T per column, picks the first
  most frequent base, and emits it when the column has at least
  `numSeqs - 2` entries.

Modules:

- `Columns` (columns.dfy) holds the value view of a column: a sequence of
  `Entry(seqName, position)`. It defines `CmpPositions` and the canonical
  form: entries in strictly ascending sequence index. The canonical form is
  unique.
- `ColumnChain` (column_chain.dfy) holds the linked view: a `ColumnNode` class
  whose `nColumn` link is rewritten, and `SortColumn`. `SortColumn` collects
  the chain into an array, sorts the array in place by sequence index and
  relinks the nodes in that order.
- `ColumnOrder` (column_order.dfy) holds `CmpColumn`, the recursive form of
  the two-cursor walk, and `GetSortedColumnList`.
- `Consensus` (consensus.dfy) holds the consensus loop, split into counting,
  winner picking and appending. It also holds the pipeline of `main` from
  the column set to the NUL-terminated consensus buffer.

The source's C `assert`s become preconditions:

- in `cmpPositions`, two entries of one column never name the same sequence
  (line 48);
- in `cmpColumnFn`, the walk never stops at two equal positions (line 84),
  stated exactly by the recursive predicate `ColumnOrder.Clashes`;
- in the consensus loop of `main`, every character read is A, C, G or T
  after upper-casing (line 183).

A few further preconditions exclude inputs on which the source reads out of
bounds or fails inside sonLib. They are listed under "## Left out".

`cmpColumnFn` is not transitive. For example, the columns `{s0:5}`, `{s1:3}`
and `{s0:1, s1:7}` compare in a cycle (`ColumnOrder.CmpColumnCycle`). The sorted list is therefore claimed
to be ordered only between neighbours, never as a total order.

## Model

| member | source | states |
|---|---|---|
| Columns.CmpPositions | cPecanMultipleAlign.c:45-50 | for entries naming different sequences the result is -1 or 1, and -1 exactly when the first names the smaller sequence |
| Columns.CmpPositionsIgnoresPosition | cPecanMultipleAlign.c:45-50 | the entry order does not depend on positions and is antisymmetric |
| Columns.CanonicalOrdered | cPecanMultipleAlign.c:52-68 | in a canonical column every entry names a smaller sequence than every later entry |
| Columns.CanonicalIsDistinct | cPecanMultipleAlign.c:48 | a canonical column names each sequence at most once, as the entry comparator asserts |
| Columns.Insert | cPecanMultipleAlign.c:58 | inserting an entry with a new sequence into a canonical column gives a canonical column holding one more entry, the inserted one |
| Columns.Canonicalize | cPecanMultipleAlign.c:52-68 | the canonical form of a column naming distinct sequences is canonical and a permutation of its entries |
| Columns.CanonicalUnique | cPecanMultipleAlign.c:52-68 | two canonical columns with the same entries are equal, so sorting by sequence index has one result |
| Columns.CanonicalizeIsTheCanonicalPermutation | cPecanMultipleAlign.c:52-68 | every canonical permutation of a column is its canonical form |
| Columns.CanonicalizeIdempotent | cPecanMultipleAlign.c:52-68 | canonicalising a canonical column returns it unchanged |
| ColumnChain.ColumnNode.constructor | cPecanMultipleAlign.c:52-66 | a node carries the sequence index, position and link it was built with |
| ColumnChain.NamesDistinctIsDistinctEntries | cPecanMultipleAlign.c:48 | the nodes name distinct sequences exactly when their entries do |
| ColumnChain.EntriesPermutation | cPecanMultipleAlign.c:58 | reordering nodes reorders their entries the same way |
| ColumnChain.AscendingIsCanonical | cPecanMultipleAlign.c:58 | entries in ascending sequence order form a canonical column |
| ColumnChain.CollectChain | cPecanMultipleAlign.c:53-57 | walking the chain to its null link collects exactly the chain's nodes, in chain order |
| ColumnChain.SwapWithPrevious | cPecanMultipleAlign.c:58 | the new array is the old one with the nodes at `j - 1` and `j` exchanged and nothing else changed; this moves the out-of-place node one place down and keeps the insertion step's invariants: distinct nodes, the rest of the prefix ascending, a permutation, the nodes after the prefix in place |
| ColumnChain.SinkIntoPrefix | cPecanMultipleAlign.c:58 | one insertion step by `CmpPositions` extends the ascending prefix by one node, permutes the array, and leaves every node after index `i` where it was |
| ColumnChain.SortBySeqName | cPecanMultipleAlign.c:58 | the node array is sorted by strictly ascending sequence index and is a permutation of its old contents |
| ColumnChain.SortedNodesAreCanonical | cPecanMultipleAlign.c:58 | a sorted permutation of a column's nodes carries its canonical form, and the original order when that was canonical already |
| ColumnChain.Relink | cPecanMultipleAlign.c:59-64 | after relinking, the array's nodes form one chain in array order whose last link is null |
| ColumnChain.SortColumn | cPecanMultipleAlign.c:52-68 | the returned head starts a null-terminated chain over a permutation of the same nodes, carrying the canonical form of the column; a canonical chain is returned unchanged, with the same head (idempotence) |
| ColumnOrder.Clashes | cPecanMultipleAlign.c:83-84 | the walk of `cmpColumnFn` reaches two entries with the same sequence and the same position, so the assertion fails; this needs an entry common to both columns |
| ColumnOrder.CmpColumnCycle | cPecanMultipleAlign.c:70-95 | three canonical columns compare in a cycle, so the comparator is not transitive |
| ColumnOrder.CmpColumn | cPecanMultipleAlign.c:70-95 | the comparison is -1, 0 or 1, and 0 exactly when both columns are empty |
| ColumnOrder.CmpColumnAntisymmetric | cPecanMultipleAlign.c:70-95 | swapping the columns negates the result and keeps the assertion from failing |
| ColumnOrder.SelfComparisonClashes | cPecanMultipleAlign.c:83-86 | comparing a non-empty column with itself fails the position assertion |
| ColumnOrder.DisjointColumnsDoNotClash | cPecanMultipleAlign.c:83-86 | columns sharing no entry never fail the position assertion |
| ColumnOrder.CmpColumnDecidedAtLowestShared | cPecanMultipleAlign.c:70-95 | for canonical columns the assertion fails exactly when the positions at the lowest shared sequence are equal; otherwise the smaller position there compares less |
| ColumnOrder.CmpColumnWithoutSharedSequence | cPecanMultipleAlign.c:70-95 | with no shared sequence the walk runs a cursor out: an empty column compares less, otherwise the column whose last entry names the smaller sequence does |
| ColumnOrder.AdjacentOrderedAt | cPecanMultipleAlign.c:105 | a list ordered between neighbours has every neighbouring pair comparing at most 0 |
| ColumnOrder.InsertColumn | cPecanMultipleAlign.c:105 | inserting a column into a neighbour-ordered list keeps it neighbour-ordered and adds exactly that column |
| ColumnOrder.SortColumns | cPecanMultipleAlign.c:105 | sorting with the column comparator gives a permutation that is ordered between neighbours |
| ColumnOrder.CanonicalSlots | cPecanMultipleAlign.c:100-102 | any permutation of canonicalised non-empty columns holds only non-empty canonical columns |
| ColumnOrder.AdjacentStrictlyOrdered | cPecanMultipleAlign.c:105 | among non-empty columns, neighbour order is strict: each column compares -1 against the next |
| ColumnOrder.SortEachColumn | cPecanMultipleAlign.c:100-102 | the loop replaces every column by its canonical form in its own slot |
| ColumnOrder.GetSortedColumnList | cPecanMultipleAlign.c:97-107 | the result holds every input column exactly once in canonical form, each non-empty, and each compares strictly less than the next |
| Consensus.ToUpper | cPecanMultipleAlign.c:178 | lower-case ASCII letters map to the matching upper-case letter; every other character is unchanged |
| Consensus.BaseIndex | cPecanMultipleAlign.c:179-182 | A, C, G and T are counted in slots 0 to 3 in that order |
| Consensus.BaseOf | cPecanMultipleAlign.c:204 | the winning slot maps back to the base counted in it |
| Consensus.Tally | cPecanMultipleAlign.c:175-185 | a base's count never exceeds the column's number of entries |
| Consensus.CountsSumToEntries | cPecanMultipleAlign.c:174-194 | the four counts add up to the number of entries in the column |
| Consensus.FirstMax | cPecanMultipleAlign.c:190-199 | the winner is a maximum count, and every earlier slot's count is strictly smaller |
| Consensus.FirstMaxIsTheEarliestMaximum | cPecanMultipleAlign.c:195-198 | ties go to the earliest slot (A, C, G, T): the only index that is a maximum with no earlier maximum is the winner |
| Consensus.ColumnCall | cPecanMultipleAlign.c:203-205 | a column yields at most one base, one exactly when it has at least `numSeqs - 2` entries, and that base is the first most frequent one |
| Consensus.ConsensusOf | cPecanMultipleAlign.c:164-210 | the consensus is never longer than the number of columns |
| Consensus.ConsensusIsBases | cPecanMultipleAlign.c:204 | every emitted character is A, C, G or T |
| Consensus.ConsensusFullLength | cPecanMultipleAlign.c:203-205 | the consensus has one base per column exactly when every column reaches the threshold |
| Consensus.FewSequencesCallEveryColumn | cPecanMultipleAlign.c:203 | with at most two sequences the threshold is at most 0, so every column yields a base |
| Consensus.CountBases | cPecanMultipleAlign.c:174-185 | walking a column's entries leaves each slot holding that base's count |
| Consensus.PickWinner | cPecanMultipleAlign.c:189-199 | the scan returns the first-maximum slot and the total of all counts |
| Consensus.CallColumn | cPecanMultipleAlign.c:168-205 | one iteration appends the column's call to the buffer contents, advancing the length by at most one |
| Consensus.CallConsensus | cPecanMultipleAlign.c:164-210 | the buffer has one byte per column plus one; its first `consensusSeqLength` bytes are the consensus, followed by NUL, and the length never exceeds the number of columns |
| Consensus.CallablePermutation | cPecanMultipleAlign.c:176-183 | whether a column's characters can be counted does not depend on the order of its entries |
| Consensus.SortedListCallable | cPecanMultipleAlign.c:160-183 | ordering the columns keeps every column countable |
| Consensus.SortedListPassesLikeInput | cPecanMultipleAlign.c:203 | the ordered columns all reach the threshold exactly when the input columns do |
| Consensus.ConsensusOfAlignment | cPecanMultipleAlign.c:160-210 | the consensus of the ordered columns is written NUL-terminated, is only A/C/G/T, is no longer than the number of columns, and has one base per column exactly when every input column reaches the threshold |

## Left out

- Reading the FASTA input, building the HMM and running `makeAlignment` are not modelled. The alignment's column set is an input to the model. Its iteration order is taken as the order of the input list.
- Writing the consensus with `fastaWrite`, and the reference comparison with its floating-point identity after line 210, are not modelled. Neither are the progress `printf`s or freeing memory.
- `stList_sort` hands the list to the C library's `qsort` and is not part of this model. `ColumnChain.SortBySeqName` and `ColumnOrder.SortColumns` are insertion sorts that produce an order the source's calls would accept. For `cmpPositions` the result is the same, because the canonical order is unique. For `cmpColumnFn`, which is not transitive, the model claims only neighbour order and permutation. A library sort gives no such guarantee with an inconsistent comparator, so the source's exact output order is not captured.
- `ColumnOrder.GetSortedColumnList` works on column values. It does not relink chains. The in-place relinking of one column is modelled once, by `ColumnChain.SortColumn`.
- `Consensus.CountBases` walks a column as a sequence of entries rather than following the `nColumn` links. The chain-to-entries view is established by `ColumnChain.CollectChain`.
- The unused `columnNucleotides` list (lines 169 and 208) is not modelled.
- `int64_t` widths are not modelled. Counts, lengths and indices are unbounded naturals; the counts cannot exceed the number of reads.
- `toupper` is modelled for the "C" locale only (ASCII letters).
- ColumnChain.SortColumn requires a non-empty chain. On an empty chain the source reads element 0 of an empty list at line 65 and fails inside sonLib; the model does not describe that failure.
- ColumnOrder.GetSortedColumnList requires every column to be non-empty, for the same reason: each column goes through `sortColumn` at line 101.
- ColumnOrder.GetSortedColumnList requires that no two columns clash at the line-84 assertion (`PairwiseComparable`). The source needs this only for the pairs `qsort` happens to compare, which depends on the library's algorithm and is not modelled.
- Consensus.CallableEntry requires `seqName` to index an existing sequence and `position` to lie inside it. The source fails in `stList_get` at line 177 on a bad `seqName`, and reads out of bounds at line 178 on a bad `position`; neither failure is modelled.
