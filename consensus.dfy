/**
 * Majority-vote consensus over an ordered list of alignment columns. Each
 * column entry points at one character of one input sequence; per column the
 * upper-cased A/C/G/T characters are counted, the first most frequent base
 * wins, and it is emitted only when the column holds at least `numSeqs - 2`
 * entries.
 */
module Consensus {
  import opened Columns
  import opened ColumnOrder

  /** Upper-casing of ASCII letters, as the C library's `toupper` does in the "C" locale. */
  function ToUpper(ch: char): (r: char)
    ensures 'a' <= ch <= 'z' ==> 'A' <= r <= 'Z' && r as int - 'A' as int == ch as int - 'a' as int
    ensures !('a' <= ch <= 'z') ==> r == ch
  {
    if 'a' <= ch <= 'z' then (ch as int - 32) as char else ch
  }

  /** One of the four nucleotides, in upper case. */
  predicate IsBase(ch: char)
  {
    ch == 'A' || ch == 'C' || ch == 'G' || ch == 'T'
  }

  /** The slot of a nucleotide in the count array: A, C, G, T. */
  function BaseIndex(ch: char): (k: nat)
    requires IsBase(ch)
    ensures k < 4 && "ACGT"[k] == ch
  {
    if ch == 'A' then 0 else if ch == 'C' then 1 else if ch == 'G' then 2 else 3
  }

  /** The nucleotide emitted for a winning slot. */
  function BaseOf(idx: nat): (ch: char)
    requires idx < 4
    ensures IsBase(ch) && BaseIndex(ch) == idx
  {
    if idx == 0 then 'A' else if idx == 1 then 'C' else if idx == 2 then 'G' else 'T'
  }

  /**
   * The entry names an existing sequence and a position inside it, and the
   * character there is a nucleotide once upper-cased.
   */
  predicate CallableEntry(e: Entry, seqs: seq<seq<char>>)
  {
    e.seqName < |seqs| && e.position < |seqs[e.seqName]| && IsBase(ToUpper(seqs[e.seqName][e.position]))
  }

  /** Every entry of the column can be called. */
  predicate Callable(column: Column, seqs: seq<seq<char>>)
  {
    forall k :: 0 <= k < |column| ==> CallableEntry(column[k], seqs)
  }

  /** Every column of the list can be called. */
  predicate AllCallable(columns: seq<Column>, seqs: seq<seq<char>>)
  {
    forall k :: 0 <= k < |columns| ==> Callable(columns[k], seqs)
  }

  /** The upper-cased character an entry points at. */
  function CharAt(e: Entry, seqs: seq<seq<char>>): (ch: char)
    requires CallableEntry(e, seqs)
    ensures IsBase(ch)
  {
    ToUpper(seqs[e.seqName][e.position])
  }

  /** The number of entries of the column whose character is the nucleotide of slot `b`. */
  function Tally(column: Column, seqs: seq<seq<char>>, b: nat): (n: nat)
    requires Callable(column, seqs)
    ensures n <= |column|
    decreases |column|
  {
    if column == [] then 0
    else
      var last := column[|column| - 1];
      Tally(column[..|column| - 1], seqs, b) + (if BaseIndex(CharAt(last, seqs)) == b then 1 else 0)
  }

  /** The four nucleotide counts of a column, in the order A, C, G, T. */
  function Counts(column: Column, seqs: seq<seq<char>>): seq<nat>
    requires Callable(column, seqs)
  {
    [Tally(column, seqs, 0), Tally(column, seqs, 1), Tally(column, seqs, 2), Tally(column, seqs, 3)]
  }

  /** The sum of a sequence of counts. */
  function Sum(s: seq<nat>): nat
    decreases |s|
  {
    if s == [] then 0 else Sum(s[..|s| - 1]) + s[|s| - 1]
  }

  /** The sum of four counts, written out. */
  lemma SumOfFour(s: seq<nat>)
    requires |s| == 4
    ensures Sum(s) == s[0] + s[1] + s[2] + s[3]
  {
    assert s[..3][..2] == s[..2] && s[..2][..1] == s[..1] && s[..1][..0] == [];
    calc {
      Sum(s);
      Sum(s[..3]) + s[3];
      Sum(s[..2]) + s[2] + s[3];
      Sum(s[..1]) + s[1] + s[2] + s[3];
      s[0] + s[1] + s[2] + s[3];
    }
  }

  /** Every entry is counted exactly once: the four counts add up to the number of entries. */
  lemma {:induction false} CountsSumToEntries(column: Column, seqs: seq<seq<char>>)
    requires Callable(column, seqs)
    ensures Sum(Counts(column, seqs)) == |column|
    decreases |column|
  {
    SumOfFour(Counts(column, seqs));
    if column != [] {
      var prefix := column[..|column| - 1];
      CountsSumToEntries(prefix, seqs);
      SumOfFour(Counts(prefix, seqs));
    }
  }

  /**
   * The index of the first maximum: no count exceeds it, and every earlier
   * count is strictly smaller.
   */
  function FirstMax(counts: seq<nat>): (k: nat)
    requires |counts| > 0
    ensures k < |counts|
    ensures forall j :: 0 <= j < |counts| ==> counts[j] <= counts[k]
    ensures forall j :: 0 <= j < k ==> counts[j] < counts[k]
    decreases |counts|
  {
    if |counts| == 1 then 0
    else
      var k := FirstMax(counts[..|counts| - 1]);
      if counts[|counts| - 1] > counts[k] then |counts| - 1 else k
  }

  /**
   * Ties are broken towards the earliest slot (A, then C, G, T): any index
   * holding a maximum that no earlier index reaches is the first maximum.
   */
  lemma FirstMaxIsTheEarliestMaximum(counts: seq<nat>, k: nat)
    requires k < |counts|
    requires forall j :: 0 <= j < |counts| ==> counts[j] <= counts[k]
    requires forall j :: 0 <= j < k ==> counts[j] < counts[k]
    ensures FirstMax(counts) == k
  {
  }

  /** The sequence count below which a column is not called, as a signed number. */
  function Threshold(seqs: seq<seq<char>>): int
  {
    |seqs| - 2
  }

  /** Every column of the list holds at least the threshold number of entries. */
  predicate AllPass(columns: seq<Column>, seqs: seq<seq<char>>)
  {
    forall k :: 0 <= k < |columns| ==> |columns[k]| >= Threshold(seqs)
  }

  /**
   * The consensus contribution of one column: its winning base when the
   * column's total count reaches the threshold, nothing otherwise.
   */
  function ColumnCall(column: Column, seqs: seq<seq<char>>): (r: string)
    requires Callable(column, seqs)
    ensures |r| <= 1
    ensures |r| == 1 <==> |column| >= Threshold(seqs)
    ensures |r| == 1 ==> IsBase(r[0]) && BaseIndex(r[0]) == FirstMax(Counts(column, seqs))
  {
    var counts := Counts(column, seqs);
    CountsSumToEntries(column, seqs);
    if Sum(counts) >= Threshold(seqs) then [BaseOf(FirstMax(counts))] else []
  }

  /** The consensus of a list of columns: their calls, in column order. */
  function ConsensusOf(columns: seq<Column>, seqs: seq<seq<char>>): (r: string)
    requires AllCallable(columns, seqs)
    ensures |r| <= |columns|
    decreases |columns|
  {
    if columns == [] then []
    else
      var prefix := columns[..|columns| - 1];
      assert forall k :: 0 <= k < |prefix| ==> prefix[k] == columns[k];
      ConsensusOf(prefix, seqs) + ColumnCall(columns[|columns| - 1], seqs)
  }

  /** Every emitted character is one of A, C, G, T. */
  lemma {:induction false} ConsensusIsBases(columns: seq<Column>, seqs: seq<seq<char>>)
    requires AllCallable(columns, seqs)
    ensures forall i :: 0 <= i < |ConsensusOf(columns, seqs)| ==> IsBase(ConsensusOf(columns, seqs)[i])
    decreases |columns|
  {
    if columns != [] {
      var prefix := columns[..|columns| - 1];
      assert forall k :: 0 <= k < |prefix| ==> prefix[k] == columns[k];
      ConsensusIsBases(prefix, seqs);
    }
  }

  /**
   * The consensus has one base per column exactly when every column reaches
   * the threshold.
   */
  lemma {:induction false} ConsensusFullLength(columns: seq<Column>, seqs: seq<seq<char>>)
    requires AllCallable(columns, seqs)
    ensures |ConsensusOf(columns, seqs)| == |columns| <==> AllPass(columns, seqs)
    decreases |columns|
  {
    if columns != [] {
      var prefix := columns[..|columns| - 1];
      assert forall k :: 0 <= k < |prefix| ==> prefix[k] == columns[k];
      ConsensusFullLength(prefix, seqs);
    }
  }

  /** Calling one more column appends that column's call to the consensus. */
  lemma ConsensusStep(columns: seq<Column>, i: nat, seqs: seq<seq<char>>)
    requires i < |columns|
    requires AllCallable(columns, seqs)
    ensures ConsensusOf(columns[..i + 1], seqs) == ConsensusOf(columns[..i], seqs) + ColumnCall(columns[i], seqs)
  {
    assert columns[..i + 1][..i] == columns[..i];
  }

  /** A column's call in terms of its counts' total and first maximum. */
  lemma ColumnCallFromCounts(column: Column, seqs: seq<seq<char>>, idx: nat, total: nat)
    requires Callable(column, seqs)
    requires idx == FirstMax(Counts(column, seqs)) && total == Sum(Counts(column, seqs))
    ensures ColumnCall(column, seqs) == if total >= Threshold(seqs) then [BaseOf(idx)] else []
  {
  }

  /** With at most two sequences every column passes the threshold, so every column yields a base. */
  lemma FewSequencesCallEveryColumn(columns: seq<Column>, seqs: seq<seq<char>>)
    requires AllCallable(columns, seqs)
    requires |seqs| <= 2
    ensures |ConsensusOf(columns, seqs)| == |columns|
  {
    ConsensusFullLength(columns, seqs);
  }

  /** Counting one more entry adds one to its base's count and leaves the other counts alone. */
  lemma TallyStep(column: Column, i: nat, seqs: seq<seq<char>>)
    requires Callable(column, seqs) && i < |column|
    ensures forall b :: Tally(column[..i + 1], seqs, b)
                        == Tally(column[..i], seqs, b) + (if BaseIndex(CharAt(column[i], seqs)) == b then 1 else 0)
  {
    assert column[..i + 1][..i] == column[..i];
  }

  /** Four slots holding the four bases' tallies are the column's counts. */
  lemma CountsFromTallies(counts: seq<nat>, column: Column, seqs: seq<seq<char>>)
    requires Callable(column, seqs)
    requires |counts| == 4 && forall b :: 0 <= b < 4 ==> counts[b] == Tally(column, seqs, b)
    ensures counts == Counts(column, seqs)
  {
    assert counts == [counts[0], counts[1], counts[2], counts[3]];
  }

  /** Counts the nucleotides of one column, entry by entry. */
  method CountBases(column: Column, seqs: seq<seq<char>>) returns (counts: seq<nat>)
    requires Callable(column, seqs)
    ensures counts == Counts(column, seqs)
  {
    var nucleotideArray := new nat[4](_ => 0);
    var i := 0;
    while i < |column|
      invariant 0 <= i <= |column|
      invariant forall b :: 0 <= b < 4 ==> nucleotideArray[b] == Tally(column[..i], seqs, b)
    {
      var e := column[i];
      var n := ToUpper(seqs[e.seqName][e.position]);
      TallyStep(column, i, seqs);
      // The slot each base is counted in; any other character fails the source's assertion.
      var slot: nat;
      if n == 'A' {
        slot := 0;
      } else if n == 'C' {
        slot := 1;
      } else if n == 'G' {
        slot := 2;
      } else if n == 'T' {
        slot := 3;
      } else {
        assert false;
      }
      assert slot == BaseIndex(CharAt(e, seqs));
      nucleotideArray[slot] := nucleotideArray[slot] + 1;
      i := i + 1;
    }
    assert column[..i] == column;
    counts := nucleotideArray[..];
    CountsFromTallies(counts, column, seqs);
  }

  /** Scans the counts once, keeping the running total and the first maximum. */
  method PickWinner(counts: seq<nat>) returns (idx: nat, total: nat)
    requires |counts| > 0
    ensures idx == FirstMax(counts)
    ensures total == Sum(counts)
  {
    total := 0;
    var winner := counts[0];
    idx := 0;
    for c := 0 to |counts|
      invariant c == 0 ==> idx == 0 && winner == counts[0]
      invariant c > 0 ==> idx == FirstMax(counts[..c]) && winner == counts[idx]
      invariant total == Sum(counts[..c])
    {
      assert counts[..c + 1][..c] == counts[..c];
      total := total + counts[c];
      if counts[c] > winner {
        winner := counts[c];
        idx := c;
      }
    }
    assert counts[..|counts|] == counts;
  }

  /**
   * One pass of the consensus loop: counts the column's bases, picks the
   * winner and, when the column's total reaches the threshold, writes the
   * winning base at `consensusSeqLength` and advances the length.
   */
  method CallColumn(column: Column, seqs: seq<seq<char>>, consensusSeq: array<char>, consensusSeqLength: nat)
    returns (newLength: nat)
    requires Callable(column, seqs)
    requires consensusSeqLength < consensusSeq.Length
    modifies consensusSeq
    ensures newLength <= consensusSeqLength + 1
    ensures consensusSeq[..newLength] == old(consensusSeq[..consensusSeqLength]) + ColumnCall(column, seqs)
  {
    var nucleotideArray := CountBases(column, seqs);
    var idx, total := PickWinner(nucleotideArray);
    ColumnCallFromCounts(column, seqs, idx, total);
    newLength := consensusSeqLength;
    if total >= Threshold(seqs) {
      consensusSeq[newLength] := BaseOf(idx);
      newLength := newLength + 1;
    }
  }

  /**
   * The consensus loop: calls every column in list order into a buffer of
   * one byte more than the number of columns, and terminates the result
   * with a NUL character.
   */
  method CallConsensus(columnList: seq<Column>, seqs: seq<seq<char>>)
    returns (consensusSeq: array<char>, consensusSeqLength: nat)
    requires AllCallable(columnList, seqs)
    ensures consensusSeq.Length == |columnList| + 1
    ensures consensusSeqLength <= |columnList|
    ensures consensusSeq[..consensusSeqLength] == ConsensusOf(columnList, seqs)
    ensures consensusSeq[consensusSeqLength] == '\0'
  {
    consensusSeq := new char[|columnList| + 1];
    consensusSeqLength := 0;
    for i := 0 to |columnList|
      invariant consensusSeqLength <= i
      invariant consensusSeq[..consensusSeqLength] == ConsensusOf(columnList[..i], seqs)
    {
      consensusSeqLength := CallColumn(columnList[i], seqs, consensusSeq, consensusSeqLength);
      ConsensusStep(columnList, i, seqs);
    }
    assert columnList[..|columnList|] == columnList;
    consensusSeq[consensusSeqLength] := '\0';
  }

  /** Whether a column can be called depends only on its entries, not their order. */
  lemma CallablePermutation(c: Column, d: Column, seqs: seq<seq<char>>)
    requires Callable(c, seqs)
    requires multiset(d) == multiset(c)
    ensures Callable(d, seqs)
  {
    forall k | 0 <= k < |d| ensures CallableEntry(d[k], seqs) {
      assert d[k] in multiset(c);
      var m :| 0 <= m < |c| && c[m] == d[k];
    }
  }

  /** A list holding the canonical forms of callable columns is callable. */
  lemma SortedListCallable(columns: seq<Column>, list: seq<Column>, seqs: seq<seq<char>>)
    requires forall i :: 0 <= i < |columns| ==> DistinctSeqNames(columns[i])
    requires AllCallable(columns, seqs)
    requires multiset(list) == multiset(CanonicalizeAll(columns))
    ensures AllCallable(list, seqs)
  {
    var canonical := CanonicalizeAll(columns);
    forall k | 0 <= k < |list| ensures Callable(list[k], seqs) {
      assert list[k] in multiset(canonical);
      var m :| 0 <= m < |canonical| && canonical[m] == list[k];
      CallablePermutation(columns[m], list[k], seqs);
    }
  }

  /**
   * A list holding the canonical forms of the input columns passes the
   * threshold everywhere exactly when the input columns do.
   */
  lemma SortedListPassesLikeInput(columns: seq<Column>, list: seq<Column>, seqs: seq<seq<char>>)
    requires forall i :: 0 <= i < |columns| ==> DistinctSeqNames(columns[i])
    requires multiset(list) == multiset(CanonicalizeAll(columns))
    ensures AllPass(list, seqs) <==> AllPass(columns, seqs)
  {
    var canonical := CanonicalizeAll(columns);
    if AllPass(list, seqs) {
      forall i | 0 <= i < |columns| ensures |columns[i]| >= Threshold(seqs) {
        assert |canonical[i]| == |multiset(canonical[i])| == |multiset(columns[i])|;
        assert canonical[i] in multiset(list);
        var k :| 0 <= k < |list| && list[k] == canonical[i];
      }
    }
    if AllPass(columns, seqs) {
      forall k | 0 <= k < |list| ensures |list[k]| >= Threshold(seqs) {
        assert list[k] in multiset(canonical);
        var m :| 0 <= m < |canonical| && canonical[m] == list[k];
        assert |canonical[m]| == |multiset(canonical[m])| == |multiset(columns[m])|;
      }
    }
  }

  /**
   * The column ordering and consensus calling of the aligner's main routine:
   * the alignment's columns are put in order, then called one by one. The
   * result has one base per column exactly when every input column reaches
   * the threshold.
   */
  method ConsensusOfAlignment(columns: seq<Column>, seqs: seq<seq<char>>)
    returns (columnList: seq<Column>, consensusSeq: array<char>, consensusSeqLength: nat)
    requires forall i :: 0 <= i < |columns| ==> columns[i] != [] && DistinctSeqNames(columns[i])
    requires AllCallable(columns, seqs)
    requires PairwiseComparable(CanonicalizeAll(columns))
    ensures StrictlyAscendingNeighbours(columnList)
    ensures multiset(columnList) == multiset(CanonicalizeAll(columns))
    ensures consensusSeq.Length == |columns| + 1
    ensures consensusSeqLength <= |columns|
    ensures AllCallable(columnList, seqs)
    ensures consensusSeq[..consensusSeqLength] == ConsensusOf(columnList, seqs)
    ensures consensusSeq[consensusSeqLength] == '\0'
    ensures forall i :: 0 <= i < consensusSeqLength ==> IsBase(consensusSeq[i])
    ensures consensusSeqLength == |columns| <==> AllPass(columns, seqs)
  {
    columnList := GetSortedColumnList(columns);
    SortedListCallable(columns, columnList, seqs);
    SortedListPassesLikeInput(columns, columnList, seqs);
    consensusSeq, consensusSeqLength := CallConsensus(columnList, seqs);
    ConsensusIsBases(columnList, seqs);
    ConsensusFullLength(columnList, seqs);
    forall i | 0 <= i < consensusSeqLength ensures IsBase(consensusSeq[i]) {
      assert consensusSeq[i] == consensusSeq[..consensusSeqLength][i];
    }
  }
}
