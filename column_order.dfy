/**
 * Ordering the columns of a multiple alignment: the comparator that walks two
 * canonical columns side by side, and the list of all columns, each
 * canonicalised, sorted with that comparator.
 *
 * The comparator is not transitive (columns {s0:5}, {s1:3} and {s0:1, s1:7}
 * compare in a cycle), so the sorted list is claimed to be ordered only
 * between neighbours.
 */
module ColumnOrder {
  import opened Columns

  /**
   * Comparing `c1` with `c2` trips the comparator's assertion: the
   * two-cursor walk stops at two entries naming the same sequence at the
   * same position.
   */
  predicate Clashes(c1: Column, c2: Column)
    ensures Clashes(c1, c2) ==> exists e :: e in c1 && e in c2
    decreases |c1| + |c2|
  {
    if c1 == [] || c2 == [] then false
    else if c1[0].seqName == c2[0].seqName then
      assert c1[0] in c1 && c2[0] in c2;
      c1[0].position == c2[0].position
    else if c1[0].seqName < c2[0].seqName then
      assert forall e :: e in c1[1..] ==> e in c1;
      Clashes(c1[1..], c2)
    else
      assert forall e :: e in c2[1..] ==> e in c2;
      Clashes(c1, c2[1..])
  }

  /**
   * The comparator is not transitive: three columns, each with its entries
   * in canonical order, compare in a cycle.
   */
  lemma CmpColumnCycle()
    ensures !Clashes([Entry(0, 5)], [Entry(1, 3)]) && CmpColumn([Entry(0, 5)], [Entry(1, 3)]) == -1
    ensures !Clashes([Entry(1, 3)], [Entry(0, 1), Entry(1, 7)]) && CmpColumn([Entry(1, 3)], [Entry(0, 1), Entry(1, 7)]) == -1
    ensures !Clashes([Entry(0, 5)], [Entry(0, 1), Entry(1, 7)]) && CmpColumn([Entry(0, 5)], [Entry(0, 1), Entry(1, 7)]) == 1
  {
  }

  /**
   * The column comparator. Walks both columns, advancing the cursor whose
   * entry names the smaller sequence; at the first sequence both name, the
   * smaller position comparing less. If one cursor runs out first, that
   * column compares less; only two empty columns compare equal.
   */
  function CmpColumn(c1: Column, c2: Column): (r: int)
    requires !Clashes(c1, c2)
    ensures -1 <= r <= 1
    ensures r == 0 <==> c1 == [] && c2 == []
    decreases |c1| + |c2|
  {
    if c1 == [] && c2 == [] then 0
    else if c1 == [] then -1
    else if c2 == [] then 1
    else if c1[0].seqName == c2[0].seqName then
      (if c1[0].position < c2[0].position then -1 else 1)
    else if c1[0].seqName < c2[0].seqName then CmpColumn(c1[1..], c2)
    else CmpColumn(c1, c2[1..])
  }

  /** The comparator is antisymmetric, and its assertion is symmetric. */
  lemma {:induction false} CmpColumnAntisymmetric(a: Column, b: Column)
    requires !Clashes(a, b)
    ensures !Clashes(b, a)
    ensures CmpColumn(a, b) == -CmpColumn(b, a)
    decreases |a| + |b|
  {
    if a != [] && b != [] && a[0].seqName != b[0].seqName {
      if a[0].seqName < b[0].seqName {
        CmpColumnAntisymmetric(a[1..], b);
      } else {
        CmpColumnAntisymmetric(a, b[1..]);
      }
    }
  }

  /** A column that is not empty cannot be compared with itself. */
  lemma SelfComparisonClashes(c: Column)
    requires c != []
    ensures Clashes(c, c)
  {
  }

  /**
   * Columns that share no entry never trip the assertion, whatever order
   * their entries are in: a clash needs the same entry in both.
   */
  lemma {:induction false} DisjointColumnsDoNotClash(a: Column, b: Column)
    requires forall x :: x in a ==> x !in b
    ensures !Clashes(a, b)
    decreases |a| + |b|
  {
    if a != [] && b != [] {
      if a[0].seqName == b[0].seqName {
        assert a[0] in a;
      } else if a[0].seqName < b[0].seqName {
        DisjointColumnsDoNotClash(a[1..], b);
      } else {
        assert forall x :: x in b[1..] ==> x in b;
        DisjointColumnsDoNotClash(a, b[1..]);
      }
    }
  }

  /**
   * For two canonical columns the comparison is decided at the smallest
   * sequence index they share (entries a[i] and b[j]): it trips the
   * assertion exactly when the two positions there are equal, and otherwise
   * the column with the smaller position there compares less.
   */
  lemma {:induction false} CmpColumnDecidedAtLowestShared(a: Column, b: Column, i: nat, j: nat)
    requires Canonical(a) && Canonical(b)
    requires i < |a| && j < |b| && a[i].seqName == b[j].seqName
    requires forall k, l :: 0 <= k < |a| && 0 <= l < |b| && a[k].seqName == b[l].seqName ==> a[i].seqName <= a[k].seqName
    ensures Clashes(a, b) <==> a[i].position == b[j].position
    ensures !Clashes(a, b) ==> CmpColumn(a, b) == if a[i].position < b[j].position then -1 else 1
    decreases |a| + |b|
  {
    if a[0].seqName == b[0].seqName {
      if i > 0 {
        CanonicalOrdered(a, 0, i);
      }
      if j > 0 {
        CanonicalOrdered(b, 0, j);
      }
    } else if a[0].seqName < b[0].seqName {
      if j > 0 {
        CanonicalOrdered(b, 0, j);
      }
      assert i > 0;
      CmpColumnDecidedAtLowestShared(a[1..], b, i - 1, j);
    } else {
      if i > 0 {
        CanonicalOrdered(a, 0, i);
      }
      assert j > 0;
      CmpColumnDecidedAtLowestShared(a, b[1..], i, j - 1);
    }
  }

  /**
   * Two canonical columns that share no sequence are compared by which
   * cursor runs out first: an empty column compares less than a non-empty
   * one, and otherwise the column whose last entry names the smaller
   * sequence compares less.
   */
  lemma {:induction false} CmpColumnWithoutSharedSequence(a: Column, b: Column)
    requires Canonical(a) && Canonical(b)
    requires forall k, l :: 0 <= k < |a| && 0 <= l < |b| ==> a[k].seqName != b[l].seqName
    ensures !Clashes(a, b)
    ensures CmpColumn(a, b) ==
              if a == [] && b == [] then 0
              else if a == [] then -1
              else if b == [] then 1
              else if a[|a| - 1].seqName < b[|b| - 1].seqName then -1
              else 1
    decreases |a| + |b|
  {
    if a != [] && b != [] {
      assert a[0].seqName != b[0].seqName;
      if a[0].seqName < b[0].seqName {
        CmpColumnWithoutSharedSequence(a[1..], b);
        if |a| == 1 && |b| > 1 {
          CanonicalOrdered(b, 0, |b| - 1);
        }
      } else {
        CmpColumnWithoutSharedSequence(a, b[1..]);
        if |b| == 1 && |a| > 1 {
          CanonicalOrdered(a, 0, |a| - 1);
        }
      }
    }
  }

  /** No two different slots of the list hold columns whose comparison would trip the assertion. */
  predicate PairwiseComparable(cs: seq<Column>)
  {
    forall i, j :: 0 <= i < |cs| && 0 <= j < |cs| && i != j ==> !Clashes(cs[i], cs[j])
  }

  /** Each column of the list compares less than or equal to the next one. */
  predicate AdjacentOrdered(cs: seq<Column>)
  {
    |cs| <= 1 || (!Clashes(cs[0], cs[1]) && CmpColumn(cs[0], cs[1]) <= 0 && AdjacentOrdered(cs[1..]))
  }

  /** In a list ordered between neighbours, the columns at `k` and `k + 1` compare at most 0. */
  lemma {:induction false} AdjacentOrderedAt(cs: seq<Column>, k: nat)
    requires AdjacentOrdered(cs) && k + 1 < |cs|
    ensures !Clashes(cs[k], cs[k + 1]) && CmpColumn(cs[k], cs[k + 1]) <= 0
  {
    if k > 0 {
      AdjacentOrderedAt(cs[1..], k - 1);
    }
  }

  /**
   * Inserts `c` into a list whose neighbours are ordered, before the first
   * column that `c` compares less than.
   */
  function InsertColumn(c: Column, sorted: seq<Column>): (r: seq<Column>)
    requires AdjacentOrdered(sorted)
    requires forall y :: y in sorted ==> !Clashes(c, y)
    ensures AdjacentOrdered(r)
    ensures multiset(r) == multiset(sorted) + multiset{c}
    ensures r[0] == c || (sorted != [] && r[0] == sorted[0])
    decreases |sorted|
  {
    if sorted == [] || CmpColumn(c, sorted[0]) < 0 then
      [c] + sorted
    else
      CmpColumnAntisymmetric(c, sorted[0]);
      assert sorted == [sorted[0]] + sorted[1..];
      var rest := InsertColumn(c, sorted[1..]);
      assert ([sorted[0]] + rest)[1..] == rest;
      [sorted[0]] + rest
  }

  /** Dropping the first column keeps the list pairwise comparable. */
  lemma PairwiseComparableTail(cs: seq<Column>)
    requires cs != [] && PairwiseComparable(cs)
    ensures PairwiseComparable(cs[1..])
  {
    forall i, j | 0 <= i < |cs[1..]| && 0 <= j < |cs[1..]| && i != j
      ensures !Clashes(cs[1..][i], cs[1..][j])
    {
      assert cs[1..][i] == cs[i + 1] && cs[1..][j] == cs[j + 1];
    }
  }

  /** The first column is comparable with every column of any permutation of the rest. */
  lemma HeadComparable(cs: seq<Column>, rest: seq<Column>)
    requires cs != [] && PairwiseComparable(cs)
    requires multiset(rest) == multiset(cs[1..])
    ensures forall y :: y in rest ==> !Clashes(cs[0], y)
  {
    forall y | y in rest ensures !Clashes(cs[0], y) {
      assert y in multiset(cs[1..]);
      var j :| 0 <= j < |cs[1..]| && cs[1..][j] == y;
      assert cs[j + 1] == y;
    }
  }

  /**
   * Sorts a list of columns with the column comparator. The order found is
   * a permutation of the input in which every column compares less than or
   * equal to the next.
   */
  function SortColumns(cs: seq<Column>): (r: seq<Column>)
    requires PairwiseComparable(cs)
    ensures AdjacentOrdered(r)
    ensures multiset(r) == multiset(cs)
    decreases |cs|
  {
    if cs == [] then []
    else
      PairwiseComparableTail(cs);
      var rest := SortColumns(cs[1..]);
      HeadComparable(cs, rest);
      assert cs == [cs[0]] + cs[1..];
      InsertColumn(cs[0], rest)
  }

  /** Every column of the list, canonicalised, in the same slots. */
  function CanonicalizeAll(columns: seq<Column>): seq<Column>
    requires forall i :: 0 <= i < |columns| ==> DistinctSeqNames(columns[i])
  {
    seq(|columns|, i requires 0 <= i < |columns| => Canonicalize(columns[i]))
  }

  /** Canonical forms of non-empty columns are non-empty and canonical, in any order they are listed. */
  lemma CanonicalSlots(columns: seq<Column>, list: seq<Column>)
    requires forall i :: 0 <= i < |columns| ==> columns[i] != [] && DistinctSeqNames(columns[i])
    requires multiset(list) == multiset(CanonicalizeAll(columns))
    ensures forall k :: 0 <= k < |list| ==> list[k] != [] && Canonical(list[k])
  {
    var canonical := CanonicalizeAll(columns);
    forall k | 0 <= k < |list| ensures list[k] != [] && Canonical(list[k]) {
      assert list[k] in multiset(canonical);
      var m :| 0 <= m < |canonical| && canonical[m] == list[k];
      assert |canonical[m]| == |multiset(canonical[m])| == |multiset(columns[m])| == |columns[m]|;
    }
  }

  /** Every column of the list compares strictly less than the next one. */
  predicate StrictlyAscendingNeighbours(cs: seq<Column>)
  {
    forall k :: 0 <= k < |cs| - 1 ==> !Clashes(cs[k], cs[k + 1]) && CmpColumn(cs[k], cs[k + 1]) < 0
  }

  /**
   * In a list of non-empty columns ordered between neighbours, every column
   * compares strictly less than the next.
   */
  lemma AdjacentStrictlyOrdered(cs: seq<Column>)
    requires AdjacentOrdered(cs)
    requires forall k :: 0 <= k < |cs| ==> cs[k] != []
    ensures StrictlyAscendingNeighbours(cs)
  {
    forall k | 0 <= k < |cs| - 1 ensures !Clashes(cs[k], cs[k + 1]) && CmpColumn(cs[k], cs[k + 1]) < 0 {
      AdjacentOrderedAt(cs, k);
    }
  }

  /** Canonicalises every column of the list in its own slot, one slot at a time. */
  method SortEachColumn(columns: seq<Column>) returns (columnList: seq<Column>)
    requires forall i :: 0 <= i < |columns| ==> DistinctSeqNames(columns[i])
    ensures columnList == CanonicalizeAll(columns)
  {
    columnList := columns;
    for i := 0 to |columnList|
      invariant |columnList| == |columns|
      invariant forall k :: 0 <= k < i ==> columnList[k] == Canonicalize(columns[k])
      invariant forall k :: i <= k < |columns| ==> columnList[k] == columns[k]
    {
      columnList := columnList[i := Canonicalize(columnList[i])];
    }
  }

  /**
   * The column list of the alignment, in the order the column set hands it
   * out: every column is canonicalised in its slot, then the list is sorted
   * with the column comparator. Every column must hold an entry and name
   * each sequence once, and no two columns may trip the comparator's
   * assertion.
   */
  method GetSortedColumnList(columns: seq<Column>) returns (columnList: seq<Column>)
    requires forall i :: 0 <= i < |columns| ==> columns[i] != [] && DistinctSeqNames(columns[i])
    requires PairwiseComparable(CanonicalizeAll(columns))
    ensures |columnList| == |columns|
    ensures multiset(columnList) == multiset(CanonicalizeAll(columns))
    ensures forall k :: 0 <= k < |columnList| ==> columnList[k] != [] && Canonical(columnList[k])
    ensures StrictlyAscendingNeighbours(columnList)
  {
    columnList := SortEachColumn(columns);
    columnList := SortColumns(columnList);
    CanonicalSlots(columns, columnList);
    AdjacentStrictlyOrdered(columnList);
    assert |columnList| == |multiset(columnList)| == |CanonicalizeAll(columns)|;
  }
}
