/**
 * The value view of a multiple-alignment column: a sequence of entries, each
 * naming one input sequence (by index) and one position in it. The canonical
 * form of a column lists its entries by strictly ascending sequence index.
 */
module Columns {

  /** One entry of a column: position `position` of input sequence `seqName`. */
  datatype Entry = Entry(seqName: nat, position: nat)

  /** A column, read along its chain of entries. */
  type Column = seq<Entry>

  /** No two entries of the column name the same sequence. */
  predicate DistinctSeqNames(c: Column)
  {
    forall i, j :: 0 <= i < j < |c| ==> c[i].seqName != c[j].seqName
  }

  /** The entries are in strictly ascending order of sequence index. */
  predicate Canonical(c: Column)
  {
    |c| <= 1 || (c[0].seqName < c[1].seqName && Canonical(c[1..]))
  }

  /** In a canonical column every entry names a smaller sequence than each entry after it. */
  lemma {:induction false} CanonicalOrdered(c: Column, i: nat, j: nat)
    requires Canonical(c) && i < j < |c|
    ensures c[i].seqName < c[j].seqName
    decreases |c|
  {
    if i > 0 {
      CanonicalOrdered(c[1..], i - 1, j - 1);
    } else if j > 1 {
      CanonicalOrdered(c[1..], 0, j - 1);
    }
  }

  /** A canonical column names distinct sequences. */
  lemma CanonicalIsDistinct(c: Column)
    requires Canonical(c)
    ensures DistinctSeqNames(c)
  {
    forall i, j | 0 <= i < j < |c| ensures c[i].seqName != c[j].seqName {
      CanonicalOrdered(c, i, j);
    }
  }

  /**
   * The comparator used to canonicalise a column. Two entries of one column
   * must name different sequences (the source asserts it); the order is by
   * sequence index alone.
   */
  function CmpPositions(a: Entry, b: Entry): (r: int)
    requires a.seqName != b.seqName
    ensures r == -1 || r == 1
    ensures r == -1 <==> a.seqName < b.seqName
  {
    if a.seqName < b.seqName then -1 else 1
  }

  /** Positions never influence the entry order, and the order is antisymmetric. */
  lemma CmpPositionsIgnoresPosition(a: Entry, b: Entry, p: nat, q: nat)
    requires a.seqName != b.seqName
    ensures CmpPositions(a, b) == CmpPositions(Entry(a.seqName, p), Entry(b.seqName, q))
    ensures CmpPositions(a, b) == -CmpPositions(b, a)
  {
  }

  /** Inserts `e` into the canonical column `c` at the place `CmpPositions` dictates. */
  function Insert(e: Entry, c: Column): (r: Column)
    requires Canonical(c)
    requires forall x :: x in c ==> x.seqName != e.seqName
    ensures Canonical(r)
    ensures multiset(r) == multiset(c) + multiset{e}
    ensures r[0] == e || r[0] == c[0]
    decreases |c|
  {
    if c == [] || CmpPositions(e, c[0]) < 0 then
      [e] + c
    else
      assert c == [c[0]] + c[1..];
      var rest := Insert(e, c[1..]);
      assert ([c[0]] + rest)[1..] == rest;
      [c[0]] + rest
  }

  /** Dropping the first entry keeps the names distinct, and no later entry shares the first one's name. */
  lemma DistinctTail(c: Column)
    requires DistinctSeqNames(c) && c != []
    ensures DistinctSeqNames(c[1..])
    ensures forall x :: x in c[1..] ==> x.seqName != c[0].seqName
  {
    forall x | x in c[1..] ensures x.seqName != c[0].seqName {
      var k :| 0 <= k < |c[1..]| && c[1..][k] == x;
      assert c[k + 1] == x;
    }
  }

  /** A permutation of a column whose entries all avoid `name` avoids it too. */
  lemma PermutationAvoids(r: Column, c: Column, name: nat)
    requires multiset(r) == multiset(c)
    requires forall x :: x in c ==> x.seqName != name
    ensures forall x :: x in r ==> x.seqName != name
  {
    forall x | x in r ensures x.seqName != name {
      assert x in multiset(r);
    }
  }

  /**
   * The canonical form of a column whose entries name distinct sequences:
   * the same entries, in strictly ascending order of sequence index.
   */
  function Canonicalize(c: Column): (r: Column)
    requires DistinctSeqNames(c)
    ensures Canonical(r)
    ensures multiset(r) == multiset(c)
    decreases |c|
  {
    if c == [] then []
    else
      DistinctTail(c);
      var rest := Canonicalize(c[1..]);
      PermutationAvoids(rest, c[1..], c[0].seqName);
      assert c == [c[0]] + c[1..];
      Insert(c[0], rest)
  }

  /**
   * The canonical order is unique: two canonical columns holding the same
   * entries are equal.
   */
  lemma {:induction false} CanonicalUnique(s: Column, t: Column)
    requires Canonical(s) && Canonical(t)
    requires multiset(s) == multiset(t)
    ensures s == t
    decreases |s|
  {
    if s == [] {
      assert |t| == |multiset(t)| == 0;
    } else {
      assert |t| == |multiset(t)| == |multiset(s)| == |s|;
      CanonicalHeadsAgree(s, t);
      SameHeadSameTail(s, t);
      CanonicalUnique(s[1..], t[1..]);
    }
  }

  /** Two non-empty canonical columns holding the same entries start with the same entry. */
  lemma CanonicalHeadsAgree(s: Column, t: Column)
    requires Canonical(s) && Canonical(t) && s != [] && t != []
    requires multiset(s) == multiset(t)
    ensures s[0] == t[0]
  {
    assert s[0] in multiset(t);
    var k :| 0 <= k < |t| && t[k] == s[0];
    assert t[0] in multiset(s);
    var j :| 0 <= j < |s| && s[j] == t[0];
    if k != 0 {
      CanonicalOrdered(t, 0, k);
      if j != 0 {
        CanonicalOrdered(s, 0, j);
      }
      assert false;
    }
  }

  /** Dropping equal first entries from two permutations leaves permutations. */
  lemma SameHeadSameTail(s: Column, t: Column)
    requires s != [] && t != [] && s[0] == t[0]
    requires multiset(s) == multiset(t)
    ensures multiset(s[1..]) == multiset(t[1..])
  {
    assert s == [s[0]] + s[1..] && t == [t[0]] + t[1..];
    assert multiset(s[1..]) == multiset(s) - multiset{s[0]};
    assert multiset(t[1..]) == multiset(t) - multiset{t[0]};
  }

  /** Every canonical permutation of a column is its canonical form. */
  lemma CanonicalizeIsTheCanonicalPermutation(c: Column, s: Column)
    requires DistinctSeqNames(c)
    requires Canonical(s) && multiset(s) == multiset(c)
    ensures s == Canonicalize(c)
  {
    CanonicalUnique(s, Canonicalize(c));
  }

  /** Re-canonicalising an already canonical column leaves it unchanged. */
  lemma CanonicalizeIdempotent(c: Column)
    requires Canonical(c)
    ensures DistinctSeqNames(c)
    ensures Canonicalize(c) == c
  {
    CanonicalIsDistinct(c);
    CanonicalUnique(c, Canonicalize(c));
  }
}
