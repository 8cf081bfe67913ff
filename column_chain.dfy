/**
 * A column as the aligner hands it over: a singly linked chain of nodes, one
 * per entry, joined through `nColumn`. Canonicalising a column sorts its
 * nodes by sequence index and relinks them in that order, in place.
 */
module ColumnChain {
  import opened Columns

  /** One node of a column's chain. Only the link is ever rewritten. */
  class ColumnNode {
    const seqName: nat
    const position: nat
    var nColumn: ColumnNode?

    constructor (seqName: nat, position: nat, nColumn: ColumnNode?)
      ensures this.seqName == seqName && this.position == position
      ensures this.nColumn == nColumn
    {
      this.seqName := seqName;
      this.position := position;
      this.nColumn := nColumn;
    }
  }

  /** The entry a node carries. */
  function EntryOf(n: ColumnNode): Entry
  {
    Entry(n.seqName, n.position)
  }

  /** The entries carried by a sequence of nodes, in the same order. */
  function Entries(nodes: seq<ColumnNode>): Column
  {
    seq(|nodes|, i requires 0 <= i < |nodes| => EntryOf(nodes[i]))
  }

  /**
   * `head` starts a chain that visits exactly `nodes`, in order, and ends
   * with a null link.
   */
  ghost predicate IsChain(head: ColumnNode?, nodes: seq<ColumnNode>)
    reads nodes
  {
    && head == (if nodes == [] then null else nodes[0])
    && (forall i :: 0 <= i < |nodes| - 1 ==> nodes[i].nColumn == nodes[i + 1])
    && (nodes != [] ==> nodes[|nodes| - 1].nColumn == null)
  }

  /** Reordering nodes reorders their entries the same way. */
  lemma {:induction false} EntriesPermutation(s: seq<ColumnNode>, t: seq<ColumnNode>)
    requires multiset(s) == multiset(t)
    ensures multiset(Entries(s)) == multiset(Entries(t))
    decreases |s|
  {
    if s == [] {
      assert |t| == |multiset(t)| == 0;
    } else {
      assert s[0] in multiset(t);
      var k :| 0 <= k < |t| && t[k] == s[0];
      var t' := t[..k] + t[k + 1..];
      RemoveMatching(s, t, k);
      EntriesPermutation(s[1..], t');
      EntriesPermutationStep(s, t, k);
    }
  }

  /** Putting back the matching nodes `s[0]` and `t[k]` keeps the entries permutations of each other. */
  lemma EntriesPermutationStep(s: seq<ColumnNode>, t: seq<ColumnNode>, k: nat)
    requires s != [] && k < |t| && t[k] == s[0]
    requires multiset(Entries(s[1..])) == multiset(Entries(t[..k] + t[k + 1..]))
    ensures multiset(Entries(s)) == multiset(Entries(t))
  {
    EntriesFirst(s);
    EntriesRemove(t, k);
  }

  /** Taking out the first node takes out its entry. */
  lemma EntriesFirst(s: seq<ColumnNode>)
    requires s != []
    ensures multiset(Entries(s)) == multiset{EntryOf(s[0])} + multiset(Entries(s[1..]))
  {
    var e := Entries(s);
    assert e == [e[0]] + e[1..];
    assert Entries(s[1..]) == e[1..];
  }

  /** Taking the first element out of `s` and a matching one out of `t` keeps them permutations of each other. */
  lemma RemoveMatching<T>(s: seq<T>, t: seq<T>, k: nat)
    requires multiset(s) == multiset(t) && s != [] && k < |t| && t[k] == s[0]
    ensures multiset(s[1..]) == multiset(t[..k] + t[k + 1..])
  {
    assert t == t[..k] + [t[k]] + t[k + 1..];
    assert s == [s[0]] + s[1..];
    calc {
      multiset(s[1..]);
      multiset(s) - multiset{s[0]};
      multiset(t) - multiset{t[k]};
      multiset(t[..k]) + multiset(t[k + 1..]);
      multiset(t[..k] + t[k + 1..]);
    }
  }

  /** Taking out the node at `k` takes out its entry. */
  lemma EntriesRemove(t: seq<ColumnNode>, k: nat)
    requires k < |t|
    ensures multiset(Entries(t)) == multiset{EntryOf(t[k])} + multiset(Entries(t[..k] + t[k + 1..]))
  {
    var e := Entries(t);
    assert e == e[..k] + [e[k]] + e[k + 1..];
    assert Entries(t[..k] + t[k + 1..]) == e[..k] + e[k + 1..];
  }

  /** Entries in strictly ascending order of sequence index form a canonical column. */
  lemma {:induction false} AscendingIsCanonical(c: Column)
    requires forall i, j :: 0 <= i < j < |c| ==> c[i].seqName < c[j].seqName
    ensures Canonical(c)
    decreases |c|
  {
    if |c| > 1 {
      AscendingIsCanonical(c[1..]);
    }
  }

  /** No two nodes name the same sequence. */
  ghost predicate NamesDistinct(s: seq<ColumnNode>)
  {
    forall k, l :: 0 <= k < l < |s| ==> s[k].seqName != s[l].seqName
  }

  /** Distinct sequence names of the nodes are distinct sequence names of their entries. */
  lemma NamesDistinctIsDistinctEntries(s: seq<ColumnNode>)
    ensures NamesDistinct(s) <==> DistinctSeqNames(Entries(s))
  {
    var e := Entries(s);
    assert forall k :: 0 <= k < |s| ==> e[k].seqName == s[k].seqName;
  }

  /** Up to index `hi`, the nodes other than the one at `j` are in ascending order. */
  ghost predicate AscendingExcept(s: seq<ColumnNode>, j: nat, hi: nat)
  {
    forall k, l :: 0 <= k < l <= hi && l < |s| && k != j && l != j ==> s[k].seqName < s[l].seqName
  }

  /** The node at `j` names a smaller sequence than every node after it up to `hi`. */
  ghost predicate BelowAfter(s: seq<ColumnNode>, j: nat, hi: nat)
  {
    j < |s| && forall l :: j < l <= hi && l < |s| ==> s[j].seqName < s[l].seqName
  }

  /** One swap of the insertion step keeps the step's invariant, with the moving node one place lower. */
  lemma SwapDown(s: seq<ColumnNode>, j: nat, hi: nat)
    requires 0 < j <= hi < |s|
    requires NamesDistinct(s) && AscendingExcept(s, j, hi) && BelowAfter(s, j, hi)
    requires s[j - 1].seqName > s[j].seqName
    ensures NamesDistinct(s[j - 1 := s[j]][j := s[j - 1]])
    ensures AscendingExcept(s[j - 1 := s[j]][j := s[j - 1]], j - 1, hi)
    ensures BelowAfter(s[j - 1 := s[j]][j := s[j - 1]], j - 1, hi)
    ensures multiset(s[j - 1 := s[j]][j := s[j - 1]]) == multiset(s)
  {
    var s' := s[j - 1 := s[j]][j := s[j - 1]];
    forall k, l | 0 <= k < l < |s'| ensures s'[k].seqName != s'[l].seqName {
      var k' := if k == j - 1 then j else if k == j then j - 1 else k;
      var l' := if l == j - 1 then j else if l == j then j - 1 else l;
      assert s'[k] == s[k'] && s'[l] == s[l'];
      if k' > l' {
        assert s[l'].seqName != s[k'].seqName;
      }
    }
    forall k, l | 0 <= k < l <= hi && l < |s'| && k != j - 1 && l != j - 1
      ensures s'[k].seqName < s'[l].seqName
    {
      if l == j {
        assert s'[l] == s[j - 1];
      } else if k == j {
        assert s'[k] == s[j - 1];
      }
    }
  }

  /** The nodes before index `n` are in ascending order of sequence index. */
  ghost predicate AscendingPrefix(s: seq<ColumnNode>, n: nat)
  {
    forall k, l :: 0 <= k < l < n && l < |s| ==> s[k].seqName < s[l].seqName
  }

  /** `s` and `t` have the same length and hold the same nodes after index `hi`. */
  ghost predicate SameAfter(s: seq<ColumnNode>, t: seq<ColumnNode>, hi: nat)
  {
    |s| == |t| && forall k :: hi < k < |s| ==> s[k] == t[k]
  }

  /** Holding the same nodes after `hi` chains from one swap to the next. */
  lemma SameAfterTrans(r: seq<ColumnNode>, s: seq<ColumnNode>, t: seq<ColumnNode>, hi: nat)
    requires SameAfter(r, s, hi) && SameAfter(s, t, hi)
    ensures SameAfter(r, t, hi)
  {
  }

  /** Holding the same nodes after `hi` is equality of the suffixes from `hi + 1`. */
  lemma SameAfterSuffix(s: seq<ColumnNode>, t: seq<ColumnNode>, hi: nat)
    requires hi < |s| && SameAfter(s, t, hi)
    ensures s[hi + 1..] == t[hi + 1..]
  {
    var u, v := s[hi + 1..], t[hi + 1..];
    assert forall k :: 0 <= k < |u| ==> u[k] == v[k];
  }

  /** Starting the insertion step: the node at `hi` is the one out of place. */
  lemma SinkStart(s: seq<ColumnNode>, hi: nat)
    requires hi < |s| && AscendingPrefix(s, hi)
    ensures AscendingExcept(s, hi, hi) && BelowAfter(s, hi, hi)
  {
  }

  /** The insertion step is finished: the prefix up to `hi` is ascending. */
  lemma SinkDone(s: seq<ColumnNode>, j: nat, hi: nat)
    requires j <= hi < |s|
    requires AscendingExcept(s, j, hi) && BelowAfter(s, j, hi)
    requires j > 0 ==> s[j - 1].seqName < s[j].seqName
    ensures AscendingPrefix(s, hi + 1)
  {
    forall k, l | 0 <= k < l <= hi ensures s[k].seqName < s[l].seqName {
      if l == j && k < j - 1 {
        assert s[k].seqName < s[j - 1].seqName;
      }
    }
  }

  /** Swaps the out-of-place node at `j` with the node before it, keeping the insertion step's invariant. */
  method SwapWithPrevious(a: array<ColumnNode>, j: nat, i: nat, ghost before: seq<ColumnNode>)
    requires 0 < j <= i < a.Length
    requires NamesDistinct(a[..]) && AscendingExcept(a[..], j, i) && BelowAfter(a[..], j, i)
    requires a[j - 1].seqName > a[j].seqName
    requires multiset(a[..]) == multiset(before) && SameAfter(a[..], before, i)
    modifies a
    ensures NamesDistinct(a[..]) && AscendingExcept(a[..], j - 1, i) && BelowAfter(a[..], j - 1, i)
    ensures multiset(a[..]) == multiset(before) && SameAfter(a[..], before, i)
    ensures a[..] == old(a[..])[j - 1 := old(a[j])][j := old(a[j - 1])]
  {
    ghost var s := a[..];
    SwapDown(s, j, i);
    a[j - 1], a[j] := a[j], a[j - 1];
    assert a[..] == s[j - 1 := s[j]][j := s[j - 1]];
    assert SameAfter(a[..], s, i);
    SameAfterTrans(a[..], s, before, i);
  }

  /**
   * Moves the node at index `i` down into the ascending prefix `a[..i]`,
   * comparing neighbours with `CmpPositions`; the nodes after `i` stay put.
   */
  method SinkIntoPrefix(a: array<ColumnNode>, i: nat)
    requires i < a.Length
    requires NamesDistinct(a[..]) && AscendingPrefix(a[..], i)
    modifies a
    ensures multiset(a[..]) == old(multiset(a[..]))
    ensures NamesDistinct(a[..]) && AscendingPrefix(a[..], i + 1)
    ensures a[i + 1..] == old(a[i + 1..])
  {
    ghost var before := a[..];
    SinkStart(a[..], i);
    var j := i;
    while j > 0 && CmpPositions(EntryOf(a[j - 1]), EntryOf(a[j])) > 0
      invariant 0 <= j <= i
      invariant multiset(a[..]) == multiset(before)
      invariant NamesDistinct(a[..])
      invariant AscendingExcept(a[..], j, i) && BelowAfter(a[..], j, i)
      invariant SameAfter(a[..], before, i)
    {
      SwapWithPrevious(a, j, i, before);
      j := j - 1;
    }
    if j > 0 {
      assert a[..][j - 1].seqName != a[..][j].seqName;
    }
    SinkDone(a[..], j, i);
    SameAfterSuffix(a[..], before, i);
  }

  /**
   * Sorts the node list by sequence index, the job `stList_sort` does with
   * `cmpPositions` in the source; here an insertion sort.
   */
  method SortBySeqName(a: array<ColumnNode>)
    requires NamesDistinct(a[..])
    modifies a
    ensures multiset(a[..]) == old(multiset(a[..]))
    ensures AscendingPrefix(a[..], a.Length)
  {
    var i := 0;
    while i < a.Length
      invariant 0 <= i <= a.Length
      invariant multiset(a[..]) == old(multiset(a[..]))
      invariant NamesDistinct(a[..]) && AscendingPrefix(a[..], i)
    {
      SinkIntoPrefix(a, i);
      i := i + 1;
    }
  }

  /** A permutation of a column's nodes with the same entries, in the same order, is the same node sequence. */
  lemma SameEntriesSameNodes(s: seq<ColumnNode>, nodes: seq<ColumnNode>)
    requires DistinctSeqNames(Entries(nodes))
    requires multiset(s) == multiset(nodes) && Entries(s) == Entries(nodes)
    ensures s == nodes
  {
    forall i | 0 <= i < |s| ensures s[i] == nodes[i] {
      assert s[i] in multiset(nodes);
      var j :| 0 <= j < |nodes| && nodes[j] == s[i];
      assert Entries(nodes)[j].seqName == Entries(nodes)[i].seqName;
    }
  }

  /** The sorted order of a column's nodes carries exactly the canonical form of its entries. */
  lemma SortedNodesAreCanonical(s: seq<ColumnNode>, nodes: seq<ColumnNode>)
    requires DistinctSeqNames(Entries(nodes))
    requires multiset(s) == multiset(nodes) && AscendingPrefix(s, |s|)
    ensures Entries(s) == Canonicalize(Entries(nodes))
    ensures Canonical(Entries(nodes)) ==> s == nodes
  {
    AscendingIsCanonical(Entries(s));
    EntriesPermutation(s, nodes);
    CanonicalizeIsTheCanonicalPermutation(Entries(nodes), Entries(s));
    if Canonical(Entries(nodes)) {
      CanonicalizeIdempotent(Entries(nodes));
      SameEntriesSameNodes(s, nodes);
    }
  }

  /** Walks the chain from `c`, appending every node to a list. */
  method CollectChain(c: ColumnNode?, ghost nodes: seq<ColumnNode>) returns (list: seq<ColumnNode>)
    requires IsChain(c, nodes)
    ensures list == nodes
  {
    list := [];
    var cur := c;
    while cur != null
      invariant |list| <= |nodes|
      invariant list == nodes[..|list|]
      invariant cur == if |list| < |nodes| then nodes[|list|] else null
      decreases |nodes| - |list|
    {
      list := list + [cur];
      cur := cur.nColumn;
    }
  }

  /**
   * Relinks the nodes of `a` in array order: each node's link points at the
   * next node and the last node's link is null. A single node keeps its
   * link, which must already be null.
   */
  method Relink(a: array<ColumnNode>)
    requires a.Length > 0 && AscendingPrefix(a[..], a.Length)
    requires a.Length == 1 ==> a[0].nColumn == null
    modifies a[..]
    ensures IsChain(a[0], a[..])
  {
    ghost var s := a[..];
    for i := 0 to a.Length - 1
      invariant forall k :: 0 <= k < i ==> a[k].nColumn == a[k + 1]
      invariant i > 0 ==> a[i].nColumn == null
      invariant a.Length == 1 ==> a[0].nColumn == null
    {
      var c1 := a[i];
      var c2 := a[i + 1];
      assert forall k :: 0 <= k < i ==> a[k] != c1 && a[k] != c2 by {
        forall k | 0 <= k < i ensures a[k] != c1 && a[k] != c2 {
          assert s[k].seqName < s[i].seqName < s[i + 1].seqName;
        }
      }
      c1.nColumn := c2;
      c2.nColumn := null;
    }
  }

  /**
   * Canonicalises one column in place: collects the chain's nodes into a
   * list, sorts the list by sequence index and relinks the nodes in that
   * order. The chain must hold at least one node (the first node of the
   * sorted list is returned) and name each sequence at most once (the
   * comparator asserts it). `sorted` is the new order of the same nodes.
   */
  method SortColumn(c: ColumnNode?, ghost nodes: seq<ColumnNode>) returns (r: ColumnNode, ghost sorted: seq<ColumnNode>)
    requires IsChain(c, nodes)
    requires c != null
    requires DistinctSeqNames(Entries(nodes))
    modifies nodes
    ensures IsChain(r, sorted)
    ensures multiset(sorted) == multiset(nodes)
    ensures Entries(sorted) == Canonicalize(Entries(nodes))
    ensures Canonical(Entries(nodes)) ==> sorted == nodes && r == c
  {
    var list := CollectChain(c, nodes);
    // The list's backing array, sorted in place by sequence index.
    var a := new ColumnNode[|list|](i requires 0 <= i < |list| => list[i]);
    assert a[..] == nodes;
    NamesDistinctIsDistinctEntries(nodes);
    SortBySeqName(a);
    sorted := a[..];
    assert forall k :: 0 <= k < a.Length ==> a[k] in nodes by {
      forall k | 0 <= k < a.Length ensures a[k] in nodes {
        assert sorted[k] in multiset(sorted);
      }
    }
    assert a.Length == 1 ==> a[0] == nodes[0] by {
      if a.Length == 1 {
        assert sorted[0] in multiset(nodes);
      }
    }
    Relink(a);
    r := a[0];
    SortedNodesAreCanonical(sorted, nodes);
  }
}
