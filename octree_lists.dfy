// The doubly linked lists of entries (`NodeList` of cg/src/octree.rs): how
// pushing, unlinking, relinking and repairing backward links keep a list
// record and its ghost sequence in step.
module OctreeLists {
  import opened OctreeGeometry
  import opened OctreeState

  /// Two records of one entry agree on everything a list looks at.
  ghost predicate SameLink<T>(a: AbNode<T>, b: AbNode<T>) {
    OwnerOf(a) == OwnerOf(b) && a.next == b.next && a.prev == b.prev
  }

  /// The first element of a list, as a set.
  function HeadSet(L: seq<nat>): set<nat> {
    if |L| == 0 then {} else {L[0]}
  }

  /// `NodeList::remove` on the records: the predecessor skips the removed
  /// entry and the successor points back past it.
  function UnlinkAbs<T>(abs: Entries<T>, prev: nat, next: nat): (r: Entries<T>)
    ensures r.Keys == abs.Keys
    ensures forall y | y in abs && y != prev && y != next :: r[y] == abs[y]
    ensures forall y | y in abs :: r[y] == abs[y].(prev := r[y].prev, next := r[y].next)
  {
    var a := if prev > 0 && prev in abs then abs[prev := abs[prev].(next := next)] else abs;
    if next > 0 && next in a then a[next := a[next].(prev := prev)] else a
  }

  /// `NodeList::remove` on the list record.
  function UnlinkList(nl: NodeList, prev: nat, next: nat): NodeList
    requires nl.len > 0
  {
    NodeList(if prev > 0 then nl.head else next, nl.len - 1)
  }

  /// A list stays linked when the records it looks at keep their links; its
  /// stale set may only grow, and so may its skipped set.
  lemma LinkedFrame<T>(abs: Entries<T>, abs': Entries<T>, nl: NodeList, L: seq<nat>, o: Owner,
                       stale: set<nat>, stale': set<nat>, skip: set<nat>, skip': set<nat>)
    requires Linked(abs, nl, L, o, stale, skip) && skip <= skip'
    requires forall k | 0 <= k < |L| && L[k] !in skip' && L[k] in abs ::
      L[k] in abs' && SameLink(abs[L[k]], abs'[L[k]]) && (L[k] in stale ==> L[k] in stale')
    ensures Linked(abs', nl, L, o, stale', skip')
  {
    forall k | 0 <= k < |L| && L[k] !in skip'
      ensures LinkOk(abs', L, k, o, stale')
    {
      assert LinkOk(abs, L, k, o, stale);
    }
  }

  /// `NodeList::push` with the new head linked to the old one: the old
  /// head's backward link is left stale.
  lemma LinkedPush<T>(abs: Entries<T>, nl: NodeList, L: seq<nat>, o: Owner, stale: set<nat>,
                      x: nat, e: AbNode<T>)
    requires Linked(abs, nl, L, o, stale, {})
    requires x != 0 && x !in L && OwnerOf(e) == o && e.next == nl.head && e.prev == 0
    ensures Linked(abs[x := e], NodeList(x, nl.len + 1), [x] + L, o, stale + HeadSet(L), {})
  {
    var abs', L', stale' := abs[x := e], [x] + L, stale + HeadSet(L);
    forall k | 0 <= k < |L'|
      ensures LinkOk(abs', L', k, o, stale')
    {
      if k > 0 {
        assert L'[k] == L[k - 1];
        assert LinkOk(abs, L, k - 1, o, stale);
      }
    }
    forall i, j | 0 <= i < j < |L'|
      ensures L'[i] != L'[j]
    {
      if i > 0 {
        assert L'[i] == L[i - 1] && L'[j] == L[j - 1];
      } else {
        assert L'[j] == L[j - 1];
      }
    }
  }

  /// Setting the backward link of the second element repairs it.
  lemma LinkedFixHead<T>(abs: Entries<T>, nl: NodeList, L: seq<nat>, o: Owner, stale: set<nat>,
                         skip: set<nat>)
    requires Linked(abs, nl, L, o, stale, skip) && |L| >= 2 && L[1] !in skip && L[1] in abs
    ensures Linked(abs[L[1] := abs[L[1]].(prev := L[0])], nl, L, o, stale - {L[1]}, skip)
  {
    var abs' := abs[L[1] := abs[L[1]].(prev := L[0])];
    forall k | 0 <= k < |L| && L[k] !in skip
      ensures LinkOk(abs', L, k, o, stale - {L[1]})
    {
      assert LinkOk(abs, L, k, o, stale);
      if k != 1 {
        assert L[k] != L[1];
      }
    }
  }

  /// `NodeList::remove` of the entry at position `k`, whose own record is
  /// not looked at any more.
  lemma LinkedUnlink<T>(abs: Entries<T>, nl: NodeList, L: seq<nat>, o: Owner, stale: set<nat>, k: nat)
    requires k < |L| && Linked(abs, nl, L, o, stale, {L[k]})
    ensures nl.len > 0
    ensures Linked(UnlinkAbs(abs, PrevOf(L, k), NextOf(L, k)),
                   UnlinkList(nl, PrevOf(L, k), NextOf(L, k)), L[..k] + L[k + 1..], o, stale, {})
  {
    var L' := L[..k] + L[k + 1..];
    assert |L'| == |L| - 1;
    forall j | 0 <= j < |L'|
      ensures LinkOk(UnlinkAbs(abs, PrevOf(L, k), NextOf(L, k)), L', j, o, stale)
    {
      UnlinkLinkOk(abs, nl, L, o, stale, k, j);
    }
    forall i, j | 0 <= i < j < |L'|
      ensures L'[i] != L'[j]
    {
      var i0 := if i < k then i else i + 1;
      var j0 := if j < k then j else j + 1;
      assert L'[i] == L[i0] && L'[j] == L[j0];
    }
    assert 0 !in L' by {
      forall j | 0 <= j < |L'| ensures L'[j] != 0 {
        var j0 := if j < k then j else j + 1;
        assert L'[j] == L[j0];
      }
    }
  }

  /// Position `j` of the list with its entry `k` unlinked.
  lemma UnlinkLinkOk<T>(abs: Entries<T>, nl: NodeList, L: seq<nat>, o: Owner, stale: set<nat>, k: nat, j: nat)
    requires k < |L| && Linked(abs, nl, L, o, stale, {L[k]}) && j < |L| - 1
    ensures LinkOk(UnlinkAbs(abs, PrevOf(L, k), NextOf(L, k)), L[..k] + L[k + 1..], j, o, stale)
  {
    var prev, next := PrevOf(L, k), NextOf(L, k);
    var L' := L[..k] + L[k + 1..];
    if j < k {
      assert L'[j] == L[j] && L[j] != L[k];
      assert LinkOk(abs, L, j, o, stale);
      if j == k - 1 {
        assert L'[j] == prev;
        assert prev != next;
      } else {
        assert L'[j + 1] == L[j + 1];
        assert L[j] != prev && L[j] != next;
      }
    } else {
      assert L'[j] == L[j + 1] && L[j + 1] != L[k];
      assert LinkOk(abs, L, j + 1, o, stale);
      if j == k {
        assert L'[j] == next;
        assert prev != next;
      } else {
        assert L[j + 1] != prev && L[j + 1] != next;
        assert L'[j - 1] == L[j];
      }
      if j + 1 < |L'| {
        assert L'[j + 1] == L[j + 2];
      }
    }
  }

  /// A chain of forward links that ends in 0 visits no entry twice.
  lemma {:induction false} NextChainDistinct<T>(abs: Entries<T>, L: seq<nat>, i: nat, j: nat)
    requires 0 !in L
    requires forall k | 0 <= k < |L| :: L[k] in abs && abs[L[k]].next == NextOf(L, k)
    requires i < j < |L|
    ensures L[i] != L[j]
    decreases |L| - j
  {
    if j + 1 < |L| {
      NextChainDistinct(abs, L, i + 1, j + 1);
      assert abs[L[i]].next == L[i + 1];
      assert abs[L[j]].next == L[j + 1];
    } else {
      assert abs[L[j]].next == 0;
      assert abs[L[i]].next == L[i + 1];
    }
  }

  /// Hence such a chain is a list without repetitions.
  lemma NextChainIsDistinct<T>(abs: Entries<T>, L: seq<nat>)
    requires 0 !in L
    requires forall k | 0 <= k < |L| :: L[k] in abs && abs[L[k]].next == NextOf(L, k)
    ensures Distinct(L)
  {
    forall i, j | 0 <= i < j < |L|
      ensures L[i] != L[j]
    {
      NextChainDistinct(abs, L, i, j);
    }
  }
}
