// The invariant of the octree across the steps its operations take in
// cg/src/octree.rs: a new record, an entry that starts to move, counts that
// follow it, pushing it on its new list, repairing the old head's backward
// link, unlinking it from its old list, and an entry that stays.
module OctreeSteps {
  import opened OctreeGeometry
  import opened OctreeState
  import opened OctreeLists
  import opened OctreeCounts

  /// Two records of one entry agree on everything placement looks at.
  ghost predicate SamePlace<T>(a: AbNode<T>, b: AbNode<T>) {
    a.aabb == b.aabb && a.layer == b.layer && OwnerOf(a) == OwnerOf(b) && a.parentChild == b.parentChild
  }

  /// Shape and geometry only look at what a frame keeps.
  lemma CellsFrame(cells: Cells, cells': Cells, canc: map<nat, set<nat>>, loose: Vec3)
    requires CellsOk(cells, canc, loose) && Frame(cells, cells')
    ensures CellsOk(cells', canc, loose)
  {
    forall c | c in cells'
      ensures CellShape(cells', canc, c)
    {
      assert CellShape(cells, canc, c);
      assert CellFrame(cells[c], cells'[c]);
      var n := cells[c];
      if c != ROOT {
        assert CellFrame(cells[n.parent], cells'[n.parent]);
      }
      forall i | 0 <= i < 8 && cells'[c].childs[i].Oct?
        ensures cells'[c].childs[i].oct in cells' && cells'[cells'[c].childs[i].oct].parent == c &&
          cells'[cells'[c].childs[i].oct].parentChild == i
      {
        assert CellFrame(cells[n.childs[i].oct], cells'[n.childs[i].oct]);
      }
    }
    forall c | c in cells'
      ensures CellGeom(cells', canc, loose, c)
    {
      assert CellGeom(cells, canc, loose, c);
      assert CellShape(cells, canc, c);
      assert CellFrame(cells[c], cells'[c]);
      var n := cells[c];
      if c != ROOT {
        assert CellFrame(cells[n.parent], cells'[n.parent]);
      }
      forall a | a in canc[c] && a in cells'
        ensures Contains(cells'[a].aabb, n.aabb) && cells'[a].layer <= n.layer
      {
        assert CellFrame(cells[a], cells'[a]);
      }
    }
  }

  /// Placement only looks at what a frame keeps.
  lemma PlacedFrame<T>(cells: Cells, cells': Cells, loose: Vec3, e: AbNode<T>)
    requires ROOT in cells && Fits(loose) && Frame(cells, cells')
    ensures Placed(cells, loose, e) == Placed(cells', loose, e)
  {
    assert CellFrame(cells[ROOT], cells'[ROOT]);
    var c := CellOf(OwnerOf(e));
    if c in cells {
      assert CellFrame(cells[c], cells'[c]);
    }
  }

  /// Every entry but `x` stays listed and placed when no record changes its
  /// placement and every list keeps the entries it had.
  lemma EntriesFrame<T>(cells: Cells, cells': Cells, abs: Entries<T>, abs': Entries<T>,
                        lists: map<Owner, seq<nat>>, lists': map<Owner, seq<nat>>, loose: Vec3,
                        x: nat, x': nat)
    requires ROOT in cells && Fits(loose) && Frame(cells, cells')
    requires EntriesOk(cells, abs, lists, loose, x)
    requires forall y | y in abs' && y != x' :: y in abs && y != x && SamePlace(abs[y], abs'[y])
    requires forall o, y | o in lists && y in lists[o] && y in abs' && y != x' :: o in lists' && y in lists'[o]
    ensures EntriesOk(cells', abs', lists', loose, x')
  {
    forall y | y in abs' && y != x'
      ensures EntryOk(cells', abs', lists', loose, y)
    {
      assert EntryOk(cells, abs, lists, loose, y);
      PlacedFrame(cells, cells', loose, abs[y]);
    }
  }

  /// Lists that keep their records, whose entries keep their links, stay linked.
  lemma ListsFrame<T>(cells: Cells, cells': Cells, abs: Entries<T>, abs': Entries<T>, outer: NodeList,
                      outer': NodeList, lists: map<Owner, seq<nat>>, stale: set<nat>, stale': set<nat>,
                      ho: Owner, skip: set<nat>)
    requires ListsOk(cells, abs, outer, lists, stale, ho, skip)
    requires forall o :: ListOf(cells', outer', o) == ListOf(cells, outer, o)
    requires forall y | y in abs && y !in skip ::
      y in abs' && SameLink(abs[y], abs'[y]) && (y in stale ==> y in stale')
    requires forall o, y | o in lists && o != ho && y in skip && y in lists[o] && y in abs ::
      y in abs' && SameLink(abs[y], abs'[y]) && (y in stale ==> y in stale')
    ensures ListsOk(cells', abs', outer', lists, stale', ho, skip)
  {
    forall o | o in lists
      ensures OwnerOk(cells', abs', outer', lists, stale', ho, skip, o)
    {
      assert OwnerOk(cells, abs, outer, lists, stale, ho, skip, o);
      var sk := if o == ho then skip else {};
      LinkedFrame(abs, abs', ListOf(cells, outer, o).value, lists[o], o, stale, stale', sk, sk);
    }
    forall o | ListOf(cells', outer', o).Some?
      ensures o in lists
    {
      assert ListOf(cells, outer, o).Some?;
    }
  }

  /// An entry listed at a position `k` it is linked at by its owner.
  lemma ListedAt<T>(cells: Cells, abs: Entries<T>, outer: NodeList, lists: map<Owner, seq<nat>>,
                    loose: Vec3, x: nat) returns (k: nat)
    requires ROOT in cells && Fits(loose)
    requires ListsOk(cells, abs, outer, lists, {}, Outer, {}) && EntriesOk(cells, abs, lists, loose, 0)
    requires x in abs && x != 0
    ensures OwnerOf(abs[x]) in lists && k < |lists[OwnerOf(abs[x])]| && lists[OwnerOf(abs[x])][k] == x
    ensures LinkOk(abs, lists[OwnerOf(abs[x])], k, OwnerOf(abs[x]), {})
    ensures forall o | o in lists && o != OwnerOf(abs[x]) :: x !in lists[o]
  {
    var ho := OwnerOf(abs[x]);
    assert EntryOk(cells, abs, lists, loose, x);
    var L := lists[ho];
    k :| 0 <= k < |L| && L[k] == x;
    assert OwnerOk(cells, abs, outer, lists, {}, Outer, {}, ho);
    forall o | o in lists && o != ho
      ensures x !in lists[o]
    {
      assert OwnerOk(cells, abs, outer, lists, {}, Outer, {}, o);
      forall j | 0 <= j < |lists[o]| ensures lists[o][j] != x {
        assert LinkOk(abs, lists[o], j, o, {});
      }
    }
  }

  /// A new record that no list holds yet.
  lemma InvAddRecord<T>(cells: Cells, abs: Entries<T>, outer: NodeList, lists: map<Owner, seq<nat>>,
                        canc: map<nat, set<nat>>, loose: Vec3, x: nat, e: AbNode<T>)
    requires Inv(cells, abs, outer, lists, canc, loose, 0, 0, {}, Outer, {})
    requires x !in abs && x != 0
    ensures Inv(cells, abs[x := e], outer, lists, canc, loose, x, 0, {}, Outer, {})
    ensures forall o | o in lists :: x !in lists[o]
  {
    var abs' := abs[x := e];
    forall o | o in lists
      ensures x !in lists[o]
    {
      assert OwnerOk(cells, abs, outer, lists, {}, Outer, {}, o);
      forall j | 0 <= j < |lists[o]| ensures lists[o][j] != x {
        assert LinkOk(abs, lists[o], j, o, {});
      }
    }
    ListsFrame(cells, cells, abs, abs', outer, outer, lists, {}, {}, Outer, {});
    assert Frame(cells, cells) by {
      forall c | c in cells ensures CellFrame(cells[c], cells[c]) {
        assert CellShape(cells, canc, c);
      }
    }
    EntriesFrame(cells, cells, abs, abs', lists, lists, loose, 0, x);
    forall c | c in cells
      ensures CountOk(cells, abs', canc, x, 0, c)
    {
      assert CountOk(cells, abs, canc, 0, 0, c);
      forall i | 0 <= i < 8 && i < |cells[c].childs| && cells[c].childs[i].Oct?
        ensures Beneath(abs', canc, cells[c].childs[i].oct, x) == Beneath(abs, canc, cells[c].childs[i].oct, 0)
      {
      }
    }
  }

  /// An entry starts to move: its record may change freely while it is
  /// counted in its cell and skipped by its old list.
  lemma InvStart<T>(cells: Cells, abs: Entries<T>, outer: NodeList, lists: map<Owner, seq<nat>>,
                    canc: map<nat, set<nat>>, loose: Vec3, x: nat, e: AbNode<T>) returns (k: nat)
    requires Inv(cells, abs, outer, lists, canc, loose, 0, 0, {}, Outer, {})
    requires x in abs
    ensures var ho := OwnerOf(abs[x]);
      ho in lists && k < |lists[ho]| && lists[ho][k] == x &&
      abs[x].prev == PrevOf(lists[ho], k) && abs[x].next == NextOf(lists[ho], k) &&
      (forall o | o in lists && o != ho :: x !in lists[o]) &&
      (abs[x].parent == 0 || abs[x].parent in cells) && (ho.Slot? || abs[x].parentChild == 8) &&
      Inv(cells, abs[x := e], outer, lists, canc, loose, x, abs[x].parent, {}, ho, {x})
  {
    var ho := OwnerOf(abs[x]);
    assert EntryOk(cells, abs, lists, loose, x);
    k := ListedAt(cells, abs, outer, lists, loose, x);
    var abs' := abs[x := e];
    assert x != 0;
    assert Frame(cells, cells) by {
      forall c | c in cells ensures CellFrame(cells[c], cells[c]) {
        assert CellShape(cells, canc, c);
      }
    }
    CountsUnsettle(cells, abs, canc, x);
    CountsRecord(cells, abs, canc, x, abs[x].parent, e);
    forall o | o in lists
      ensures OwnerOk(cells, abs', outer, lists, {}, ho, {x}, o)
    {
      assert OwnerOk(cells, abs, outer, lists, {}, Outer, {}, o);
      var sk := if o == ho then {x} else {};
      LinkedFrame(abs, abs', ListOf(cells, outer, o).value, lists[o], o, {}, {}, {}, sk);
    }
    EntriesFrame(cells, cells, abs, abs', lists, lists, loose, 0, x);
  }

  /// An entry is deleted: its cell still counts it and its old list skips it.
  lemma InvDelete<T>(cells: Cells, abs: Entries<T>, outer: NodeList, lists: map<Owner, seq<nat>>,
                     canc: map<nat, set<nat>>, loose: Vec3, x: nat) returns (k: nat)
    requires Inv(cells, abs, outer, lists, canc, loose, 0, 0, {}, Outer, {})
    requires x in abs
    ensures var ho := OwnerOf(abs[x]);
      ho in lists && k < |lists[ho]| && lists[ho][k] == x &&
      abs[x].prev == PrevOf(lists[ho], k) && abs[x].next == NextOf(lists[ho], k) &&
      Inv(cells, abs - {x}, outer, lists, canc, loose, 0, abs[x].parent, {}, ho, {x})
  {
    var ho := OwnerOf(abs[x]);
    k := ListedAt(cells, abs, outer, lists, loose, x);
    var abs' := abs - {x};
    assert x != 0;
    CountsDelete(cells, abs, canc, x);
    forall o | o in lists
      ensures OwnerOk(cells, abs', outer, lists, {}, ho, {x}, o)
    {
      assert OwnerOk(cells, abs, outer, lists, {}, Outer, {}, o);
      var sk := if o == ho then {x} else {};
      LinkedFrame(abs, abs', ListOf(cells, outer, o).value, lists[o], o, {}, {}, {}, sk);
    }
    assert Frame(cells, cells) by {
      forall c | c in cells ensures CellFrame(cells[c], cells[c]) {
        assert CellShape(cells, canc, c);
      }
    }
    EntriesFrame(cells, cells, abs, abs', lists, lists, loose, 0, 0);
  }

  /// Counts that follow the moving entry keep the invariant.
  lemma InvMove<T>(cells: Cells, cells': Cells, abs: Entries<T>, outer: NodeList,
                   lists: map<Owner, seq<nat>>, canc: map<nat, set<nat>>, loose: Vec3,
                   x: nat, from: nat, to: nat, stale: set<nat>, ho: Owner, skip: set<nat>)
    requires Inv(cells, abs, outer, lists, canc, loose, x, from, stale, ho, skip)
    requires Frame(cells, cells') && Moved(cells, cells', canc, from, to)
    requires forall o :: ListOf(cells', outer, o) == ListOf(cells, outer, o)
    ensures Inv(cells', abs, outer, lists, canc, loose, x, to, stale, ho, skip)
  {
    CellsFrame(cells, cells', canc, loose);
    CountsMoved(cells, cells', abs, canc, x, from, to);
    ListsFrame(cells, cells', abs, abs, outer, outer, lists, stale, stale, ho, skip);
    EntriesFrame(cells, cells', abs, abs, lists, lists, loose, x, x);
  }

  /// The lists after the moving entry is pushed on the list of owner `o`.
  lemma AttachLists<T>(cells: Cells, cells': Cells, abs: Entries<T>, outer: NodeList, outer': NodeList,
                       lists: map<Owner, seq<nat>>, x: nat, ho: Owner, skip: set<nat>, o: Owner, e: AbNode<T>)
    requires ListsOk(cells, abs, outer, lists, {}, ho, skip)
    requires x != 0 && forall o' | o' in lists && x in lists[o'] :: o' == ho && x in skip
    requires o in lists && (o != ho || skip == {}) && ListOf(cells, outer, o).Some?
    requires ListOf(cells', outer', o) == Some(NodeList(x, |lists[o]| + 1))
    requires forall o' | o' != o :: ListOf(cells', outer', o') == ListOf(cells, outer, o')
    requires OwnerOf(e) == o && e.prev == 0 && e.next == ListOf(cells, outer, o).value.head
    ensures ListsOk(cells', abs[x := e], outer', lists[o := [x] + lists[o]], HeadSet(lists[o]), ho, skip)
  {
    var abs', lists', stale' := abs[x := e], lists[o := [x] + lists[o]], HeadSet(lists[o]);
    forall o' | o' in lists'
      ensures OwnerOk(cells', abs', outer', lists', stale', ho, skip, o')
    {
      assert OwnerOk(cells, abs, outer, lists, {}, ho, skip, o');
      var sk := if o' == ho then skip else {};
      if o' == o {
        assert x !in lists[o];
        LinkedPush(abs, ListOf(cells, outer, o).value, lists[o], o, {}, x, e);
        assert {} + HeadSet(lists[o]) == stale';
        assert Linked(abs', ListOf(cells', outer', o).value, lists'[o], o, stale', sk);
      } else {
        LinkedFrame(abs, abs', ListOf(cells, outer, o').value, lists[o'], o', {}, stale', sk, sk);
        assert Linked(abs', ListOf(cells', outer', o').value, lists'[o'], o', stale', sk);
      }
    }
    forall o' | ListOf(cells', outer', o').Some?
      ensures o' in lists'
    {
      if o' != o {
        assert ListOf(cells, outer, o').Some?;
      }
    }
  }

  /// The moving entry is pushed on the list of owner `o`, whose old head is
  /// left with a stale backward link.
  lemma InvAttach<T>(cells: Cells, cells': Cells, abs: Entries<T>, outer: NodeList, outer': NodeList,
                     lists: map<Owner, seq<nat>>, canc: map<nat, set<nat>>, loose: Vec3,
                     x: nat, from: nat, ho: Owner, skip: set<nat>, o: Owner, e: AbNode<T>)
    requires Inv(cells, abs, outer, lists, canc, loose, x, from, {}, ho, skip)
    requires x != 0 && forall o' | o' in lists && x in lists[o'] :: o' == ho && x in skip
    requires Frame(cells, cells') && Moved(cells, cells', canc, from, CellOf(o))
    requires o in lists && (o != ho || skip == {})
    requires ListOf(cells', outer', o) == Some(NodeList(x, |lists[o]| + 1))
    requires forall o' | o' != o :: ListOf(cells', outer', o') == ListOf(cells, outer, o')
    requires OwnerOf(e) == o && e.prev == 0 && e.next == ListOf(cells, outer, o).value.head
    requires Placed(cells', loose, e)
    ensures Inv(cells', abs[x := e], outer', lists[o := [x] + lists[o]], canc, loose, 0, 0,
                HeadSet(lists[o]), ho, skip)
  {
    var abs', lists' := abs[x := e], lists[o := [x] + lists[o]];
    CellsFrame(cells, cells', canc, loose);
    CountsMoved(cells, cells', abs, canc, x, from, CellOf(o));
    assert CellOf(o) == e.parent;
    assert Shape(cells, canc);
    CountsSettle(cells', abs, canc, x, e);
    AttachLists(cells, cells', abs, outer, outer', lists, x, ho, skip, o, e);
    EntriesFrame(cells, cells', abs, abs', lists, lists', loose, x, x);
    assert EntryOk(cells', abs', lists', loose, x);
  }

  /// The old head of the list of owner `o` gets its backward link back.
  lemma InvFixHead<T>(cells: Cells, abs: Entries<T>, outer: NodeList, lists: map<Owner, seq<nat>>,
                      canc: map<nat, set<nat>>, loose: Vec3, ho: Owner, skip: set<nat>, o: Owner)
    requires o in lists && |lists[o]| >= 2 && lists[o][1] !in skip
    requires Inv(cells, abs, outer, lists, canc, loose, 0, 0, {lists[o][1]}, ho, skip)
    ensures lists[o][1] in abs
    ensures Inv(cells, abs[lists[o][1] := abs[lists[o][1]].(prev := lists[o][0])], outer, lists,
                canc, loose, 0, 0, {}, ho, skip)
  {
    var h := lists[o][1];
    assert OwnerOk(cells, abs, outer, lists, {h}, ho, skip, o);
    var sko := if o == ho then skip else {};
    assert Linked(abs, ListOf(cells, outer, o).value, lists[o], o, {h}, sko);
    assert LinkOk(abs, lists[o], 1, o, {h});
    var abs' := abs[h := abs[h].(prev := lists[o][0])];
    forall o' | o' in lists
      ensures OwnerOk(cells, abs', outer, lists, {}, ho, skip, o')
    {
      assert OwnerOk(cells, abs, outer, lists, {h}, ho, skip, o');
      var sk := if o' == ho then skip else {};
      if o' == o {
        LinkedFixHead(abs, ListOf(cells, outer, o).value, lists[o], o, {h}, sk);
        assert {h} - {h} == {};
        assert Linked(abs', ListOf(cells, outer, o).value, lists[o], o, {}, sk);
      } else {
        forall k | 0 <= k < |lists[o']| && lists[o'][k] !in sk
          ensures lists[o'][k] != h
        {
          assert LinkOk(abs, lists[o'], k, o', {h});
        }
        LinkedFrame(abs, abs', ListOf(cells, outer, o').value, lists[o'], o', {h}, {}, sk, sk);
      }
    }
    assert Frame(cells, cells) by {
      forall c | c in cells ensures CellFrame(cells[c], cells[c]) {
        assert CellShape(cells, canc, c);
      }
    }
    EntriesFrame(cells, cells, abs, abs', lists, lists, loose, 0, 0);
    CountsParents(cells, abs, abs', canc, 0, 0);
  }

  /// The lists after the moving entry is unlinked from the list of `ho`.
  lemma UnlinkLists<T>(cells: Cells, cells': Cells, abs: Entries<T>, outer: NodeList, outer': NodeList,
                       lists: map<Owner, seq<nat>>, stale: set<nat>, ho: Owner, k: nat)
    requires ho in lists && k < |lists[ho]|
    requires ListsOk(cells, abs, outer, lists, stale, ho, {lists[ho][k]})
    requires ListOf(cells, outer, ho).Some? && ListOf(cells, outer, ho).value.len > 0
    requires ListOf(cells', outer', ho) ==
      Some(UnlinkList(ListOf(cells, outer, ho).value, PrevOf(lists[ho], k), NextOf(lists[ho], k)))
    requires forall o' | o' != ho :: ListOf(cells', outer', o') == ListOf(cells, outer, o')
    ensures ListsOk(cells', UnlinkAbs(abs, PrevOf(lists[ho], k), NextOf(lists[ho], k)), outer',
                    lists[ho := lists[ho][..k] + lists[ho][k + 1..]], stale, ho, {})
  {
    var L := lists[ho];
    var x, prev, next := L[k], PrevOf(L, k), NextOf(L, k);
    var abs' := UnlinkAbs(abs, prev, next);
    var lists' := lists[ho := L[..k] + L[k + 1..]];
    assert OwnerOk(cells, abs, outer, lists, stale, ho, {x}, ho);
    assert Distinct(L);
    assert prev != 0 ==> prev != x && prev in abs && OwnerOf(abs[prev]) == ho by {
      if prev != 0 {
        assert LinkOk(abs, L, k - 1, ho, stale);
      }
    }
    assert next != 0 ==> next != x && next in abs && OwnerOf(abs[next]) == ho by {
      if next != 0 {
        assert LinkOk(abs, L, k + 1, ho, stale);
      }
    }
    forall o' | o' in lists'
      ensures OwnerOk(cells', abs', outer', lists', stale, ho, {}, o')
    {
      if o' == ho {
        LinkedUnlink(abs, ListOf(cells, outer, ho).value, L, ho, stale, k);
      } else {
        assert OwnerOk(cells, abs, outer, lists, stale, ho, {x}, o');
        forall j | 0 <= j < |lists[o']|
          ensures lists[o'][j] != prev && lists[o'][j] != next
        {
          assert LinkOk(abs, lists[o'], j, o', stale);
        }
        LinkedFrame(abs, abs', ListOf(cells, outer, o').value, lists[o'], o', stale, stale, {}, {});
      }
    }
    forall o' | ListOf(cells', outer', o').Some?
      ensures o' in lists'
    {
      if o' != ho {
        assert ListOf(cells, outer, o').Some?;
      }
    }
  }

  /// The entries after the moving entry is unlinked from the list of `ho`.
  lemma UnlinkEntries<T>(cells: Cells, cells': Cells, abs: Entries<T>, lists: map<Owner, seq<nat>>,
                         loose: Vec3, ho: Owner, k: nat)
    requires ROOT in cells && Fits(loose) && Frame(cells, cells')
    requires ho in lists && k < |lists[ho]| && Distinct(lists[ho])
    requires EntriesOk(cells, abs, lists, loose, 0)
    requires lists[ho][k] !in abs || OwnerOf(abs[lists[ho][k]]) != ho
    ensures EntriesOk(cells', UnlinkAbs(abs, PrevOf(lists[ho], k), NextOf(lists[ho], k)),
                      lists[ho := lists[ho][..k] + lists[ho][k + 1..]], loose, 0)
  {
    var L := lists[ho];
    var abs' := UnlinkAbs(abs, PrevOf(L, k), NextOf(L, k));
    var lists' := lists[ho := L[..k] + L[k + 1..]];
    forall y | y in abs' && y != 0
      ensures EntryOk(cells', abs', lists', loose, y)
    {
      assert EntryOk(cells, abs, lists, loose, y);
      PlacedFrame(cells, cells', loose, abs[y]);
      assert SamePlace(abs[y], abs'[y]);
      var o := OwnerOf(abs[y]);
      if o == ho {
        var j :| 0 <= j < |L| && L[j] == y;
        assert j != k;
        if j < k {
          assert lists'[o][j] == y;
        } else {
          assert lists'[o][j - 1] == y;
        }
      }
    }
  }

  /// The moving entry, already placed elsewhere or deleted, is unlinked from
  /// the list of its old owner `ho`.
  lemma InvUnlink<T>(cells: Cells, cells': Cells, abs: Entries<T>, outer: NodeList, outer': NodeList,
                     lists: map<Owner, seq<nat>>, canc: map<nat, set<nat>>, loose: Vec3, v: nat,
                     stale: set<nat>, ho: Owner, k: nat)
    requires ho in lists && k < |lists[ho]|
    requires Inv(cells, abs, outer, lists, canc, loose, 0, v, stale, ho, {lists[ho][k]})
    requires lists[ho][k] !in abs || OwnerOf(abs[lists[ho][k]]) != ho
    requires Frame(cells, cells') && Moved(cells, cells', canc, v, v)
    requires ListOf(cells, outer, ho).Some? && ListOf(cells, outer, ho).value.len > 0
    requires ListOf(cells', outer', ho) ==
      Some(UnlinkList(ListOf(cells, outer, ho).value, PrevOf(lists[ho], k), NextOf(lists[ho], k)))
    requires forall o' | o' != ho :: ListOf(cells', outer', o') == ListOf(cells, outer, o')
    ensures Inv(cells', UnlinkAbs(abs, PrevOf(lists[ho], k), NextOf(lists[ho], k)), outer',
                lists[ho := lists[ho][..k] + lists[ho][k + 1..]], canc, loose, 0, v, stale, ho, {})
  {
    CellsFrame(cells, cells', canc, loose);
    CountsMoved(cells, cells', abs, canc, 0, v, v);
    assert OwnerOk(cells, abs, outer, lists, stale, ho, {lists[ho][k]}, ho);
    UnlinkLists(cells, cells', abs, outer, outer', lists, stale, ho, k);
    UnlinkEntries(cells, cells', abs, lists, loose, ho, k);
    forall c ensures Beneath(UnlinkAbs(abs, PrevOf(lists[ho], k), NextOf(lists[ho], k)), canc, c, 0) ==
      Beneath(abs, canc, c, 0)
    {
    }
    var abs' := UnlinkAbs(abs, PrevOf(lists[ho], k), NextOf(lists[ho], k));
    forall c | c in cells'
      ensures CountOk(cells', abs', canc, 0, v, c)
    {
      assert CountOk(cells', abs, canc, 0, v, c);
    }
  }

  /// The moving entry stays where it was, with a record that still fits there.
  lemma InvStay<T>(cells: Cells, abs: Entries<T>, outer: NodeList, lists: map<Owner, seq<nat>>,
                   canc: map<nat, set<nat>>, loose: Vec3, x: nat, ho: Owner, k: nat)
    requires x in abs && OwnerOf(abs[x]) == ho && ho in lists && k < |lists[ho]| && lists[ho][k] == x
    requires Inv(cells, abs, outer, lists, canc, loose, x, abs[x].parent, {}, ho, {x})
    requires LinkOk(abs, lists[ho], k, ho, {}) && Placed(cells, loose, abs[x])
    ensures Inv(cells, abs, outer, lists, canc, loose, 0, 0, {}, Outer, {})
  {
    assert x != 0;
    assert Shape(cells, canc);
    CountsSettle(cells, abs, canc, x, abs[x]);
    assert abs[x := abs[x]] == abs;
    forall o | o in lists
      ensures OwnerOk(cells, abs, outer, lists, {}, Outer, {}, o)
    {
      assert OwnerOk(cells, abs, outer, lists, {}, ho, {x}, o);
      if o == ho {
        var L := lists[o];
        forall j | 0 <= j < |L|
          ensures LinkOk(abs, L, j, o, {})
        {
          if L[j] == x {
            assert Distinct(L);
            assert j == k;
          }
        }
      }
    }
    forall y | y in abs && y != 0
      ensures EntryOk(cells, abs, lists, loose, y)
    {
      if y != x {
        assert EntryOk(cells, abs, lists, loose, y);
      }
    }
  }

  /// Records that keep their links and placement keep the invariant.
  lemma InvRecords<T>(cells: Cells, abs: Entries<T>, abs': Entries<T>, outer: NodeList,
                      lists: map<Owner, seq<nat>>, canc: map<nat, set<nat>>, loose: Vec3)
    requires Inv(cells, abs, outer, lists, canc, loose, 0, 0, {}, Outer, {})
    requires abs'.Keys == abs.Keys
    requires forall y | y in abs ::
      SameLink(abs[y], abs'[y]) && SamePlace(abs[y], abs'[y]) && abs[y].parent == abs'[y].parent
    ensures Inv(cells, abs', outer, lists, canc, loose, 0, 0, {}, Outer, {})
  {
    assert Frame(cells, cells) by {
      forall c | c in cells ensures CellFrame(cells[c], cells[c]) {
        assert CellShape(cells, canc, c);
      }
    }
    ListsFrame(cells, cells, abs, abs', outer, outer, lists, {}, {}, Outer, {});
    EntriesFrame(cells, cells, abs, abs', lists, lists, loose, 0, 0);
    forall k ensures Beneath(abs', canc, k, 0) == Beneath(abs, canc, k, 0) {
    }
    forall c | c in cells
      ensures CountOk(cells, abs', canc, 0, 0, c)
    {
      assert CountOk(cells, abs, canc, 0, 0, c);
    }
  }
}
