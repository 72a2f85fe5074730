/** Two short runs that show what the documentation of `rpc_struct_free` and `rpc_struct_remove` leaves
    out. */
module Witnesses {
  import opened Wrappers
  import opened Graph
  import opened Cascade
  import opened Ownership
  import opened World
  import opened Inflation
  import opened Duplicates
  import opened Orders
  import opened Content
  import opened Serialise

  /** Structs hold nothing but one leaf. */
  ghost predicate HoldLeafOnly(fields: Fields, leaf: Id) {
    leaf !in fields && forall s, k :: s in fields && k in fields[s] && fields[s][k].Ref? ==> fields[s][k].id == leaf
  }

  lemma LeavesAcyclic(fields: Fields, leaf: Id)
    requires HoldLeafOnly(fields, leaf)
    ensures Acyclic(fields)
  {
    assert Ranked(fields, (x: Id) => if x == leaf then 0 else 1);
  }

  /** Gives an empty struct a leaf. */
  method GiveLeaf(w: World, s: Id, leaf: Id)
    requires w.Valid() && s in w.fields && w.fields[s] == map[] && leaf in w.leaves && w.leaves[leaf].Buf?
    requires HoldLeafOnly(w.fields, leaf)
    modifies w
    ensures w.Valid() && w.fields == old(w.fields)[s := map["x" := Ref(BufKind, leaf)]] && w.leaves == old(w.leaves)
    ensures HoldLeafOnly(w.fields, leaf)
  {
    hide ValidHeap, Consistent, Acyclic, SlackKept, Counted, AllTablesOk;
    assert HoldLeafOnly(w.fields[s := map["x" := Ref(BufKind, leaf)]], leaf);
    LeavesAcyclic(w.fields[s := map["x" := Ref(BufKind, leaf)]], leaf);
    assert w.fields[s]["x" := Ref(BufKind, leaf)] == map["x" := Ref(BufKind, leaf)];
    var _ := w.Set(s, "x", Some(Ref(BufKind, leaf)));
  }

  /** A world with two structs that hold the same leaf. */
  method SharedLeaf() returns (w: World, p: Id, q: Id, leaf: Id)
    ensures fresh(w) && w.Valid() && p != q && p in w.fields && q in w.fields && leaf in w.leaves
    ensures w.fields == map[p := map["x" := Ref(BufKind, leaf)], q := map["x" := Ref(BufKind, leaf)]]
  {
    hide ValidHeap;
    w := new World();
    p := w.CreateStruct();
    q := w.CreateStruct();
    leaf := w.CreateLeaf(Buf([]));
    GiveLeaf(w, p, leaf);
    GiveLeaf(w, q, leaf);
  }

  /** Freeing one of them leaves the leaf, which is part of its content, where it is. */
  method ContentHeldElsewhere() returns (w: World, p: Id, q: Id, leaf: Id)
    ensures fresh(w) && w.Valid() && p !in w.fields && leaf in w.leaves
    ensures q in w.fields && w.fields[q] == map["x" := Ref(BufKind, leaf)]
  {
    hide ValidHeap, Doomed, Loose;
    w, p, q, leaf := SharedLeaf();
    ghost var h := w.Snap();
    OnlyTheOwner(h, p, q, leaf);
    LiveBoth(h, p, q, leaf);
    w.FreeObject(p);
    StillThere(h, w.Snap(), p, q, leaf);
  }

  lemma LiveBoth(h: Heap, p: Id, q: Id, leaf: Id)
    requires p in h.fields && q in h.fields && leaf in h.leaves
    ensures Live(h, p) && Live(h, q) && Live(h, leaf)
  {
  }

  lemma OnlyTheOwner(h: Heap, p: Id, q: Id, leaf: Id)
    requires ValidHeap(h) && p != q && leaf in h.leaves
    requires h.fields == map[p := map["x" := Ref(BufKind, leaf)], q := map["x" := Ref(BufKind, leaf)]]
    ensures Victims(h, Listed(h, p), {p}) == {p} && (q, "x") !in Listed(h, p) && leaf != p && leaf != q
  {
    hide Doomed, Loose, Acyclic, CountsOk, Pairs, NoRepeats;
    assert leaf != p && leaf != q;
    var gone := Listed(h, p);
    assert (q, "x") !in gone by {
      ListedHolds(h, p, (q, "x"), leaf);
      assert Holds(h.fields, {}, (q, "x"), leaf);
    }
    assert Holds(h.fields, gone, (q, "x"), leaf);
    assert forall x: Slot, o: Id :: Holds(h.fields, gone, x, o) ==> o == leaf;
    assert forall o: Id :: !OnlyHeldBy(h.fields, gone, o, {p});
    DoomedClosed(h.fields, gone, Loose(h.tracker), {p});
    DoomedLeast(h.fields, gone, Loose(h.tracker), {p}, {p});
  }

  lemma StillThere(h: Heap, h': Heap, p: Id, q: Id, leaf: Id)
    requires ValidHeap(h) && ValidHeap(h') && p != q && leaf in h.leaves && p in h.fields
    requires h.fields == map[p := map["x" := Ref(BufKind, leaf)], q := map["x" := Ref(BufKind, leaf)]]
    requires FreedExactly(h, h', Listed(h, p), {p}) && Victims(h, Listed(h, p), {p}) == {p} && (q, "x") !in Listed(h, p)
    requires leaf != p && leaf != q
    ensures p !in h'.fields && leaf in h'.leaves && q in h'.fields && h'.fields[q] == h.fields[q]
  {
    hide Victims, Listed, Acyclic, CountsOk, Index, KindsOk, NoRepeats, Slack, IdsOk;
    assert Live(h', q) && Live(h', leaf) && !Live(h', p);
    assert Without(h.fields[q], q, Listed(h, p)) == h.fields[q];
  }

  /** A struct that holds one leaf is serialised, and then the leaf is removed from it: no slot holds
      the leaf any more, and it is still in memory. */
  method LeakedBySerialising() returns (w: World, s: Id, leaf: Id)
    ensures fresh(w) && w.Valid() && leaf in w.leaves
    ensures w.fields == map[s := map[]]
  {
    hide ValidHeap, Doomed, Settled, GrewBy, AllGroupable, AllClean, Ordered, Ranked;
    w := new World();
    s := w.CreateStruct();
    leaf := w.CreateLeaf(Buf([]));
    GiveLeaf(w, s, leaf);
    ghost var h := w.Snap();
    assert h.fields == map[s := map["x" := Ref(BufKind, leaf)]];
    ghost var rank := SomeRank(h);
    var orders := AnyOrders(w.fields);
    OneSlotGroupable(h, s, leaf);
    GroupableIsClean(h.fields, orders, s);
    var _ := SerializeStruct(w, s, orders, rank);
    ghost var h1 := w.Snap();
    SettledFields(h, h1);
    PinnedLeaf(h, h1, s, leaf, rank);
    var _ := w.Remove(s, "x");
    LeakedLeaf(h1, w.Snap(), s, leaf);
  }

  lemma SettledFields(h: Heap, h': Heap)
    requires Settled(h, h')
    ensures h'.fields == h.fields && h'.leaves == h.leaves
  {
  }

  lemma OneSlotGroupable(h: Heap, s: Id, leaf: Id)
    requires h.fields == map[s := map["x" := Ref(BufKind, leaf)]]
    ensures AllGroupable(h.fields, s)
  {
    hide Reached, Objects;
    assert HeldOnce(h.fields[s]);
  }

  lemma PinnedLeaf(h: Heap, h1: Heap, s: Id, leaf: Id, rank: Id -> nat)
    requires ValidHeap(h) && ValidHeap(h1) && h.fields == h1.fields == map[s := map["x" := Ref(BufKind, leaf)]]
    requires Ranked(h.fields, rank) && GrewBy(h, h1, h.fields, rank, s)
    ensures leaf in h1.tracker && h1.tracker[leaf].refcount > 1
  {
    hide ValidHeap, Slack, Extra;
    SlotFits(h, s, "x");
    SlotFits(h1, s, "x");
    HeldIsPinned(h, h1, h.fields, rank, s, "x");
    IndexIsExact(h1, (s, "x"), leaf);
    assert Holds(h1.fields, {}, (s, "x"), leaf);
    SubsetSize({(s, "x")}, Pairs(h1.tracker[leaf]));
  }

  lemma LeakedLeaf(h: Heap, h': Heap, s: Id, leaf: Id)
    requires ValidHeap(h) && ValidHeap(h') && h.fields == map[s := map["x" := Ref(BufKind, leaf)]]
    requires leaf in h.leaves && leaf in h.tracker && h.tracker[leaf].refcount > 1 && s in h'.fields
    requires FreedExactly(h, h', {(s, "x")}, LastReference(h, s, "x"))
    ensures leaf in h'.leaves && h'.fields == map[s := map[]]
  {
    hide Victims, Acyclic, CountsOk, Index, KindsOk, NoRepeats, Slack, Pairs;
    RemovedIsFreedIff(h, s, "x");
    assert Live(h, leaf) && Live(h', leaf);
    assert Without(h.fields[s], s, {(s, "x")}) == map[];
  }
}
