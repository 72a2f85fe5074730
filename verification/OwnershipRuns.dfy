/** Whole runs of ownership operations by any client that uses them as it may. */
module OwnershipRuns {
  import opened Wrappers
  import opened Graph
  import opened Cascade
  import opened Ownership
  import opened Trees
  import opened World
  import opened Building
  import opened Codec
  import DC = DeepCopy
  import opened Inflation
  import opened Orders
  import opened Serialise
  import opened Reading
  import opened Deserialise

  datatype Op =
    | CreateStruct
    | CreateLeaf(leaf: Leaf)
    | NameStruct(s: Id, id: string)
    | Set(s: Id, k: Key, element: Option<Elem>)
    | Remove(s: Id, k: Key)
    | Free(p: Id)
    | Copy(s: Id)
    | CopyDeep(s: Id)
    | Write(s: Id)
    | Read(j: Json)

  /** Arguments alive, values of the kind they claim, containment left acyclic, input safe to parse. */
  ghost predicate Allowed(h: Heap, op: Op) {
    match op
    case Set(s, k, element) =>
      && s in h.fields
      && (element.Some? ==> Fits(h, element.value))
      && (element.Some? && k !in h.fields[s] ==> Acyclic(h.fields[s := h.fields[s][k := element.value]]))
    case NameStruct(s, id) => s in h.fields && |id| <= ID_LENGTH
    case Remove(s, k) => s in h.fields
    case Free(p) => Live(h, p)
    case Copy(s) => s in h.fields
    case CopyDeep(s) => s in h.fields
    case Write(s) => s in h.fields
    case Read(j) => SafeStruct(j)
    case _ => true
  }

  /** The operations that copy by counting a slot twice. */
  predicate CountsTwice(op: Op) {
    op.Copy? || op.CopyDeep? || op.Write?
  }

  lemma ReadKeepsCopyFree(h: Heap, h': Heap)
    requires CopyFree(h) && Above(h, h') && FreshExact(h.next, h')
    ensures CopyFree(h')
  {
    hide Pairs, Upward;
    forall o | o in h'.tracker
      ensures h'.tracker[o].refcount == |Pairs(h'.tracker[o])|
    {
      if o < h.next {
        assert o in h.tracker && SameRecord(h.tracker[o], h'.tracker[o]);
      }
    }
  }

  /** What each operation does to the heap. */
  ghost predicate Done(op: Op, h: Heap, h': Heap)
    requires Allowed(h, op)
  {
    match op
    case CreateStruct => h'.fields == h.fields[h.next := map[]] && h'.leaves == h.leaves && h'.tracker == h.tracker
    case CreateLeaf(leaf) => h' == h.(leaves := h.leaves[h.next := leaf], next := h.next + 1)
    case NameStruct(s, id) => s in h.ids && |id| <= |h.ids[s]| && h' == h.(ids := h.ids[s := id + h.ids[s][|id|..]])
    case Set(s, k, element) =>
      if element.Some? && k !in h.fields[s] then
        && h'.fields == h.fields[s := h.fields[s][k := element.value]]
        && h'.leaves == h.leaves && h'.ids == h.ids && SlackKept(h, h')
      else h' == h
    case Remove(s, k) =>
      if k in h.fields[s] then FreedExactly(h, h', {(s, k)}, LastReference(h, s, k)) else h' == h
    case Free(p) => FreedExactly(h, h', Listed(h, p), {p})
    case Copy(s) => h'.fields == h.fields[h.next := h.fields[s]] && h'.leaves == h.leaves
    case CopyDeep(s) =>
      && Above(h, h')
      && forall t :: Unfolds(h, Ref(StructKind, s), t) ==> UnfoldsFrom(h.next, h', Ref(StructKind, h.next), t)
    case Write(s) => Settled(h, h')
    case Read(j) =>
      && Above(h, h') && (h.next in h'.fields <==> IsStructJson(j))
      && (IsStructJson(j) && WellFormed(j) ==>
            exists t :: Reads(j, t) && UnfoldsFrom(h.next, h', Ref(StructKind, h.next), t))
  }

  /** Copying a whole struct, writing one and reading one. */
  method Transfer(w: World, op: Op)
    requires w.Valid() && Allowed(w.Snap(), op) && (op.CopyDeep? || op.Write? || op.Read?)
    modifies w
    ensures w.Valid() && old(w.freed) <= w.freed && old(w.next) <= w.next
    ensures old(CopyFree(w.Snap())) && !CountsTwice(op) ==> CopyFree(w.Snap())
    ensures Done(op, old(w.Snap()), w.Snap())
  {
    hide ValidHeap, CopyFree, Acyclic, SameBelow, Upward, FreshExact, SafeStruct, UnfoldsFrom, Reads, WellFormed, Ordered;
    ghost var h := w.Snap();
    StructsHaveIds(h);
    match op {
      case CopyDeep(s) =>
        ghost var t := StructUnfolds(h, s);
        var _ := DC.DeepCopy(w, s, t);
      case Write(s) =>
        ghost var rank := SomeRank(h);
        var orders := AnyOrders(w.fields);
        var _ := SerializeStruct(w, s, orders, rank);
      case Read(j) =>
        var _, _ := Deserialize(w, j);
        if CopyFree(h) {
          ReadKeepsCopyFree(h, w.Snap());
        }
    }
  }

  /** A client's operation keeps the invariant; only copying operations inflate a count. */
  method Perform(w: World, op: Op)
    requires w.Valid() && Allowed(w.Snap(), op)
    modifies w
    ensures w.Valid() && old(w.freed) <= w.freed && old(w.next) <= w.next
    ensures old(CopyFree(w.Snap())) && !CountsTwice(op) ==> CopyFree(w.Snap())
    ensures Done(op, old(w.Snap()), w.Snap())
  {
    hide ValidHeap, CopyFree, Acyclic, Slack, Above, SafeStruct, UnfoldsFrom, Reads, WellFormed, Settled;
    ghost var h := w.Snap();
    StructsHaveIds(h);
    match op {
      case CreateStruct =>
        var _ := w.CreateStruct();
        SameTrackerCopyFree(h, w.Snap());
      case CreateLeaf(leaf) =>
        var _ := w.CreateLeaf(leaf);
        SameTrackerCopyFree(h, w.Snap());
      case NameStruct(s, id) =>
        w.IdSet(s, id);
        SameTrackerCopyFree(h, w.Snap());
      case Set(s, k, element) =>
        var _ := w.Set(s, k, element);
        if CopyFree(h) {
          SetsKeepCopyFree(h, w.Snap());
        }
      case Remove(s, k) =>
        var _ := w.Remove(s, k);
        if CopyFree(h) && k in h.fields[s] {
          FreesKeepCopyFree(h, w.Snap());
        }
      case Free(p) =>
        w.FreeObject(p);
        if CopyFree(h) {
          FreesKeepCopyFree(h, w.Snap());
        }
      case Copy(s) =>
        var _ := w.Copy(s);
      case _ =>
        Transfer(w, op);
    }
  }

  lemma SameTrackerCopyFree(h: Heap, h': Heap)
    requires h'.tracker == h.tracker
    ensures CopyFree(h) ==> CopyFree(h')
  {
  }

  lemma FreedIsGone(h: Heap, o: Id)
    requires ValidHeap(h) && o in h.freed
    ensures !Live(h, o) && o !in h.tracker && forall x: Slot :: !Holds(h.fields, {}, x, o)
  {
    hide Pairs, CountsOk, Acyclic, KindsOk;
    forall x: Slot | Holds(h.fields, {}, x, o)
      ensures false
    {
      HeldIsTracked(h, {}, x, o);
    }
  }

  /** However a client chooses its operations, as long as each is allowed in the state it meets: the
      index stays exact and no count too low after every run; an object once freed is never freed
      again, alive again or held by any slot; and without copying operations every count stays the
      number of slots. */
  method Run(w: World, steps: nat, client: (nat, Heap) -> Op)
    requires w.Valid()
    requires forall i: nat, h: Heap :: ValidHeap(h) ==> Allowed(h, client(i, h))
    modifies w
    ensures w.Valid() && old(w.freed) <= w.freed
    ensures forall o: Id :: o in old(w.freed) ==>
              !Live(w.Snap(), o) && o !in w.tracker && forall x: Slot :: !Holds(w.fields, {}, x, o)
    ensures old(CopyFree(w.Snap())) && (forall i: nat, h: Heap :: !CountsTwice(client(i, h))) ==> CopyFree(w.Snap())
  {
    hide ValidHeap, CopyFree, Allowed, CountsTwice, Holds;
    ghost var exact := CopyFree(w.Snap()) && forall i: nat, h: Heap :: !CountsTwice(client(i, h));
    var i := 0;
    while i < steps
      invariant w.Valid() && old(w.freed) <= w.freed
      invariant exact ==> CopyFree(w.Snap())
    {
      var op := client(i, Heap(w.fields, w.leaves, w.ids, w.tracker, w.next, w.freed));
      Perform(w, op);
      i := i + 1;
    }
    forall o: Id | o in old(w.freed)
      ensures !Live(w.Snap(), o) && o !in w.tracker && forall x: Slot :: !Holds(w.fields, {}, x, o)
    {
      FreedIsGone(w.Snap(), o);
    }
  }
}
