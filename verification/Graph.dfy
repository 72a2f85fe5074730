/** The object graph that `rpc_struct.c` and `ptracker.c` keep: containers, tracked objects with
    their reference counts, and the back-reference index from each object to the slots holding it. */
module Graph {
  import opened Wrappers
  import opened OriginTable

  /** Object identities; an id is never used again after its object is freed. */
  type Id = nat

  type Key = string

  /** The tracked pointer types. */
  datatype Kind = StructKind | BufKind | FunKind

  /** The value in one slot of a struct. `Opaque` is a raw pointer (RPC_unknown), `Void` is RPC_none. */
  datatype Elem =
    | Void
    | Num(length: nat, bits: nat)
    | Real(length: nat, value: real)
    | Text(text: string)
    | Opaque(pointer: nat)
    | Ref(kind: Kind, id: Id)

  /** The tracked objects that hold nothing themselves. */
  datatype Leaf =
    | Buf(bytes: seq<nat>)
    | Fun(prototype: seq<nat>, returnType: nat, pointer: nat)

  /** A tracker record: the reference count and, per key name, the origins holding the object. */
  datatype Prec = Prec(refcount: nat, keys: map<Key, Origins<Id>>)

  type Fields = map<Id, map<Key, Elem>>
  type Tracker = map<Id, Prec>
  type Slot = (Id, Key)

  // ---------- tracker records ----------

  ghost predicate RecordedAt(p: Prec, s: Id, k: Key) {
    k in p.keys && s in Recorded(p.keys[k])
  }

  /** The (origin, key) pairs an object's record lists. */
  ghost function Pairs(p: Prec): set<Slot> {
    set k, s | k in p.keys && s in Recorded(p.keys[k]) :: (s, k)
  }

  lemma PairsAreKeyed(p: Prec)
    ensures forall x: Slot :: x in Pairs(p) ==> x.1 in p.keys
  {
    assert forall x: Slot :: x in Pairs(p) ==> RecordedAt(p, x.0, x.1);
  }

  lemma PairOfTable(p: Prec, k: Key)
    requires k in p.keys
    ensures forall s: Id :: (s, k) in Pairs(p) <==> s in Recorded(p.keys[k])
  {
    assert forall s: Id :: (s, k) in Pairs(p) <==> RecordedAt(p, s, k);
  }

  ghost predicate TablesOk(p: Prec) {
    forall k :: k in p.keys ==> FreeOk(p.keys[k])
  }

  /** `prec_increment` with the increment callback. */
  function Incremented(p: Prec, k: Key, s: Id): Prec
    requires TablesOk(p)
  {
    var table := if k in p.keys then p.keys[k] else EmptyOrigins();
    Prec(p.refcount + 1, p.keys[k := AddOrigin(table, s)])
  }

  /** `prec_decrement` with the decrement callback, which releases a table whose index is zero. */
  function Decremented(p: Prec, k: Key, s: Id): Prec
    requires p.refcount > 0
  {
    if k !in p.keys then p.(refcount := p.refcount - 1)
    else
      var table := DropFrom(p.keys[k], s, 0);
      Prec(p.refcount - 1, if table.slots == [] then p.keys - {k} else p.keys[k := table])
  }

  lemma EmptyTableOk<T>()
    ensures FreeOk<T>(EmptyOrigins()) && Recorded<T>(EmptyOrigins()) == {}
  {
  }

  lemma IncrementPairs(p: Prec, k: Key, s: Id)
    requires TablesOk(p)
    ensures TablesOk(Incremented(p, k, s))
    ensures Pairs(Incremented(p, k, s)) == Pairs(p) + {(s, k)}
  {
    hide Recorded, AddOrigin;
    EmptyTableOk<Id>();
    var table := if k in p.keys then p.keys[k] else EmptyOrigins();
    AddRecords(table, s);
    var p' := Incremented(p, k, s);
    forall x
      ensures x in Pairs(p') <==> x in Pairs(p) + {(s, k)}
    {
      assert x in Pairs(p') <==> RecordedAt(p', x.0, x.1);
      assert x in Pairs(p) <==> RecordedAt(p, x.0, x.1);
    }
  }

  lemma DecrementPairs(p: Prec, k: Key, s: Id)
    requires TablesOk(p) && p.refcount > 0
    ensures TablesOk(Decremented(p, k, s))
    ensures Pairs(Decremented(p, k, s)) == Pairs(p) - {(s, k)}
  {
    hide FreeOk, Recorded, DropFrom;
    var p' := Decremented(p, k, s);
    if k in p.keys {
      DropForgets(p.keys[k], s, 0);
      if DropFrom(p.keys[k], s, 0).slots == [] {
        EmptyRecordsNothing(DropFrom(p.keys[k], s, 0));
      }
    }
    forall x
      ensures x in Pairs(p') <==> x in Pairs(p) - {(s, k)}
    {
      assert x in Pairs(p') <==> RecordedAt(p', x.0, x.1);
      assert x in Pairs(p) <==> RecordedAt(p, x.0, x.1);
    }
  }

  /** The decrement releases the table of that key when it was empty or recorded just that origin at its
      only index, and leaves the others alone. */
  lemma TableReleasedIff(p: Prec, k: Key, s: Id)
    requires p.refcount > 0 && k in p.keys
    ensures k !in Decremented(p, k, s).keys <==> p.keys[k].slots == [] || p.keys[k].slots == [Some(s)]
    ensures forall j :: j != k ==> (j in Decremented(p, k, s).keys <==> j in p.keys)
    ensures forall j :: j != k && j in p.keys ==> Decremented(p, k, s).keys[j] == p.keys[j]
  {
    hide DropFrom;
    ReleasedIff(p.keys[k], s);
  }

  lemma EmptyRecordsNothing<T>(t: Origins<T>)
    requires t.slots == []
    ensures Recorded(t) == {}
  {
  }

  // ---------- the index invariant ----------

  /** Slot `x` of a live struct holds object `o`; slots in `pend` are about to be erased and do not
      count. */
  ghost predicate Holds(fields: Fields, pend: set<Slot>, x: Slot, o: Id) {
    x.0 in fields && x.1 in fields[x.0] && fields[x.0][x.1].Ref? && fields[x.0][x.1].id == o && x !in pend
  }

  ghost predicate Lists(tracker: Tracker, x: Slot, o: Id) {
    o in tracker && x in Pairs(tracker[o])
  }

  /** References beyond those the slots account for. */
  ghost function Slack(p: Prec): int {
    p.refcount - |Pairs(p)|
  }

  /** The back-reference index lists, for every object, exactly the slots that hold it. */
  ghost predicate Index(fields: Fields, pend: set<Slot>, tracker: Tracker) {
    forall x: Slot, o: Id :: Holds(fields, pend, x, o) <==> Lists(tracker, x, o)
  }

  /** No record counts fewer references than it lists slots, and none has reached zero. */
  ghost predicate CountsOk(tracker: Tracker) {
    forall o: Id :: o in tracker ==> TablesOk(tracker[o]) && Slack(tracker[o]) >= 0 && tracker[o].refcount > 0
  }

  ghost predicate SameHolds(f: Fields, p: set<Slot>, f': Fields, p': set<Slot>) {
    forall x: Slot, o: Id :: Holds(f, p, x, o) <==> Holds(f', p', x, o)
  }

  /** Erasing a pending slot changes nothing that counts. */
  lemma ErasePending(fields: Fields, pend: set<Slot>, s: Id, k: Key)
    requires s in fields
    ensures SameHolds(fields, pend + {(s, k)}, fields[s := fields[s] - {k}], pend)
  {
  }

  lemma ErasePlain(fields: Fields, pend: set<Slot>, s: Id, k: Key)
    requires s in fields && (k in fields[s] ==> !fields[s][k].Ref?)
    ensures SameHolds(fields, pend, fields[s := fields[s] - {k}], pend)
  {
  }

  /** An emptied struct's memory can go without changing what is held. */
  lemma EraseEmpty(fields: Fields, pend: set<Slot>, s: Id)
    requires s in fields && fields[s] == map[]
    ensures SameHolds(fields, pend, fields - {s}, pend)
  {
  }

  lemma IndexSame(f: Fields, p: set<Slot>, f': Fields, p': set<Slot>, tracker: Tracker)
    requires Index(f, p, tracker) && SameHolds(f, p, f', p')
    ensures Index(f', p', tracker)
  {
    forall x: Slot, o: Id
      ensures Holds(f', p', x, o) <==> Lists(tracker, x, o)
    {
      assert Holds(f, p, x, o) <==> Holds(f', p', x, o);
    }
  }

  /** Decrementing for a slot takes it out of the index; the slot itself is still to be erased. */
  lemma IndexDecrement(fields: Fields, pend: set<Slot>, tracker: Tracker, s: Id, k: Key, o: Id)
    requires Index(fields, pend, tracker) && CountsOk(tracker)
    requires Holds(fields, pend, (s, k), o)
    ensures o in tracker && tracker[o].refcount > 0
    ensures var p' := Decremented(tracker[o], k, s);
            && Index(fields, pend + {(s, k)}, tracker[o := p'])
            && TablesOk(p') && Slack(p') == Slack(tracker[o]) && p'.refcount == tracker[o].refcount - 1
            && Pairs(p') == Pairs(tracker[o]) - {(s, k)}
  {
    hide Pairs, TablesOk, Decremented;
    assert Lists(tracker, (s, k), o);
    DecrementPairs(tracker[o], k, s);
    RefcountDown(tracker[o], k, s);
    var tracker' := tracker[o := Decremented(tracker[o], k, s)];
    forall x: Slot, q: Id
      ensures Holds(fields, pend + {(s, k)}, x, q) <==> Lists(tracker', x, q)
    {
      assert Holds(fields, pend, x, q) <==> Lists(tracker, x, q);
    }
  }

  lemma RefcountDown(p: Prec, k: Key, s: Id)
    requires p.refcount > 0
    ensures Decremented(p, k, s).refcount == p.refcount - 1
  {
  }

  /** Dropping a record makes the slots it lists pending. */
  lemma IndexUntrack(fields: Fields, pend: set<Slot>, tracker: Tracker, o: Id)
    requires Index(fields, pend, tracker) && o in tracker
    ensures Index(fields, pend + Pairs(tracker[o]), tracker - {o})
    ensures forall x: Slot :: !Holds(fields, pend + Pairs(tracker[o]), x, o)
  {
    hide Pairs;
    forall x: Slot, q: Id
      ensures Holds(fields, pend + Pairs(tracker[o]), x, q) <==> Lists(tracker - {o}, x, q)
    {
      assert Holds(fields, pend, x, q) <==> Lists(tracker, x, q);
      assert Holds(fields, pend, x, o) <==> Lists(tracker, x, o);
    }
    forall x: Slot
      ensures !Holds(fields, pend + Pairs(tracker[o]), x, o)
    {
      assert Holds(fields, pend, x, o) <==> Lists(tracker, x, o);
    }
  }

  /** Filling a new slot and incrementing keeps the index. */
  lemma IndexIncrement(fields: Fields, tracker: Tracker, s: Id, k: Key, kind: Kind, o: Id)
    requires Index(fields, {}, tracker) && s in fields && k !in fields[s]
    requires o in tracker ==> TablesOk(tracker[o])
    ensures var p := if o in tracker then tracker[o] else Prec(0, map[]);
            && TablesOk(p)
            && TablesOk(Incremented(p, k, s))
            && Slack(Incremented(p, k, s)) == Slack(p)
            && Pairs(Incremented(p, k, s)) == Pairs(p) + {(s, k)}
            && Index(fields[s := fields[s][k := Ref(kind, o)]], {}, tracker[o := Incremented(p, k, s)])
  {
    hide Pairs, TablesOk, Incremented;
    NewRecord();
    var p := if o in tracker then tracker[o] else Prec(0, map[]);
    IncrementPairs(p, k, s);
    RefcountUp(p, k, s);
    assert (s, k) !in Pairs(p) by {
      assert Holds(fields, {}, (s, k), o) <==> Lists(tracker, (s, k), o);
    }
    var fields', tracker' := fields[s := fields[s][k := Ref(kind, o)]], tracker[o := Incremented(p, k, s)];
    forall x: Slot, q: Id
      ensures Holds(fields', {}, x, q) <==> Lists(tracker', x, q)
    {
      assert Holds(fields, {}, x, q) <==> Lists(tracker, x, q);
    }
  }

  lemma NewRecord()
    ensures TablesOk(Prec(0, map[])) && Pairs(Prec(0, map[])) == {} && Slack(Prec(0, map[])) == 0
  {
  }

  lemma RefcountUp(p: Prec, k: Key, s: Id)
    requires TablesOk(p)
    ensures Incremented(p, k, s).refcount == p.refcount + 1
  {
  }

  // ---------- the whole heap ----------

  /** A snapshot of everything the library keeps; `freed` lists the objects freed so far, in order. */
  datatype Heap = Heap(
    fields: Fields,
    leaves: map<Id, Leaf>,
    ids: map<Id, string>,
    tracker: Tracker,
    next: Id,
    freed: seq<Id>)

  ghost predicate Live(h: Heap, o: Id) {
    o in h.fields || o in h.leaves
  }

  ghost predicate NoRepeats(s: seq<Id>) {
    forall i, j :: 0 <= i < j < |s| ==> s[i] != s[j]
  }

  /** Objects are structs or leaves, ids are below `next`, tracked objects are live, and no object is
      freed twice. */
  ghost predicate Sane(h: Heap) {
    && h.fields.Keys !! h.leaves.Keys
    && h.ids.Keys == h.fields.Keys
    && (forall o: Id :: Live(h, o) ==> o < h.next && o !in h.freed)
    && (forall o: Id :: o in h.tracker ==> Live(h, o))
    && (forall o: Id :: o in h.freed ==> o < h.next)
    && NoRepeats(h.freed)
  }

  ghost predicate HasKind(h: Heap, o: Id, kind: Kind) {
    match kind
    case StructKind => o in h.fields
    case BufKind => o in h.leaves && h.leaves[o].Buf?
    case FunKind => o in h.leaves && h.leaves[o].Fun?
  }

  /** Slots that count name the kind of the object they hold. */
  ghost predicate KindsOk(h: Heap, pend: set<Slot>) {
    forall x: Slot, o: Id :: Holds(h.fields, pend, x, o) ==> HasKind(h, o, h.fields[x.0][x.1].kind)
  }

  ghost predicate Intact(h: Heap, pend: set<Slot>) {
    Index(h.fields, pend, h.tracker) && Sane(h) && KindsOk(h, pend)
  }

  /** Containment is acyclic: `rank` falls along every reference. */
  ghost predicate Ranked(fields: Fields, rank: Id -> nat) {
    forall s, k :: s in fields && k in fields[s] && fields[s][k].Ref? ==> rank(fields[s][k].id) < rank(s)
  }

  ghost predicate Acyclic(fields: Fields) {
    exists rank: Id -> nat :: Ranked(fields, rank)
  }

  /** What frees may do to a heap: objects disappear into `freed`, records of the survivors keep
      their slack, and nothing else is invented. */
  ghost predicate Evolved(h: Heap, h': Heap) {
    && h'.next == h.next
    && h.freed <= h'.freed
    && (forall o: Id :: Live(h', o) <==> Live(h, o) && o !in h'.freed)
    && (forall o: Id :: o in h'.freed ==> o in h.freed || Live(h, o))
    && (forall o: Id :: o in h'.leaves ==> o in h.leaves && h'.leaves[o] == h.leaves[o])
    && (forall o: Id :: o in h'.fields ==> o in h.fields && o in h.ids && o in h'.ids && h'.ids[o] == h.ids[o])
    && (forall o: Id :: o in h'.tracker ==> o in h.tracker && Slack(h'.tracker[o]) == Slack(h.tracker[o]))
    && (forall o: Id :: o in h.tracker && Live(h', o) ==> o in h'.tracker)
  }

  lemma EvolvedTrans(a: Heap, b: Heap, c: Heap)
    requires Evolved(a, b) && Evolved(b, c)
    ensures Evolved(a, c)
  {
    hide Slack;
  }

  lemma EvolvedRefl(h: Heap)
    requires Sane(h)
    ensures Evolved(h, h)
  {
  }
}
