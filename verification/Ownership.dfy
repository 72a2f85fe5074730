/** What the public operations on structs promise: the invariant they keep and exactly what they free. */
module Ownership {
  import opened Wrappers
  import opened OriginTable
  import opened Graph
  import opened Cascade

  const ID_LENGTH := 64

  ghost predicate IdsOk(h: Heap) {
    forall s :: s in h.ids ==> |h.ids[s]| == ID_LENGTH
  }

  /** The invariant between operations. */
  ghost predicate ValidHeap(h: Heap) {
    Intact(h, {}) && CountsOk(h.tracker) && Acyclic(h.fields) && IdsOk(h)
  }

  lemma StructsHaveIds(h: Heap)
    requires ValidHeap(h)
    ensures h.ids.Keys == h.fields.Keys
    ensures forall s :: s in h.ids ==> |h.ids[s]| == ID_LENGTH
    ensures h.next !in h.fields && h.next !in h.leaves && h.next !in h.tracker
    ensures AllTablesOk(h.tracker)
  {
    assert !Live(h, h.next);
  }

  /** The slots an object's record lists, none if it has no record. */
  ghost function Listed(h: Heap, o: Id): set<Slot> {
    if o in h.tracker then Pairs(h.tracker[o]) else {}
  }

  /** What must go when the slots `gone` are erased and the objects `start` deleted. */
  ghost function Victims(h: Heap, gone: set<Slot>, start: set<Id>): set<Id> {
    Doomed(h.fields, gone, Loose(h.tracker), start)
  }

  /** Exactly the victims are freed; surviving structs lose exactly the slots `gone`. */
  ghost predicate FreedExactly(h: Heap, h': Heap, gone: set<Slot>, start: set<Id>) {
    && Evolved(h, h')
    && (forall o: Id :: Live(h', o) <==> Live(h, o) && o !in Victims(h, gone, start))
    && (forall s :: s in h'.fields ==> h'.fields[s] == Without(h.fields[s], s, gone))
  }

  /** Where a free of `start` that also erases `gone` begins. */
  ghost function StartOf(h: Heap, gone: set<Slot>, start: set<Id>, rank: Id -> nat): Origin {
    Origin(h.fields, h.leaves.Keys, gone, Loose(h.tracker), Victims(h, gone, start), rank)
  }

  lemma StartUnderway(h: Heap, gone: set<Slot>, start: set<Id>, rank: Id -> nat)
    requires ValidHeap(h) && Ranked(h.fields, rank)
    ensures Underway(StartOf(h, gone, start, rank), h, {})
    ensures start <= Victims(h, gone, start)
  {
    hide Intact, CountsOk, Ranked, Slack;
    DoomedClosed(h.fields, gone, Loose(h.tracker), start);
  }

  /** A loose object still alive after the free is still held by a survivor. */
  lemma SurvivorHeld(c: Origin, h: Heap, h': Heap, o: Id) returns (x: Slot)
    requires Underway(c, h', {}) && Cleared(c, h'.fields, {}) && Evolved(h, h')
    requires c.fields == h.fields && o in Loose(h.tracker) && Live(h', o)
    ensures Holds(h.fields, c.pend, x, o) && x.0 in h'.fields
  {
    hide Sane, KindsOk, Pairs, TablesOk, OriginOk;
    assert o in h.tracker && o in h'.tracker;
    assert Slack(h'.tracker[o]) == 0 && |Pairs(h'.tracker[o])| > 0;
    assert Pairs(h'.tracker[o]) != {};
    x :| x in Pairs(h'.tracker[o]);
    assert Lists(h'.tracker, x, o);
    assert Holds(h'.fields, {}, x, o);
  }

  lemma VictimsDie(c: Origin, h: Heap, h': Heap, start: set<Id>)
    requires Underway(c, h', {}) && Cleared(c, h'.fields, {}) && Evolved(h, h')
    requires c.fields == h.fields && c.loose == Loose(h.tracker) && c.doomed == Victims(h, c.pend, start)
    requires forall o: Id :: o in start ==> !Live(h', o)
    ensures forall o: Id :: o in c.doomed ==> !Live(h', o)
  {
    hide Underway, Cleared, Evolved, Slack, Loose;
    var dead := set o | o in c.doomed && !Live(h', o);
    DoomedClosed(h.fields, c.pend, c.loose, start);
    forall o: Id | o in c.loose && OnlyHeldBy(h.fields, c.pend, o, dead)
      ensures o in dead
    {
      assert OnlyHeldBy(h.fields, c.pend, o, c.doomed);
      if Live(h', o) {
        var x := SurvivorHeld(c, h, h', o);
        assert false;
      }
    }
    DoomedLeast(h.fields, c.pend, c.loose, start, dead);
  }

  /** A finished free has freed exactly its victims. */
  lemma FreeIsExact(h: Heap, h': Heap, gone: set<Slot>, start: set<Id>, rank: Id -> nat)
    requires Sane(h)
    requires var c := StartOf(h, gone, start, rank);
             Underway(c, h', {}) && Cleared(c, h'.fields, {}) && Evolved(h, h')
    requires forall o: Id :: o in start ==> !Live(h', o)
    ensures FreedExactly(h, h', gone, start)
  {
    hide Intact, CountsOk, OriginOk, Slack, Doomed;
    var c := StartOf(h, gone, start, rank);
    VictimsDie(c, h, h', start);
    forall s | s in h'.fields
      ensures h'.fields[s] == Without(h.fields[s], s, gone)
    {
      assert Live(h', s);
    }
  }

  lemma FreedStaysValid(h: Heap, h': Heap, c: Origin)
    requires ValidHeap(h) && Evolved(h, h') && Underway(c, h', {})
    ensures ValidHeap(h')
  {
    hide CountsOk, Index, KindsOk, Slack;
    assert Ranked(h'.fields, c.rank);
  }

  // ---------- freeing and removing ----------

  /** The root of a free is ready for `prec_delete`. */
  lemma RootDeletable(h: Heap, p: Id, rank: Id -> nat)
    requires ValidHeap(h) && Ranked(h.fields, rank) && p in h.tracker
    ensures Deletable(StartOf(h, Listed(h, p), {p}, rank), h, {}, p)
  {
    hide Intact, Ranked, Slack, Pairs, Contained, OriginOk, TablesOk;
    StartUnderway(h, Listed(h, p), {p}, rank);
    assert {} + Listed(h, p) == Listed(h, p);
    forall q: Id | q in h.tracker - {p}
      ensures TablesOk((h.tracker - {p})[q]) && Slack((h.tracker - {p})[q]) >= 0 && (h.tracker - {p})[q].refcount > 0
    {
      assert (h.tracker - {p})[q] == h.tracker[q];
    }
  }

  lemma RootReleasable(h: Heap, p: Id, rank: Id -> nat)
    requires ValidHeap(h) && Ranked(h.fields, rank) && p !in h.tracker
    ensures Releasable(StartOf(h, Listed(h, p), {p}, rank), h, {}, p)
  {
    hide Underway;
    StartUnderway(h, {}, {p}, rank);
  }

  /** The object deleted along with slot (s, k), if that slot is its last reference. */
  ghost function LastReference(h: Heap, s: Id, k: Key): set<Id>
    requires s in h.fields && k in h.fields[s]
  {
    var e := h.fields[s][k];
    if e.Ref? && e.id in h.tracker && h.tracker[e.id].refcount == 1 then {e.id} else {}
  }

  lemma LastSlotIsLast(h: Heap, s: Id, k: Key)
    requires ValidHeap(h) && s in h.fields && k in h.fields[s]
    ensures LastSlot(h, s, k) <==> LastReference(h, s, k) != {}
  {
    hide Pairs, Sane, KindsOk, TablesOk, Acyclic;
    var e := h.fields[s][k];
    if e.Ref? {
      HeldIsTracked(h, {}, (s, k), e.id);
      var pairs := Pairs(h.tracker[e.id]);
      assert {(s, k)} <= pairs;
      if pairs <= {(s, k)} {
        assert pairs == {(s, k)};
      } else {
        SubsetSize({(s, k)}, pairs);
        if |pairs| == 1 {
          var x :| x in pairs && x != (s, k);
          SubsetSize({(s, k), x}, pairs);
        }
      }
    }
  }

  lemma RemovalTearing(h: Heap, s: Id, k: Key, rank: Id -> nat)
    requires ValidHeap(h) && Ranked(h.fields, rank) && s in h.fields && k in h.fields[s]
    requires s !in Victims(h, {(s, k)}, LastReference(h, s, k))
    ensures Tearing(StartOf(h, {(s, k)}, LastReference(h, s, k), rank), h, {}, s, k)
  {
    hide Underway, Ranked, Victims, LastSlot, Acyclic, Intact, CountsOk;
    StartUnderway(h, {(s, k)}, LastReference(h, s, k), rank);
    LastSlotIsLast(h, s, k);
  }

  /** The struct a slot is removed from outlives the removal: nothing below it can hold it. */
  lemma ContainerSurvives(h: Heap, s: Id, k: Key, rank: Id -> nat)
    requires ValidHeap(h) && Ranked(h.fields, rank) && s in h.fields && k in h.fields[s]
    ensures s !in Victims(h, {(s, k)}, LastReference(h, s, k))
  {
    hide Intact, CountsOk, Slack, Loose;
    var below := set o | o in Victims(h, {(s, k)}, LastReference(h, s, k)) && rank(o) < rank(s);
    forall o: Id | o in Loose(h.tracker) && OnlyHeldBy(h.fields, {(s, k)}, o, below)
      ensures o in below
    {
      var x: Slot :| Holds(h.fields, {(s, k)}, x, o);
      assert rank(o) < rank(x.0) && x.0 in below;
      DoomedClosed(h.fields, {(s, k)}, Loose(h.tracker), LastReference(h, s, k));
      assert OnlyHeldBy(h.fields, {(s, k)}, o, Victims(h, {(s, k)}, LastReference(h, s, k)));
    }
    DoomedClosed(h.fields, {(s, k)}, Loose(h.tracker), LastReference(h, s, k));
    DoomedLeast(h.fields, {(s, k)}, Loose(h.tracker), LastReference(h, s, k), below);
  }

  /** An object whose last reference was removed is gone. */
  lemma LastReferenceDies(c: Origin, h: Heap, h': Heap, s: Id, k: Key)
    requires ValidHeap(h) && s in h.fields && k in h.fields[s]
    requires TornDown(c, h, h', {}, s, k) && c.fields == h.fields
    ensures forall o: Id :: o in LastReference(h, s, k) ==> !Live(h', o)
  {
    hide Slack, Pairs, Sane, KindsOk, TablesOk, Acyclic, OriginOk, UntouchedAbove, Cleared;
    LastSlotIsLast(h, s, k);
    var e := h.fields[s][k];
    if LastReference(h, s, k) != {} && Live(h', e.id) {
      var o := e.id;
      assert o in h'.tracker && Slack(h'.tracker[o]) == Slack(h.tracker[o]) == 0;
      PairsNonEmpty(h'.tracker[o]);
      assert forall x: Slot :: x in Pairs(h'.tracker[o]) ==> Lists(h'.tracker, x, o) && Holds(h.fields, {}, x, o);
      assert false;
    }
  }

  lemma PairsNonEmpty(p: Prec)
    requires Slack(p) == 0 && p.refcount > 0
    ensures Pairs(p) != {}
  {
  }

  lemma ValidSane(h: Heap)
    requires ValidHeap(h)
    ensures Sane(h) && h.ids.Keys == h.fields.Keys
  {
  }

  /** A free whose victims are known leaves exactly the rest, with the same slack. */
  lemma SurvivorsExact(h: Heap, h': Heap, gone: set<Slot>, start: set<Id>)
    requires Sane(h) && Sane(h') && FreedExactly(h, h', gone, start) && Victims(h, gone, start) == start
    requires start !! h.tracker.Keys && start !! h.leaves.Keys
    ensures h'.fields.Keys == h.fields.Keys - start
    ensures h'.leaves == h.leaves
    ensures h'.ids == h.ids - start
    ensures forall s :: s in h'.fields ==> h'.fields[s] == Without(h.fields[s], s, gone)
    ensures h'.tracker.Keys == h.tracker.Keys && h'.next == h.next && h.freed <= h'.freed
    ensures forall o :: o in h.tracker ==> Slack(h'.tracker[o]) == Slack(h.tracker[o])
  {
    hide Slack, NoRepeats, Victims, Without;
    assert forall o: Id :: Live(h', o) <==> Live(h, o) && o !in start;
    assert forall o :: o in h.leaves ==> Live(h', o) && o !in h'.fields;
    assert forall o :: o in h.fields && o !in start ==> Live(h', o) && o !in h'.leaves;
    assert forall o :: o in h.tracker ==> Live(h', o);
  }

  lemma FieldsRestored(fields: Fields, c: Id, m: map<Key, Elem>, fields': Fields)
    requires fields'.Keys == fields.Keys && c !in fields
    requires forall x :: x in fields' ==> fields'[x] == Without(fields[c := m][x], x, {})
    ensures fields' == fields
  {
    hide Without;
    forall x | x in fields
      ensures fields'[x] == fields[x]
    {
      WithoutNothing(fields[x], x);
    }
  }

  // ---------- what the invariant means ----------

  /** The index is the heap read backwards: an object's record lists exactly the slots that hold it,
      its count is their number plus its slack, and everything held is tracked, alive and of the
      kind the slot names. */
  lemma IndexIsExact(h: Heap, x: Slot, o: Id)
    requires ValidHeap(h)
    ensures Holds(h.fields, {}, x, o) <==> o in h.tracker && x in Pairs(h.tracker[o])
    ensures Holds(h.fields, {}, x, o) ==> Live(h, o) && o !in h.freed && HasKind(h, o, h.fields[x.0][x.1].kind)
    ensures o in h.tracker ==> h.tracker[o].refcount == |Pairs(h.tracker[o])| + Slack(h.tracker[o])
    ensures o in h.tracker ==> 0 <= Slack(h.tracker[o]) && 0 < h.tracker[o].refcount
  {
    hide Pairs, TablesOk, Acyclic;
    assert Holds(h.fields, {}, x, o) <==> Lists(h.tracker, x, o);
  }

  /** No copies were made: every count is the number of slots. */
  ghost predicate CopyFree(h: Heap) {
    forall o :: o in h.tracker ==> h.tracker[o].refcount == |Pairs(h.tracker[o])|
  }

  lemma FreesKeepCopyFree(h: Heap, h': Heap)
    requires CopyFree(h) && Evolved(h, h')
    ensures CopyFree(h')
  {
    hide Pairs;
    forall o | o in h'.tracker
      ensures h'.tracker[o].refcount == |Pairs(h'.tracker[o])|
    {
      assert Slack(h'.tracker[o]) == Slack(h.tracker[o]);
    }
  }

  /** Without copies the victims of a free are the least set that contains its start and every held
      object all of whose containers, apart from the erased slots, are in the set. */
  lemma VictimsAreLeast(h: Heap, gone: set<Slot>, start: set<Id>, z: set<Id>)
    requires ValidHeap(h) && CopyFree(h)
    requires start <= z && forall o: Id :: OnlyHeldBy(h.fields, gone, o, z) ==> o in z
    ensures start <= Victims(h, gone, start) <= z
    ensures forall o: Id :: OnlyHeldBy(h.fields, gone, o, Victims(h, gone, start)) ==> o in Victims(h, gone, start)
  {
    hide Pairs, Sane, KindsOk, TablesOk, Acyclic;
    DoomedClosed(h.fields, gone, Loose(h.tracker), start);
    DoomedLeast(h.fields, gone, Loose(h.tracker), start, z);
    forall o: Id | OnlyHeldBy(h.fields, gone, o, Victims(h, gone, start))
      ensures o in Loose(h.tracker)
    {
      var x: Slot :| Holds(h.fields, gone, x, o);
      assert Holds(h.fields, {}, x, o);
      assert Lists(h.tracker, x, o);
    }
  }

  lemma SetsKeepCopyFree(h: Heap, h': Heap)
    requires CopyFree(h) && SlackKept(h, h')
    ensures CopyFree(h')
  {
    hide Pairs;
    forall o | o in h'.tracker
      ensures h'.tracker[o].refcount == |Pairs(h'.tracker[o])|
    {
      assert o in h.tracker ==> Slack(h'.tracker[o]) == Slack(h.tracker[o]);
      assert Slack(h'.tracker[o]) == 0;
    }
  }

  /** Removing a slot frees the object it holds exactly when the object's count is 1. */
  lemma RemovedIsFreedIff(h: Heap, s: Id, k: Key)
    requires ValidHeap(h) && s in h.fields && k in h.fields[s] && h.fields[s][k].Ref?
    ensures h.fields[s][k].id in h.tracker
    ensures h.fields[s][k].id in Victims(h, {(s, k)}, LastReference(h, s, k)) <==>
              h.tracker[h.fields[s][k].id].refcount == 1
  {
    hide ValidHeap, Loose;
    SlotFits(h, s, k);
    var start := LastReference(h, s, k);
    DoomedClosed(h.fields, {(s, k)}, Loose(h.tracker), start);
    if start == {} {
      DoomedLeast(h.fields, {(s, k)}, Loose(h.tracker), {}, {});
    }
  }

  /** So removing the one slot that holds an object frees it exactly when no copy ever counted it
      twice; otherwise it stays in memory with no slot holding it. */
  lemma SoleSlotFreesIff(h: Heap, s: Id, k: Key, o: Id)
    requires ValidHeap(h) && s in h.fields && k in h.fields[s]
    requires o in h.tracker && Pairs(h.tracker[o]) == {(s, k)}
    ensures o in Victims(h, {(s, k)}, LastReference(h, s, k)) <==> Slack(h.tracker[o]) == 0
  {
    hide ValidHeap, Victims, LastReference;
    IndexIsExact(h, (s, k), o);
    RemovedIsFreedIff(h, s, k);
  }

  /** A heap in which struct 0 holds itself under "x". */
  ghost function SelfHeld(id: string): Heap {
    Heap(map[0 := map["x" := Ref(StructKind, 0)]], map[], map[0 := id],
         map[0 := Prec(1, map["x" := Origins([Some(0)], [])])], 1, [])
  }

  /** In a cycle, removing a slot can free the very struct that is to lose the slot. */
  lemma CycleFreesContainer(id: string)
    requires |id| == ID_LENGTH
    ensures var h := SelfHeld(id);
            && Consistent(h) && !Acyclic(h.fields)
            && 0 in Victims(h, {(0, "x")}, LastReference(h, 0, "x"))
  {
    var h := SelfHeld(id);
    var p := h.tracker[0];
    assert Recorded(p.keys["x"]) == {0} by {
      assert p.keys["x"].slots[0] == Some(0);
    }
    PairOfTable(p, "x");
    PairsAreKeyed(p);
    assert Pairs(p) == {(0, "x")};
    forall x: Slot, o: Id
      ensures Holds(h.fields, {}, x, o) <==> Lists(h.tracker, x, o)
    {
    }
    forall rank: Id -> nat
      ensures !Ranked(h.fields, rank)
    {
      assert "x" in h.fields[0] && h.fields[0]["x"].Ref?;
    }
    DoomedClosed(h.fields, {(0, "x")}, Loose(h.tracker), LastReference(h, 0, "x"));
  }

  // ---------- setting ----------

  /** An object's record, or the fresh one `prec_new` makes. */
  function RecordOf(tracker: Tracker, o: Id): Prec {
    if o in tracker then tracker[o] else Prec(0, map[])
  }

  ghost predicate AllTablesOk(tracker: Tracker) {
    forall o :: o in tracker ==> TablesOk(tracker[o])
  }

  /** Counting a new reference from slot (s, k), if the element is a tracked pointer. */
  function Counted(tracker: Tracker, s: Id, k: Key, e: Elem): Tracker
    requires AllTablesOk(tracker)
  {
    if e.Ref? then
      NewRecord();
      tracker[e.id := Incremented(RecordOf(tracker, e.id), k, s)]
    else tracker
  }

  ghost function AfterSet(h: Heap, s: Id, k: Key, e: Elem): Heap
    requires s in h.fields && AllTablesOk(h.tracker)
  {
    h.(fields := h.fields[s := h.fields[s][k := e]], tracker := Counted(h.tracker, s, k, e))
  }

  /** Records keep their slack; a new one has none. */
  ghost predicate SlackKept(h: Heap, h': Heap) {
    && (forall o :: o in h.tracker ==> o in h'.tracker && Slack(h'.tracker[o]) == Slack(h.tracker[o]))
    && (forall o :: o in h'.tracker && o !in h.tracker ==> Slack(h'.tracker[o]) == 0)
  }

  ghost predicate Fits(h: Heap, e: Elem) {
    e.Ref? ==> HasKind(h, e.id, e.kind)
  }

  /** The invariant but for acyclicity. */
  ghost predicate Consistent(h: Heap) {
    Intact(h, {}) && CountsOk(h.tracker) && IdsOk(h)
  }

  lemma SetKindsOk(h: Heap, s: Id, k: Key, e: Elem, h': Heap)
    requires KindsOk(h, {}) && s in h.fields && k !in h.fields[s] && Fits(h, e)
    requires h' == h.(fields := h.fields[s := h.fields[s][k := e]], tracker := h'.tracker)
    ensures KindsOk(h', {})
  {
    forall x: Slot, q: Id | Holds(h'.fields, {}, x, q)
      ensures HasKind(h', q, h'.fields[x.0][x.1].kind)
    {
      assert x == (s, k) || Holds(h.fields, {}, x, q);
    }
  }

  lemma SetSane(h: Heap, s: Id, k: Key, e: Elem, h': Heap)
    requires Sane(h) && s in h.fields && Fits(h, e)
    requires h' == h.(fields := h.fields[s := h.fields[s][k := e]], tracker := h'.tracker)
    requires forall o :: o in h'.tracker ==> o in h.tracker || (e.Ref? && o == e.id)
    ensures Sane(h')
  {
    hide NoRepeats;
    assert forall q: Id :: Live(h', q) <==> Live(h, q);
  }

  lemma SetPlainConsistent(h: Heap, s: Id, k: Key, e: Elem)
    requires ValidHeap(h) && s in h.fields && k !in h.fields[s] && !e.Ref?
    ensures AllTablesOk(h.tracker)
    ensures Consistent(AfterSet(h, s, k, e)) && SlackKept(h, AfterSet(h, s, k, e))
  {
    hide TablesOk, Slack, Acyclic, Index, Sane, KindsOk;
    var h' := AfterSet(h, s, k, e);
    assert SameHolds(h.fields, {}, h'.fields, {});
    IndexSame(h.fields, {}, h'.fields, {}, h.tracker);
    SetSane(h, s, k, e, h');
    SetKindsOk(h, s, k, e, h');
  }

  lemma SetRefConsistent(h: Heap, s: Id, k: Key, e: Elem)
    requires ValidHeap(h) && s in h.fields && k !in h.fields[s] && e.Ref? && Fits(h, e)
    ensures AllTablesOk(h.tracker)
    ensures Consistent(AfterSet(h, s, k, e)) && SlackKept(h, AfterSet(h, s, k, e))
  {
    hide TablesOk, Slack, Acyclic, Index, Pairs, Incremented, Sane, KindsOk;
    var h' := AfterSet(h, s, k, e);
    NewRecord();
    IndexIncrement(h.fields, h.tracker, s, k, e.kind, e.id);
    RefcountUp(RecordOf(h.tracker, e.id), k, s);
    SetSane(h, s, k, e, h');
    SetKindsOk(h, s, k, e, h');
  }

  /** Setting keeps the index exact even if it closes a cycle. */
  lemma SetKeepsConsistent(h: Heap, s: Id, k: Key, e: Elem)
    requires ValidHeap(h) && s in h.fields && k !in h.fields[s] && Fits(h, e)
    ensures AllTablesOk(h.tracker)
    ensures Consistent(AfterSet(h, s, k, e)) && SlackKept(h, AfterSet(h, s, k, e))
  {
    if e.Ref? {
      SetRefConsistent(h, s, k, e);
    } else {
      SetPlainConsistent(h, s, k, e);
    }
  }

  /** A slot that holds a dead object, or one of another kind, is not consistent. */
  lemma SetBreaksKinds(h: Heap, s: Id, k: Key, e: Elem)
    requires s in h.fields && !Fits(h, e) && AllTablesOk(h.tracker)
    ensures !Consistent(AfterSet(h, s, k, e))
  {
    hide Sane, Index, Counted, AllTablesOk;
    assert Holds(AfterSet(h, s, k, e).fields, {}, (s, k), e.id);
  }

  lemma ConsistentAcyclic(h: Heap)
    ensures ValidHeap(h) <==> Consistent(h) && Acyclic(h.fields)
  {
  }

  lemma SetKeepsValid(h: Heap, s: Id, k: Key, e: Elem)
    requires ValidHeap(h) && s in h.fields && k !in h.fields[s] && Fits(h, e)
    requires Acyclic(h.fields[s := h.fields[s][k := e]])
    ensures AllTablesOk(h.tracker)
    ensures ValidHeap(AfterSet(h, s, k, e)) && SlackKept(h, AfterSet(h, s, k, e))
  {
    hide Intact, CountsOk, Acyclic, AllTablesOk, SlackKept, IdsOk;
    SetKeepsConsistent(h, s, k, e);
  }

  // ---------- creating ----------

  ghost function WithStruct(h: Heap, id: string): Heap {
    h.(fields := h.fields[h.next := map[]], ids := h.ids[h.next := id], next := h.next + 1)
  }

  ghost function WithLeaf(h: Heap, leaf: Leaf): Heap {
    h.(leaves := h.leaves[h.next := leaf], next := h.next + 1)
  }

  lemma StructCreated(h: Heap, id: string)
    requires ValidHeap(h) && |id| == ID_LENGTH
    ensures ValidHeap(WithStruct(h, id)) && !Live(h, h.next)
  {
    hide Index, Slack, TablesOk, NoRepeats;
    var h' := WithStruct(h, id);
    assert h.next !in h.fields && h.next !in h.leaves by {
      assert !Live(h, h.next);
    }
    assert SameHolds(h.fields, {}, h'.fields, {});
    IndexSame(h.fields, {}, h'.fields, {}, h.tracker);
    assert forall q: Id :: Live(h', q) <==> Live(h, q) || q == h.next;
    forall x: Slot, q: Id | Holds(h'.fields, {}, x, q)
      ensures HasKind(h', q, h'.fields[x.0][x.1].kind)
    {
      assert Holds(h.fields, {}, x, q);
    }
    var rank: Id -> nat :| Ranked(h.fields, rank);
    assert Ranked(h'.fields, rank);
  }

  lemma LeafCreated(h: Heap, leaf: Leaf)
    requires ValidHeap(h)
    ensures ValidHeap(WithLeaf(h, leaf)) && !Live(h, h.next)
  {
    hide Index, Slack, TablesOk, NoRepeats, Acyclic;
    var h' := WithLeaf(h, leaf);
    assert h.next !in h.fields && h.next !in h.leaves by {
      assert !Live(h, h.next);
    }
    assert forall q: Id :: Live(h', q) <==> Live(h, q) || q == h.next;
    forall x: Slot, q: Id | Holds(h'.fields, {}, x, q)
      ensures HasKind(h', q, h'.fields[x.0][x.1].kind)
    {
      assert Holds(h.fields, {}, x, q);
    }
  }

  // ---------- copying ----------

  /** The keys under which a struct holds an object. */
  ghost function KeysHolding(m: map<Key, Elem>, o: Id): set<Key> {
    set k | k in m && m[k].Ref? && m[k].id == o
  }

  lemma NobodyHolds(h: Heap, o: Id)
    requires ValidHeap(h) && o !in h.tracker
    ensures forall s, k :: s in h.fields && k in h.fields[s] && h.fields[s][k].Ref? ==> h.fields[s][k].id != o
  {
    hide Pairs, Sane, KindsOk, CountsOk, Acyclic;
    forall s, k | s in h.fields && k in h.fields[s] && h.fields[s][k].Ref?
      ensures h.fields[s][k].id != o
    {
      if h.fields[s][k].id == o {
        HeldIsTracked(h, {}, (s, k), o);
      }
    }
  }

  /** A struct nobody holds may take any part of another struct's contents. */
  lemma CopyAcyclic(h: Heap, s: Id, c: Id, m: map<Key, Elem>)
    requires ValidHeap(h) && s in h.fields && c !in h.tracker
    requires forall k :: k in m ==> k in h.fields[s] && m[k] == h.fields[s][k]
    ensures Acyclic(h.fields[c := m])
  {
    NobodyHolds(h, c);
    var rank: Id -> nat :| Ranked(h.fields, rank);
    var rank': Id -> nat := x => if x == c then rank(s) else rank(x);
    assert Ranked(h.fields[c := m], rank');
  }

  /** Counting a recorded slot once more only adds slack. */
  lemma ExtraReference(h: Heap, o: Id, s: Id, k: Key)
    requires ValidHeap(h) && o in h.tracker && (s, k) in Pairs(h.tracker[o])
    ensures TablesOk(h.tracker[o])
    ensures var h' := WithRecord(h, o, Incremented(h.tracker[o], k, s));
            && ValidHeap(h')
            && Slack(h'.tracker[o]) == Slack(h.tracker[o]) + 1
  {
    hide TablesOk, Index, Pairs, Incremented, Acyclic;
    assert TablesOk(h.tracker[o]);
    IncrementPairs(h.tracker[o], k, s);
    RefcountUp(h.tracker[o], k, s);
    var p := Incremented(h.tracker[o], k, s);
    var h' := WithRecord(h, o, p);
    assert Pairs(p) == Pairs(h.tracker[o]);
    SamePairsIndex(h, o, p);
    assert forall q: Id :: Live(h', q) <==> Live(h, q);
    forall x: Slot, q: Id | Holds(h'.fields, {}, x, q)
      ensures HasKind(h', q, h'.fields[x.0][x.1].kind)
    {
      assert Holds(h.fields, {}, x, q);
    }
  }

  lemma SamePairsIndex(h: Heap, o: Id, p: Prec)
    requires Index(h.fields, {}, h.tracker) && o in h.tracker && Pairs(p) == Pairs(h.tracker[o])
    ensures Index(h.fields, {}, h.tracker[o := p])
  {
    hide Pairs;
    forall x: Slot, q: Id
      ensures Holds(h.fields, {}, x, q) <==> Lists(h.tracker[o := p], x, q)
    {
      assert Holds(h.fields, {}, x, q) <==> Lists(h.tracker, x, q);
    }
  }

  /** One turn of the loop of `rpc_struct_copy`: count the element, then set it, which counts it again. */
  ghost function AfterCopyStep(h: Heap, c: Id, k: Key, e: Elem): Heap
    requires c in h.fields && AllTablesOk(h.tracker) && AllTablesOk(Counted(h.tracker, c, k, e))
  {
    AfterSet(h.(tracker := Counted(h.tracker, c, k, e)), c, k, e)
  }

  lemma CountedTwice(h: Heap, c: Id, k: Key, e: Elem)
    requires ValidHeap(h) && c in h.fields && k !in h.fields[c] && e.Ref? && Fits(h, e)
    requires AllTablesOk(h.tracker) && ValidHeap(AfterSet(h, c, k, e)) && SlackKept(h, AfterSet(h, c, k, e))
    ensures AllTablesOk(Counted(h.tracker, c, k, e))
    ensures var h' := AfterCopyStep(h, c, k, e);
            && ValidHeap(h') && h'.tracker.Keys == h.tracker.Keys + {e.id}
            && Slack(h'.tracker[e.id]) == (if e.id in h.tracker then Slack(h.tracker[e.id]) else 0) + 1
            && forall o :: o in h.tracker && o != e.id ==> Slack(h'.tracker[o]) == Slack(h.tracker[o])
  {
    hide TablesOk, Pairs, Incremented, Slack, Sane, KindsOk;
    var h1 := AfterSet(h, c, k, e);
    assert AllTablesOk(h1.tracker);
    assert Holds(h1.fields, {}, (c, k), e.id);
    HeldIsTracked(h1, {}, (c, k), e.id);
    ExtraReference(h1, e.id, c, k);
    assert AfterCopyStep(h, c, k, e) == WithRecord(h1, e.id, Incremented(h1.tracker[e.id], k, c));
  }

  ghost predicate Copying(h0: Heap, h: Heap, s: Id, c: Id, rest: set<Key>) {
    && ValidHeap(h) && s in h0.fields && s != c && c !in h0.fields && c !in h0.tracker
    && h == h0.(fields := h0.fields[c := h0.fields[s] - rest], ids := h.ids, tracker := h.tracker, next := h.next)
    && h.tracker.Keys == h0.tracker.Keys
    && forall o :: o in h.tracker ==>
         Slack(h.tracker[o]) == Slack(h0.tracker[o]) + |KeysHolding(h0.fields[s] - rest, o)|
  }

  lemma CopyDone(h0: Heap, h: Heap, s: Id, c: Id)
    requires Copying(h0, h, s, c, {})
    ensures ValidHeap(h) && h.fields == h0.fields[c := h0.fields[s]]
    ensures h.leaves == h0.leaves && h.tracker.Keys == h0.tracker.Keys
    ensures forall o :: o in h.tracker ==>
              Slack(h.tracker[o]) == Slack(h0.tracker[o]) + |KeysHolding(h0.fields[s], o)|
  {
    hide ValidHeap, Slack, KeysHolding;
    assert h0.fields[s] - {} == h0.fields[s];
  }

  lemma CopyStarts(h0: Heap, h: Heap, s: Id, id: string)
    requires ValidHeap(h0) && ValidHeap(h) && s in h0.fields && h == WithStruct(h0, id)
    ensures Copying(h0, h, s, h0.next, h0.fields[s].Keys)
  {
    hide Slack, Intact, Acyclic, CountsOk, IdsOk;
    assert !Live(h0, h0.next) && h0.next !in h0.tracker && Live(h0, s) by {
      IntactSane(h0, {});
    }
    assert h0.fields[s] - h0.fields[s].Keys == map[];
    assert forall o: Id :: KeysHolding(map[], o) == {};
  }

  lemma HoldingGrows(m: map<Key, Elem>, rest: set<Key>, k: Key, o: Id)
    requires k in m && k in rest
    ensures (m - (rest - {k})) == (m - rest)[k := m[k]]
    ensures |KeysHolding(m - (rest - {k}), o)| ==
            |KeysHolding(m - rest, o)| + if m[k].Ref? && m[k].id == o then 1 else 0
  {
    if m[k].Ref? && m[k].id == o {
      assert KeysHolding(m - (rest - {k}), o) == KeysHolding(m - rest, o) + {k};
    } else {
      assert KeysHolding(m - (rest - {k}), o) == KeysHolding(m - rest, o);
    }
  }

  /** One key more of the copy adds one to the keys that hold its object. */
  lemma CopyStepSlack(h0: Heap, h: Heap, h': Heap, s: Id, c: Id, rest: set<Key>, k: Key)
    requires Copying(h0, h, s, c, rest) && k in rest && k in h0.fields[s] && h'.tracker.Keys == h.tracker.Keys
    requires forall o :: o in h.tracker ==>
               Slack(h'.tracker[o]) == Slack(h.tracker[o]) + if h0.fields[s][k].Ref? && h0.fields[s][k].id == o then 1 else 0
    ensures forall o :: o in h'.tracker ==>
              Slack(h'.tracker[o]) == Slack(h0.tracker[o]) + |KeysHolding(h0.fields[s] - (rest - {k}), o)|
  {
    hide ValidHeap, Slack, KeysHolding;
    forall o | o in h'.tracker
      ensures Slack(h'.tracker[o]) == Slack(h0.tracker[o]) + |KeysHolding(h0.fields[s] - (rest - {k}), o)|
    {
      HoldingGrows(h0.fields[s], rest, k, o);
    }
  }

  lemma CopyStep(h0: Heap, h: Heap, s: Id, c: Id, rest: set<Key>, k: Key)
    requires Copying(h0, h, s, c, rest) && k in rest && k in h0.fields[s]
    ensures s in h.fields && k in h.fields[s] && h.fields[s][k] == h0.fields[s][k]
    ensures c in h.fields && k !in h.fields[c]
    ensures AllTablesOk(h.tracker) && AllTablesOk(Counted(h.tracker, c, k, h0.fields[s][k]))
    ensures Copying(h0, AfterCopyStep(h, c, k, h0.fields[s][k]), s, c, rest - {k})
  {
    hide TablesOk, Pairs, Slack, Intact, Acyclic, IdsOk, KeysHolding, Incremented;
    var m, e := h0.fields[s], h0.fields[s][k];
    assert h.fields[s] == m;
    SlotFits(h, s, k);
    HoldingGrows(m, rest, k, 0);
    CopyAcyclic(h, s, c, (m - rest)[k := e]);
    SetKeepsValid(h, c, k, e);
    if e.Ref? {
      CountedTwice(h, c, k, e);
    }
    CopyStepSlack(h0, h, AfterCopyStep(h, c, k, e), s, c, rest, k);
  }

  lemma SlotFits(h: Heap, s: Id, k: Key)
    requires ValidHeap(h) && s in h.fields && k in h.fields[s]
    ensures Fits(h, h.fields[s][k])
    ensures h.fields[s][k].Ref? ==> h.fields[s][k].id in h.tracker
  {
    if h.fields[s][k].Ref? {
      assert Holds(h.fields, {}, (s, k), h.fields[s][k].id);
      HeldIsTracked(h, {}, (s, k), h.fields[s][k].id);
    }
  }
}
