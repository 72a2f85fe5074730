/** The library's live state and the operations of `rpc_struct.c` and `ptracker.c` on it. */
module World {
  import opened Wrappers
  import opened OriginTable
  import opened Graph
  import opened Cascade
  import opened Ownership

  class World {
    var fields: Fields
    var leaves: map<Id, Leaf>
    var ids: map<Id, string>
    var tracker: Tracker
    var next: Id
    var freed: seq<Id>

    ghost function Snap(): Heap
      reads this
    {
      Heap(fields, leaves, ids, tracker, next, freed)
    }

    ghost predicate Valid()
      reads this
    {
      ValidHeap(Snap())
    }

    constructor ()
      ensures Valid() && Snap() == Heap(map[], map[], map[], map[], 0, [])
    {
      fields, leaves, ids, tracker, next, freed := map[], map[], map[], map[], 0, [];
      new;
      assert Ranked(fields, (_: Id) => 0);
    }

    // ---------- creating and setting ----------

    /** `rpc_struct_create`: an empty struct with a random 64-letter ID. */
    method CreateStruct() returns (s: Id)
      requires Valid()
      modifies this
      ensures Valid() && s == old(next) && !old(Live(Snap(), s))
      ensures s in ids && |ids[s]| == 64 && Snap() == WithStruct(old(Snap()), ids[s])
      ensures fields == old(fields)[s := map[]] && ids == old(ids)[s := ids[s]] && next == s + 1
      ensures leaves == old(leaves) && tracker == old(tracker) && freed == old(freed)
    {
      hide ValidHeap;
      assert |seq(ID_LENGTH, _ => 'a')| == ID_LENGTH;
      var id: string :| |id| == ID_LENGTH;
      StructCreated(Snap(), id);
      s := next;
      fields := fields[s := map[]];
      ids := ids[s := id];
      next := next + 1;
    }

    /** `rpc_sizedbuf_create` and `rpc_function_create`. */
    method CreateLeaf(leaf: Leaf) returns (o: Id)
      requires Valid()
      modifies this
      ensures Valid() && o == old(next) && !old(Live(Snap(), o))
      ensures Snap() == WithLeaf(old(Snap()), leaf)
      ensures leaves == old(leaves)[o := leaf] && next == o + 1
      ensures fields == old(fields) && ids == old(ids) && tracker == old(tracker) && freed == old(freed)
    {
      hide ValidHeap;
      LeafCreated(Snap(), leaf);
      o := next;
      leaves := leaves[o := leaf];
      next := next + 1;
    }

    /** `rpc_struct_id_set`: copies the characters given over the front of the ID. */
    method IdSet(s: Id, id: string)
      requires Valid() && s in fields && |id| <= ID_LENGTH
      modifies this`ids
      ensures Valid()
      ensures Snap() == old(Snap()).(ids := old(ids)[s := id + old(ids[s])[|id|..]])
    {
      hide Index, CountsOk, KindsOk, Acyclic, NoRepeats;
      ids := ids[s := id + ids[s][|id|..]];
      assert Snap().fields == old(Snap()).fields;
      assert forall q: Id :: Live(Snap(), q) <==> Live(old(Snap()), q);
      KindsIgnoreIds(old(Snap()), Snap());
    }

    /** The body of `rpc_struct_set_internal`: refuses a NULL pointer and a key in use, otherwise
        counts the reference and fills the slot. Strings are copied, so they are plain values here. */
    method SetInternal(s: Id, k: Key, element: Option<Elem>) returns (r: int)
      requires s in fields && AllTablesOk(tracker)
      modifies this`fields, this`tracker
      ensures element == None || k in old(fields[s]) ==> r == 1 && Snap() == old(Snap())
      ensures element.Some? && k !in old(fields[s]) ==>
                && r == 0 && Snap() == AfterSet(old(Snap()), s, k, element.value)
                && fields == old(fields)[s := old(fields[s])[k := element.value]]
                && leaves == old(leaves) && ids == old(ids) && next == old(next) && freed == old(freed)
    {
      hide TablesOk, Incremented;
      if element.Some? {
        if k !in fields[s] {
          tracker := Counted(tracker, s, k, element.value);
          fields := fields[s := fields[s][k := element.value]];
          return 0;
        }
      }
      r := 1;
    }

    /** `rpc_struct_set_internal` in a valid world. Setting keeps the index exact and the kinds right
        exactly when the value is alive and of the kind it claims; the world then stays valid unless the
        new slot closes a cycle. */
    method Set(s: Id, k: Key, element: Option<Elem>) returns (r: int)
      requires Valid() && s in fields
      modifies this`fields, this`tracker
      ensures element == None || k in old(fields[s]) ==> r == 1 && Snap() == old(Snap())
      ensures element.Some? && k !in old(fields[s]) ==>
                && r == 0 && AllTablesOk(old(tracker)) && Snap() == AfterSet(old(Snap()), s, k, element.value)
                && fields == old(fields)[s := old(fields[s])[k := element.value]]
                && leaves == old(leaves) && ids == old(ids) && next == old(next) && freed == old(freed)
                && (Consistent(Snap()) <==> Fits(old(Snap()), element.value))
                && (Fits(old(Snap()), element.value) ==> SlackKept(old(Snap()), Snap()) && (Valid() <==> Acyclic(fields)))
    {
      hide Intact, TablesOk, Acyclic, IdsOk, Counted, Consistent, Fits, HasKind;
      StructsHaveIds(Snap());
      if element.Some? && k !in fields[s] {
        if Fits(Snap(), element.value) {
          SetKeepsConsistent(Snap(), s, k, element.value);
          ConsistentAcyclic(AfterSet(Snap(), s, k, element.value));
        } else {
          SetBreaksKinds(Snap(), s, k, element.value);
        }
      }
      r := SetInternal(s, k, element);
    }

    /** `rpc_struct_copy`: a struct with the same ID sharing the original's members, each of which is
        counted twice for every slot of the copy that holds it. */
    method Copy(s: Id) returns (c: Id)
      requires Valid() && s in fields
      modifies this
      ensures Valid() && c == old(next) && !old(Live(Snap(), c)) && next == c + 1
      ensures fields == old(fields)[c := old(fields[s])] && ids == old(ids)[c := old(ids)[s]]
      ensures leaves == old(leaves) && freed == old(freed) && tracker.Keys == old(tracker).Keys
      ensures forall o :: o in tracker ==>
                Slack(tracker[o]) == old(Slack(tracker[o])) + |KeysHolding(old(fields[s]), o)|
    {
      hide ValidHeap, Slack, AllTablesOk, KeysHolding, Copying, Counted;
      ghost var h0 := Snap();
      StructsHaveIds(h0);
      c := CreateStruct();
      IdSet(c, ids[s]);
      assert ids[c] == h0.ids[s];
      CopyStarts(h0, Snap(), s, ids[c]);
      var names := fields[s].Keys;
      while names != {}
        invariant names <= h0.fields[s].Keys
        invariant Copying(h0, Snap(), s, c, names)
        invariant next == c + 1 && freed == h0.freed && ids == h0.ids[c := h0.ids[s]]
        decreases names
      {
        var k :| k in names;
        CopyStep(h0, Snap(), s, c, names, k);
        var element := fields[s][k];
        tracker := Counted(tracker, c, k, element);
        var _ := SetInternal(c, k, Some(element));
        names := names - {k};
      }
      CopyDone(h0, Snap(), s, c);
    }

    // ---------- freeing and removing ----------

    /** `rpc_struct_free`, `rpc_sizedbuf_free` and `rpc_function_free`: frees the object and exactly
        what must go with it, and takes it out of every surviving struct. */
    method FreeObject(p: Id)
      requires Valid() && Live(Snap(), p)
      modifies this
      ensures Valid() && !Live(Snap(), p)
      ensures FreedExactly(old(Snap()), Snap(), old(Listed(Snap(), p)), {p})
    {
      hide Intact, CountsOk, IdsOk, Underway, Cleared, Evolved, Contained, OriginOk, FreedExactly;
      ghost var h := Snap();
      ghost var rank: Id -> nat :| Ranked(h.fields, rank);
      ghost var c := StartOf(h, Listed(h, p), {p}, rank);
      if p in tracker {
        RootDeletable(h, p, rank);
        PrecDelete(p, {}, c);
      } else {
        RootReleasable(h, p, rank);
        Release(p, {}, c);
      }
      IntactSane(h, {});
      FreeIsExact(h, Snap(), Listed(h, p), {p}, rank);
      FreedStaysValid(h, Snap(), c);
    }

    /** `rpc_struct_remove`: erases one slot; the object held is freed, with what must go with it, if
        that was its last reference. */
    method Remove(s: Id, k: Key) returns (r: int)
      requires Valid() && s in fields
      modifies this
      ensures Valid()
      ensures k !in old(fields[s]) ==> r == 1 && Snap() == old(Snap())
      ensures k in old(fields[s]) ==>
                && r == 0 && s in fields
                && FreedExactly(old(Snap()), Snap(), {(s, k)}, old(LastReference(Snap(), s, k)))
    {
      hide Intact, CountsOk, IdsOk, Underway, Cleared, Evolved, Contained, OriginOk, FreedExactly, LastReference, Tearing;
      ghost var h := Snap();
      ghost var rank: Id -> nat :| Ranked(h.fields, rank);
      if k in fields[s] {
        ContainerSurvives(h, s, k, rank);
        RemovalTearing(h, s, k, rank);
        ghost var c := StartOf(h, {(s, k)}, LastReference(h, s, k), rank);
        r := RemoveSlot(s, k, {}, c);
        IntactSane(h, {});
        LastReferenceDies(c, h, Snap(), s, k);
        FreeIsExact(h, Snap(), {(s, k)}, LastReference(h, s, k), rank);
        FreedStaysValid(h, Snap(), c);
      } else {
        r := 1;
      }
    }

    // ---------- the cascade ----------

    /** `rpc_struct_remove`: decrement the object held, deleting it at zero, then erase the slot. */
    method RemoveSlot(s: Id, k: Key, ghost pend: set<Slot>, ghost c: Origin) returns (r: int)
      requires Quiet(Snap(), s, k) || Tearing(c, Snap(), pend, s, k)
      modifies this
      ensures r == if k in old(fields[s]) then 0 else 1
      ensures old(Quiet(Snap(), s, k)) ==>
                Snap() == if k in old(fields[s]) then Erased(old(Snap()), s, k) else old(Snap())
      ensures old(Tearing(c, Snap(), pend, s, k)) ==>
                TornDown(c, old(Snap()), Snap(), pend, s, k) && |tracker| <= old(|tracker|)
      decreases |tracker|, 2
    {
      hide Underway, Cleared, Evolved, UntouchedAbove;
      ghost var h := Snap();
      if k !in fields[s] {
        return 1;
      }
      var element := fields[s][k];
      if element.Ref? && element.id in tracker {
        var o := element.id;
        AfterDecrement(c, h, pend, s, k, o);
        PrecDecrement(s, k, o, pend, c);
        KeepsContainer(h, Snap(), c.rank, o, s);
        AfterErase(c, h, Snap(), pend, s, k, o);
      } else {
        if Tearing(c, h, pend, s, k) {
          TornPlain(c, h, pend, s, k);
          PlainErase(c, h, pend, s, k);
        }
      }
      fields := fields[s := fields[s] - {k}];
      return 0;
    }

    lemma TornPlain(c: Origin, h: Heap, pend: set<Slot>, s: Id, k: Key)
      requires Tearing(c, h, pend, s, k)
      requires h.fields[s][k].Ref? ==> h.fields[s][k].id !in h.tracker
      ensures !h.fields[s][k].Ref?
    {
      if h.fields[s][k].Ref? {
        HeldIsTracked(h, pend, (s, k), h.fields[s][k].id);
      }
    }

    /** `prec_decrement` with the decrement callback. */
    method PrecDecrement(s: Id, k: Key, o: Id, ghost pend: set<Slot>, ghost c: Origin)
      requires o in tracker && tracker[o].refcount > 0
      requires Decreased(c, WithRecord(Snap(), o, Decremented(tracker[o], k, s)), pend, s, k, o)
      requires Evolved(Snap(), WithRecord(Snap(), o, Decremented(tracker[o], k, s)))
      modifies this
      ensures Underway(c, Snap(), pend + {(s, k)}) && Cleared(c, fields, pend + {(s, k)})
      ensures Evolved(old(Snap()), Snap()) && UntouchedAbove(old(Snap()), Snap(), c.rank, o, {})
      ensures |tracker| <= old(|tracker|)
      decreases |tracker|, 2, 0
    {
      hide Underway, Evolved, UntouchedAbove, Decremented;
      ghost var h := Snap();
      tracker := tracker[o := Decremented(tracker[o], k, s)];
      assert tracker.Keys == h.tracker.Keys;
      assert |tracker.Keys| == |tracker| && |h.tracker.Keys| == |h.tracker|;
      ghost var h1 := Snap();
      if tracker[o].refcount == 0 {
        ZeroDeletable(c, h1, pend, s, k, o);
        PrecDelete(o, pend + {(s, k)}, c);
        EvolvedTrans(h, h1, Snap());
        UntouchedRefl(h, h1, c.rank, o);
        UntouchedTrans(h, h1, Snap(), c.rank, o, {});
      } else {
        StillCounted(c, h1, pend, s, k, o);
        UntouchedRefl(h, h1, c.rank, o);
      }
    }

    /** `prec_delete`: untrack first, then run the zero callback. */
    method PrecDelete(o: Id, ghost pend: set<Slot>, ghost c: Origin)
      requires Deletable(c, Snap(), pend, o)
      modifies this
      ensures Underway(c, Snap(), pend) && Cleared(c, fields, pend)
      ensures Evolved(old(Snap()), Snap()) && !Live(Snap(), o)
      ensures UntouchedAbove(old(Snap()), Snap(), c.rank, o, Pairs(old(tracker)[o]))
      ensures |tracker| < old(|tracker|)
      decreases |tracker|, 1
    {
      ghost var h := Snap();
      var p := tracker[o];
      tracker := tracker - {o};
      OnZero(p, o, pend, c, h);
    }

    /** `rpc_struct_onzero_cb`: erase every slot the record lists, then free the object. */
    method OnZero(p: Prec, o: Id, ghost pend: set<Slot>, ghost c: Origin, ghost h: Heap)
      requires o in h.tracker && p == h.tracker[o] && Deletable(c, h, pend, o) && Snap() == Untracked(h, o)
      modifies this
      ensures Underway(c, Snap(), pend) && Cleared(c, fields, pend)
      ensures Evolved(h, Snap()) && !Live(Snap(), o)
      ensures UntouchedAbove(h, Snap(), c.rank, o, Pairs(p))
      ensures |tracker| <= old(|tracker|)
      decreases |tracker|, 5
    {
      hide Deletable, Underway, Evolved, UntouchedAbove, Pairs, Cleared, WithoutAll, Quiet;
      ghost var done: set<Slot> := {};
      WithoutAllNothing(h.fields);
      PairsAreKeyed(p);
      var names := p.keys.Keys;
      while names != {}
        invariant Snap() == Untracked(h, o).(fields := WithoutAll(h.fields, done))
        invariant done <= Pairs(p)
        invariant forall x: Slot :: x in Pairs(p) && x.1 !in names ==> x in done
        decreases names
      {
        var name :| name in names;
        done := RemoveFromOrigins(p.keys[name].slots, name, o, pend, c, h, done);
        names := names - {name};
      }
      assert done == Pairs(p);
      AfterUnlisting(c, h, pend, o);
      UnlistedUntouched(h, o, c.rank);
      ghost var h1 := Snap();
      UnlistedReleasable(c, h, pend, o);
      Release(o, pend, c);
      UntouchedTrans(h, h1, Snap(), c.rank, o, Pairs(p));
      EvolvedTrans(Untracked(h, o), h1, Snap());
      EvolvedUntracked(h, o, Snap());
    }

    /** The zero callback's inner loop: remove the object from every origin listed under one key. */
    method RemoveFromOrigins(origins: seq<Option<Id>>, name: Key, o: Id,
                             ghost pend: set<Slot>, ghost c: Origin, ghost h: Heap, ghost done: set<Slot>)
      returns (ghost done': set<Slot>)
      requires o in h.tracker && Deletable(c, h, pend, o)
      requires name in h.tracker[o].keys && origins == h.tracker[o].keys[name].slots
      requires Snap() == Untracked(h, o).(fields := WithoutAll(h.fields, done)) && done <= Pairs(h.tracker[o])
      modifies this
      ensures Snap() == Untracked(h, o).(fields := WithoutAll(h.fields, done')) && done <= done' <= Pairs(h.tracker[o])
      ensures forall x: Slot :: x in Pairs(h.tracker[o]) && x.1 == name ==> x in done'
      decreases |tracker|, 3
    {
      hide Deletable, Pairs, WithoutAll, Quiet, Tearing;
      done' := done;
      var j := 0;
      PairOfTable(h.tracker[o], name);
      while j < |origins|
        invariant 0 <= j <= |origins|
        invariant Snap() == Untracked(h, o).(fields := WithoutAll(h.fields, done'))
        invariant done <= done' <= Pairs(h.tracker[o])
        invariant forall i :: 0 <= i < j && origins[i].Some? ==> (origins[i].value, name) in done'
      {
        if origins[j].Some? {
          var s := origins[j].value;
          assert s in Recorded(h.tracker[o].keys[name]);
          ListedQuiet(c, h, pend, o, s, name, done');
          WithoutOne(h.fields, done', s, name);
          var _ := RemoveSlot(s, name, pend, c);
          done' := done' + {(s, name)};
        }
        j := j + 1;
      }
    }

    /** The free callback of a deleted object's kind. */
    method Release(o: Id, ghost pend: set<Slot>, ghost c: Origin)
      requires Releasable(c, Snap(), pend, o) && Live(Snap(), o) && PendAbove(pend, c.rank, o)
      modifies this
      ensures Underway(c, Snap(), pend) && Cleared(c, fields, pend)
      ensures Evolved(old(Snap()), Snap()) && !Live(Snap(), o)
      ensures UntouchedAbove(old(Snap()), Snap(), c.rank, o, {})
      ensures |tracker| <= old(|tracker|)
      decreases |tracker|, 4
    {
      hide Releasable, Underway, Evolved, UntouchedAbove, Cleared;
      if o in fields {
        FreeInternal(o, pend, c);
      } else {
        LeafReleased(c, Snap(), pend, o);
        StructGoneUntouched(Snap(), o, c.rank);
        leaves := leaves - {o};
        freed := freed + [o];
      }
    }

    /** `rpc_struct_free_internal`: remove every key, then free the struct itself. The keys come in
        whatever order the map lists them. */
    method FreeInternal(o: Id, ghost pend: set<Slot>, ghost c: Origin)
      requires Releasable(c, Snap(), pend, o) && o in fields && PendAbove(pend, c.rank, o)
      modifies this
      ensures Underway(c, Snap(), pend) && Cleared(c, fields, pend)
      ensures Evolved(old(Snap()), Snap()) && !Live(Snap(), o)
      ensures UntouchedAbove(old(Snap()), Snap(), c.rank, o, {})
      ensures |tracker| <= old(|tracker|)
      decreases |tracker|, 3
    {
      hide Releasable, Underway, Evolved, UntouchedAbove, Cleared, Tearing, Quiet;
      ghost var h := Snap();
      ReleasableEvolved(c, h, pend, o);
      UntouchedRefl(h, h, c.rank, o);
      while fields[o] != map[]
        invariant o in fields && Releasable(c, Snap(), pend, o)
        invariant Evolved(h, Snap()) && UntouchedAbove(h, Snap(), c.rank, o, {})
        invariant |tracker| <= old(|tracker|)
        decreases |fields[o]|
      {
        ghost var h1 := Snap();
        var k :| k in fields[o];
        TearReady(c, h1, pend, o, k);
        FewerKeys(fields[o], k);
        var _ := RemoveSlot(o, k, pend, c);
        StillReleasable(c, h1, Snap(), pend, o, k);
        EvolvedTrans(h, h1, Snap());
        UntouchedTrans(h, h1, Snap(), c.rank, o, {});
      }
      ghost var h2 := Snap();
      StructReleased(c, h2, pend, o);
      StructGoneUntouched(h2, o, c.rank);
      fields := fields - {o};
      ids := ids - {o};
      freed := freed + [o];
      EvolvedTrans(h, h2, Snap());
      UntouchedTrans(h, h2, Snap(), c.rank, o, {});
    }
  }

  lemma KindsIgnoreIds(h: Heap, h': Heap)
    requires KindsOk(h, {}) && h'.fields == h.fields && h'.leaves == h.leaves
    ensures KindsOk(h', {})
  {
    forall x: Slot, o: Id | Holds(h'.fields, {}, x, o)
      ensures HasKind(h', o, h'.fields[x.0][x.1].kind)
    {
      assert Holds(h.fields, {}, x, o);
    }
  }

  lemma FewerKeys(m: map<Key, Elem>, k: Key)
    requires k in m
    ensures |m - {k}| < |m|
  {
    assert (m - {k}).Keys == m.Keys - {k};
    assert |(m - {k}).Keys| == |m - {k}| && |m.Keys| == |m|;
  }

  lemma UnlistedReleasable(c: Origin, h: Heap, pend: set<Slot>, o: Id)
    requires Deletable(c, h, pend, o)
    requires Underway(c, Unlisted(h, o), pend) && Cleared(c, Unlisted(h, o).fields, pend)
    ensures Releasable(c, Unlisted(h, o), pend, o) && Live(Unlisted(h, o), o)
    ensures PendAbove(pend, c.rank, o)
  {
  }

  lemma ReleasableEvolved(c: Origin, h: Heap, pend: set<Slot>, o: Id)
    requires Releasable(c, h, pend, o)
    ensures Evolved(h, h)
  {
    EvolvedRefl(h);
  }
}
