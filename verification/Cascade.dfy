/** Which objects a free must take with it, and the bookkeeping of a free in progress. */
module Cascade {
  import opened Wrappers
  import opened Graph

  /** Objects whose count is entirely accounted for by slots; only these can reach zero. */
  ghost function Loose(tracker: Tracker): set<Id> {
    set o | o in tracker && Slack(tracker[o]) == 0
  }

  ghost predicate Held(fields: Fields, pend: set<Slot>, o: Id) {
    exists x: Slot :: Holds(fields, pend, x, o)
  }

  /** Every slot holding `o` belongs to a struct in `y`, and there is one. */
  ghost predicate OnlyHeldBy(fields: Fields, pend: set<Slot>, o: Id, y: set<Id>) {
    Held(fields, pend, o) && forall x: Slot :: Holds(fields, pend, x, o) ==> x.0 in y
  }

  /** `y` takes along every loose object that only its members hold. */
  ghost predicate Closed(fields: Fields, pend: set<Slot>, loose: set<Id>, y: set<Id>) {
    forall o: Id :: o in loose && OnlyHeldBy(fields, pend, o, y) ==> o in y
  }

  ghost function Grow(fields: Fields, pend: set<Slot>, loose: set<Id>, y: set<Id>): set<Id> {
    y + set o | o in loose && OnlyHeldBy(fields, pend, o, y)
  }

  /** The least closed set containing `y`. */
  ghost function Doomed(fields: Fields, pend: set<Slot>, loose: set<Id>, y: set<Id>): set<Id>
    decreases |loose - y|
  {
    var y' := Grow(fields, pend, loose, y);
    if y' == y then y
    else
      GrowShrinksRest(fields, pend, loose, y);
      Doomed(fields, pend, loose, y')
  }

  lemma GrowShrinksRest(fields: Fields, pend: set<Slot>, loose: set<Id>, y: set<Id>)
    requires Grow(fields, pend, loose, y) != y
    ensures |loose - Grow(fields, pend, loose, y)| < |loose - y|
  {
    var y' := Grow(fields, pend, loose, y);
    assert y <= y';
    var o :| o in y' && o !in y;
    assert o in loose - y && o !in loose - y';
    assert (loose - y') + {o} <= loose - y;
    SubsetSize((loose - y') + {o}, loose - y);
  }

  lemma {:induction false} DoomedClosed(fields: Fields, pend: set<Slot>, loose: set<Id>, y: set<Id>)
    ensures y <= Doomed(fields, pend, loose, y)
    ensures Closed(fields, pend, loose, Doomed(fields, pend, loose, y))
    decreases |loose - y|
  {
    var y' := Grow(fields, pend, loose, y);
    if y' != y {
      GrowShrinksRest(fields, pend, loose, y);
      DoomedClosed(fields, pend, loose, y');
    } else {
      forall o: Id | o in loose && OnlyHeldBy(fields, pend, o, y)
        ensures o in y
      {
        assert o in y';
      }
    }
  }

  lemma {:induction false} DoomedLeast(fields: Fields, pend: set<Slot>, loose: set<Id>, y: set<Id>, z: set<Id>)
    requires y <= z && Closed(fields, pend, loose, z)
    ensures Doomed(fields, pend, loose, y) <= z
    decreases |loose - y|
  {
    var y' := Grow(fields, pend, loose, y);
    if y' != y {
      GrowShrinksRest(fields, pend, loose, y);
      forall o | o in y'
        ensures o in z
      {
        if o !in y {
          assert OnlyHeldBy(fields, pend, o, z);
        }
      }
      DoomedLeast(fields, pend, loose, y', z);
    }
  }

  /** Whatever is doomed and was no start is loose and held by doomed structs only. */
  lemma {:induction false} DoomedReason(fields: Fields, pend: set<Slot>, loose: set<Id>, y: set<Id>, o: Id)
    requires o in Doomed(fields, pend, loose, y) && o !in y
    ensures o in loose && OnlyHeldBy(fields, pend, o, Doomed(fields, pend, loose, y))
    decreases |loose - y|
  {
    var y' := Grow(fields, pend, loose, y);
    if y' != y {
      GrowShrinksRest(fields, pend, loose, y);
      if o in y' {
        DoomedClosed(fields, pend, loose, y');
      } else {
        DoomedReason(fields, pend, loose, y', o);
      }
    }
  }

  // ---------- a free in progress ----------

  /** What a free started from: the heap then, the slots it erases on its own account, the loose
      objects, the closed set it must stay within, and a witness of acyclicity. */
  datatype Origin = Origin(
    fields: Fields,
    leaves: set<Id>,
    pend: set<Slot>,
    loose: set<Id>,
    doomed: set<Id>,
    rank: Id -> nat)

  ghost predicate OriginOk(c: Origin) {
    Ranked(c.fields, c.rank) && Closed(c.fields, c.pend, c.loose, c.doomed)
  }

  /** So far only doomed objects are gone and only their slots, or the slots being erased on the
      free's own account, have been cleared. */
  ghost predicate Contained(c: Origin, h: Heap, pend: set<Slot>) {
    && (forall s, k :: s in h.fields && k in h.fields[s] ==>
          s in c.fields && k in c.fields[s] && h.fields[s][k] == c.fields[s][k])
    && (forall s, k :: s in c.fields && k in c.fields[s] && s !in c.doomed && (s, k) !in c.pend ==>
          s in h.fields && k in h.fields[s] && (s, k) !in pend)
    && (forall s :: s in c.fields && s !in c.doomed ==> s in h.fields)
    && (forall o :: o in c.leaves && o !in c.doomed ==> o in h.leaves)
    && (forall o :: o in h.tracker && Slack(h.tracker[o]) == 0 ==> o in c.loose)
  }

  /** The slots erased on the free's own account are gone or pending. */
  ghost predicate Cleared(c: Origin, fields: Fields, pend: set<Slot>) {
    forall x: Slot :: x in c.pend && x.0 in fields && x.1 in fields[x.0] ==> x in pend
  }

  ghost predicate PendAbove(pend: set<Slot>, rank: Id -> nat, s: Id) {
    forall x: Slot :: x in pend ==> rank(x.0) > rank(s)
  }

  /** An object whose last counted slot is being torn down is doomed. */
  lemma ZeroIsDoomed(c: Origin, h: Heap, pend: set<Slot>, x: Slot, o: Id)
    requires OriginOk(c) && Contained(c, h, pend) && Cleared(c, h.fields, pend)
    requires Holds(h.fields, pend, x, o) && x.0 in c.doomed && o in c.loose
    requires forall z: Slot :: Holds(h.fields, pend, z, o) ==> z == x
    ensures o in c.doomed
  {
    assert Holds(c.fields, c.pend, x, o);
    forall z: Slot | Holds(c.fields, c.pend, z, o)
      ensures z.0 in c.doomed
    {
      if z.0 !in c.doomed {
        assert Holds(h.fields, pend, z, o);
      }
    }
    assert OnlyHeldBy(c.fields, c.pend, o, c.doomed);
  }

  // ---------- the single moves of a free ----------

  ghost function Erased(h: Heap, s: Id, k: Key): Heap
    requires s in h.fields
  {
    h.(fields := h.fields[s := h.fields[s] - {k}])
  }

  ghost function Without(m: map<Key, Elem>, s: Id, gone: set<Slot>): map<Key, Elem> {
    map k | k in m && (s, k) !in gone :: m[k]
  }

  ghost function WithoutAll(fields: Fields, gone: set<Slot>): Fields {
    map s | s in fields :: Without(fields[s], s, gone)
  }

  /** Structs ranked at or above `s`, other than `s`, are as before. */
  ghost predicate UntouchedAbove(h: Heap, h': Heap, rank: Id -> nat, s: Id, gone: set<Slot>) {
    forall x :: x in h.fields && rank(x) >= rank(s) && x != s ==>
      x in h'.fields && h'.fields[x] == Without(h.fields[x], x, gone)
  }

  /** The state of affairs every part of a free keeps. */
  ghost predicate Underway(c: Origin, h: Heap, pend: set<Slot>) {
    Intact(h, pend) && CountsOk(h.tracker) && OriginOk(c) && Contained(c, h, pend)
  }

  /** A removal that touches no record: the slot is absent, plain, or holds an untracked object. */
  ghost predicate Quiet(h: Heap, s: Id, k: Key) {
    s in h.fields && (k in h.fields[s] && h.fields[s][k].Ref? ==> h.fields[s][k].id !in h.tracker)
  }

  /** Slot (s, k) accounts for the whole count of the object it holds. */
  ghost predicate LastSlot(h: Heap, s: Id, k: Key)
    requires s in h.fields && k in h.fields[s]
  {
    && h.fields[s][k].Ref? && h.fields[s][k].id in h.tracker
    && Pairs(h.tracker[h.fields[s][k].id]) <= {(s, k)} && Slack(h.tracker[h.fields[s][k].id]) == 0
  }

  /** A removal within a free: from a doomed struct, or of the slot the whole removal is about. */
  ghost predicate Tearing(c: Origin, h: Heap, pend: set<Slot>, s: Id, k: Key) {
    && s in h.fields && k in h.fields[s]
    && Underway(c, h, pend) && PendAbove(pend, c.rank, s) && (s, k) !in pend
    && Cleared(c, h.fields, pend + {(s, k)})
    && (if s in c.doomed then Cleared(c, h.fields, pend)
        else (s, k) in c.pend && (LastSlot(h, s, k) ==> h.fields[s][k].id in c.doomed))
  }

  ghost predicate TornDown(c: Origin, h: Heap, h': Heap, pend: set<Slot>, s: Id, k: Key) {
    && Underway(c, h', pend) && Cleared(c, h'.fields, pend) && Evolved(h, h')
    && s in h.fields && s in h'.fields && h'.fields[s] == h.fields[s] - {k}
    && UntouchedAbove(h, h', c.rank, s, {})
  }

  lemma WithoutNothing(m: map<Key, Elem>, s: Id)
    ensures Without(m, s, {}) == m
  {
  }

  lemma EraseIntact(h: Heap, pend: set<Slot>, s: Id, k: Key, pend': set<Slot>)
    requires Intact(h, pend) && s in h.fields
    requires SameHolds(h.fields, pend, Erased(h, s, k).fields, pend')
    ensures Intact(Erased(h, s, k), pend')
  {
    hide Index;
    var h' := Erased(h, s, k);
    IndexSame(h.fields, pend, h'.fields, pend', h.tracker);
    forall x: Slot, o: Id | Holds(h'.fields, pend', x, o)
      ensures HasKind(h', o, h'.fields[x.0][x.1].kind)
    {
      assert Holds(h.fields, pend, x, o);
    }
    assert forall o: Id :: Live(h', o) <==> Live(h, o);
  }

  lemma EraseContained(c: Origin, h: Heap, pend: set<Slot>, s: Id, k: Key, pend': set<Slot>)
    requires Contained(c, h, pend) && s in h.fields && pend' <= pend
    requires s in c.doomed || (s, k) in c.pend
    ensures Contained(c, Erased(h, s, k), pend')
  {
    hide Slack;
  }

  lemma EraseEvolved(h: Heap, s: Id, k: Key)
    requires Sane(h) && s in h.fields
    ensures Evolved(h, Erased(h, s, k))
  {
    hide Slack;
    assert forall o: Id :: Live(Erased(h, s, k), o) <==> Live(h, o);
  }

  lemma EraseUntouched(h: Heap, s: Id, k: Key, rank: Id -> nat)
    requires s in h.fields
    ensures UntouchedAbove(h, Erased(h, s, k), rank, s, {})
  {
  }

  lemma PlainErase(c: Origin, h: Heap, pend: set<Slot>, s: Id, k: Key)
    requires Tearing(c, h, pend, s, k) && !h.fields[s][k].Ref?
    ensures TornDown(c, h, Erased(h, s, k), pend, s, k)
  {
    hide Intact, Contained, Evolved, UntouchedAbove, OriginOk, CountsOk;
    ErasePlain(h.fields, pend, s, k);
    EraseIntact(h, pend, s, k, pend);
    EraseContained(c, h, pend, s, k, pend);
    IntactSane(h, pend);
    EraseEvolved(h, s, k);
    EraseUntouched(h, s, k, c.rank);
  }

  lemma IntactSane(h: Heap, pend: set<Slot>)
    requires Intact(h, pend)
    ensures Sane(h) && Index(h.fields, pend, h.tracker)
  {
  }

  // ---------- decrementing ----------

  ghost function WithRecord(h: Heap, o: Id, p: Prec): Heap {
    h.(tracker := h.tracker[o := p])
  }

  /** The state between decrementing for slot (s, k) and erasing it: the slot is pending, and if the
      count reached zero the object is doomed, unlisted and about to be deleted. */
  ghost predicate Decreased(c: Origin, h: Heap, pend: set<Slot>, s: Id, k: Key, o: Id) {
    && Intact(h, pend + {(s, k)}) && OriginOk(c) && Contained(c, h, pend + {(s, k)})
    && Cleared(c, h.fields, pend + {(s, k)}) && PendAbove(pend + {(s, k)}, c.rank, o)
    && CountsOk(h.tracker - {o})
    && o in h.tracker && TablesOk(h.tracker[o]) && Slack(h.tracker[o]) >= 0
    && (h.tracker[o].refcount == 0 ==> o in c.doomed && Pairs(h.tracker[o]) == {})
    && c.rank(o) < c.rank(s)
  }

  lemma DecrementIntact(h: Heap, pend: set<Slot>, s: Id, k: Key, o: Id)
    requires Intact(h, pend) && CountsOk(h.tracker) && Holds(h.fields, pend, (s, k), o)
    ensures o in h.tracker && h.tracker[o].refcount > 0
    ensures var p := Decremented(h.tracker[o], k, s);
            && Intact(WithRecord(h, o, p), pend + {(s, k)}) && Evolved(h, WithRecord(h, o, p))
            && TablesOk(p) && Slack(p) == Slack(h.tracker[o]) >= 0 && p.refcount == h.tracker[o].refcount - 1
            && Pairs(p) == Pairs(h.tracker[o]) - {(s, k)}
            && CountsOk(h.tracker[o := p] - {o})
  {
    hide Index, Slack, Pairs, TablesOk, Decremented;
    IndexDecrement(h.fields, pend, h.tracker, s, k, o);
    var h' := WithRecord(h, o, Decremented(h.tracker[o], k, s));
    assert forall q: Id :: Live(h', q) <==> Live(h, q);
    forall x: Slot, q: Id | Holds(h'.fields, pend + {(s, k)}, x, q)
      ensures HasKind(h', q, h'.fields[x.0][x.1].kind)
    {
      assert Holds(h.fields, pend, x, q);
    }
  }

  lemma DecrementContained(c: Origin, h: Heap, pend: set<Slot>, s: Id, k: Key, o: Id, p: Prec)
    requires Contained(c, h, pend) && o in h.tracker && Slack(p) == Slack(h.tracker[o])
    requires s in c.doomed || (s, k) in c.pend
    ensures Contained(c, WithRecord(h, o, p), pend + {(s, k)})
  {
    hide Slack;
  }

  /** With no slot left in its index and no slack, the count is zero only for a doomed object. */
  lemma DecrementDooms(c: Origin, h: Heap, pend: set<Slot>, s: Id, k: Key, o: Id)
    requires Tearing(c, h, pend, s, k) && h.fields[s][k].Ref? && h.fields[s][k].id == o
    requires o in h.tracker && Pairs(h.tracker[o]) <= {(s, k)} && Slack(h.tracker[o]) == 0
    ensures o in c.doomed
  {
    hide Slack, Pairs, Sane, KindsOk, CountsOk;
    if s in c.doomed {
      forall z: Slot | Holds(h.fields, pend, z, o)
        ensures z == (s, k)
      {
        assert Lists(h.tracker, z, o);
      }
      ZeroIsDoomed(c, h, pend, (s, k), o);
    }
  }

  lemma AfterDecrement(c: Origin, h: Heap, pend: set<Slot>, s: Id, k: Key, o: Id)
    requires Tearing(c, h, pend, s, k) && h.fields[s][k].Ref? && h.fields[s][k].id == o
    ensures o in h.tracker && h.tracker[o].refcount > 0
    ensures var h' := WithRecord(h, o, Decremented(h.tracker[o], k, s));
            Decreased(c, h', pend, s, k, o) && Evolved(h, h')
  {
    hide Intact, Contained, Evolved, CountsOk, TablesOk, Decremented, Closed, Pairs;
    assert Holds(h.fields, pend, (s, k), o);
    DecrementIntact(h, pend, s, k, o);
    var p := Decremented(h.tracker[o], k, s);
    DecrementContained(c, h, pend, s, k, o, p);
    RankFalls(c, h, pend, s, k);
    if p.refcount == 0 {
      assert |Pairs(p)| == 0;
      DecrementDooms(c, h, pend, s, k, o);
    }
  }

  lemma RankFalls(c: Origin, h: Heap, pend: set<Slot>, s: Id, k: Key)
    requires OriginOk(c) && Contained(c, h, pend)
    requires s in h.fields && k in h.fields[s] && h.fields[s][k].Ref?
    ensures c.rank(h.fields[s][k].id) < c.rank(s)
  {
  }

  /** Erasing the slot completes its removal. */
  lemma AfterErase(c: Origin, h: Heap, h1: Heap, pend: set<Slot>, s: Id, k: Key, o: Id)
    requires s in h.fields && s in h1.fields && h1.fields[s] == h.fields[s]
    requires Underway(c, h1, pend + {(s, k)}) && Cleared(c, h1.fields, pend + {(s, k)})
    requires Evolved(h, h1) && UntouchedAbove(h, h1, c.rank, o, {}) && c.rank(o) < c.rank(s)
    requires s in c.doomed || (s, k) in c.pend
    ensures TornDown(c, h, Erased(h1, s, k), pend, s, k)
  {
    hide Intact, Contained, Evolved, OriginOk, CountsOk;
    ErasePending(h1.fields, pend, s, k);
    EraseIntact(h1, pend + {(s, k)}, s, k, pend);
    EraseContained(c, h1, pend + {(s, k)}, s, k, pend);
    IntactSane(h1, pend + {(s, k)});
    EraseEvolved(h1, s, k);
    EvolvedTrans(h, h1, Erased(h1, s, k));
  }

  // ---------- deleting a record ----------

  ghost function Untracked(h: Heap, o: Id): Heap {
    h.(tracker := h.tracker - {o})
  }

  /** What `prec_delete` may assume about the object it deletes. */
  ghost predicate Deletable(c: Origin, h: Heap, pend: set<Slot>, o: Id) {
    && o in h.tracker && o in c.doomed
    && Intact(h, pend) && CountsOk(h.tracker - {o}) && OriginOk(c) && Contained(c, h, pend)
    && Pairs(h.tracker[o]) <= c.pend && Cleared(c, h.fields, pend + Pairs(h.tracker[o]))
    && PendAbove(pend, c.rank, o)
  }

  /** What is left once every slot the record listed has been erased. */
  ghost function Unlisted(h: Heap, o: Id): Heap
    requires o in h.tracker
  {
    Untracked(h, o).(fields := WithoutAll(h.fields, Pairs(h.tracker[o])))
  }

  lemma UnlistedHolds(fields: Fields, pend: set<Slot>, gone: set<Slot>)
    ensures SameHolds(fields, pend + gone, WithoutAll(fields, gone), pend)
  {
  }

  lemma UnlistedIntact(h: Heap, pend: set<Slot>, o: Id)
    requires Intact(h, pend) && o in h.tracker
    ensures Intact(Unlisted(h, o), pend)
    ensures forall x: Slot :: !Holds(Unlisted(h, o).fields, pend, x, o)
  {
    hide Index, Pairs;
    var gone, h' := Pairs(h.tracker[o]), Unlisted(h, o);
    IndexUntrack(h.fields, pend, h.tracker, o);
    UnlistedHolds(h.fields, pend, gone);
    IndexSame(h.fields, pend + gone, h'.fields, pend, h'.tracker);
    forall x: Slot, q: Id | Holds(h'.fields, pend, x, q)
      ensures HasKind(h', q, h'.fields[x.0][x.1].kind) && q != o
    {
      assert Holds(h.fields, pend + gone, x, q);
      assert Holds(h.fields, pend, x, q);
    }
    assert forall q: Id :: Live(h', q) <==> Live(h, q);
  }

  lemma UnlistedContained(c: Origin, h: Heap, pend: set<Slot>, o: Id)
    requires Contained(c, h, pend) && o in h.tracker
    requires Pairs(h.tracker[o]) <= c.pend && Cleared(c, h.fields, pend + Pairs(h.tracker[o]))
    ensures Contained(c, Unlisted(h, o), pend) && Cleared(c, Unlisted(h, o).fields, pend)
  {
    hide Slack, Pairs;
  }

  lemma UnlistedEvolved(h: Heap, o: Id)
    requires Sane(h) && o in h.tracker
    ensures Evolved(Untracked(h, o), Unlisted(h, o))
  {
    hide Slack, Pairs;
    assert forall q: Id :: Live(Unlisted(h, o), q) <==> Live(h, q);
  }

  lemma AfterUnlisting(c: Origin, h: Heap, pend: set<Slot>, o: Id)
    requires Deletable(c, h, pend, o)
    ensures var h' := Unlisted(h, o);
            Underway(c, h', pend) && Cleared(c, h'.fields, pend) && Evolved(Untracked(h, o), h')
  {
    hide Intact, Contained, Evolved, OriginOk, CountsOk, Pairs;
    IntactSane(h, pend);
    UnlistedIntact(h, pend, o);
    UnlistedContained(c, h, pend, o);
    UnlistedEvolved(h, o);
  }

  lemma WithoutAllNothing(fields: Fields)
    ensures WithoutAll(fields, {}) == fields
  {
    forall s | s in fields
      ensures Without(fields[s], s, {}) == fields[s]
    {
    }
  }

  /** Erasing one listed slot more. */
  lemma WithoutOne(fields: Fields, gone: set<Slot>, s: Id, k: Key)
    requires s in fields
    ensures var f := WithoutAll(fields, gone);
            WithoutAll(fields, gone + {(s, k)}) == (if k in f[s] then f[s := f[s] - {k}] else f)
  {
    var f := WithoutAll(fields, gone);
    var f' := if k in f[s] then f[s := f[s] - {k}] else f;
    forall x | x in fields
      ensures Without(fields[x], x, gone + {(s, k)}) == f'[x]
    {
    }
  }

  /** An object gone from the tracker must be gone from memory for the tracker to have evolved. */
  lemma EvolvedUntracked(h: Heap, o: Id, h': Heap)
    requires Evolved(Untracked(h, o), h') && !Live(h', o)
    ensures Evolved(h, h')
  {
    hide Slack;
    assert forall q: Id :: Live(Untracked(h, o), q) <==> Live(h, q);
  }

  // ---------- releasing memory ----------

  ghost function StructGone(h: Heap, o: Id): Heap {
    h.(fields := h.fields - {o}, ids := h.ids - {o}, freed := h.freed + [o])
  }

  ghost function LeafGone(h: Heap, o: Id): Heap {
    h.(leaves := h.leaves - {o}, freed := h.freed + [o])
  }

  /** An object may be released when nothing tracks it, so that no slot that counts holds it. */
  ghost predicate Releasable(c: Origin, h: Heap, pend: set<Slot>, o: Id) {
    Underway(c, h, pend) && Cleared(c, h.fields, pend) && o !in h.tracker && o in c.doomed
  }

  lemma FreedAppend(freed: seq<Id>, o: Id)
    requires NoRepeats(freed) && o !in freed
    ensures NoRepeats(freed + [o])
  {
    var f' := freed + [o];
    assert forall i :: 0 <= i < |freed| ==> f'[i] in freed;
  }

  lemma StructGoneIntact(h: Heap, pend: set<Slot>, o: Id)
    requires Intact(h, pend) && o in h.fields && h.fields[o] == map[] && o !in h.tracker
    ensures Intact(StructGone(h, o), pend) && Evolved(h, StructGone(h, o)) && !Live(StructGone(h, o), o)
  {
    hide Index, Slack, NoRepeats;
    var h' := StructGone(h, o);
    EraseEmpty(h.fields, pend, o);
    IndexSame(h.fields, pend, h'.fields, pend, h.tracker);
    FreedAppend(h.freed, o);
    assert forall q: Id :: Live(h', q) <==> Live(h, q) && q != o;
    forall x: Slot, q: Id | Holds(h'.fields, pend, x, q)
      ensures HasKind(h', q, h'.fields[x.0][x.1].kind)
    {
      assert Holds(h.fields, pend, x, q);
      HeldIsTracked(h, pend, x, q);
    }
  }

  lemma HeldIsTracked(h: Heap, pend: set<Slot>, x: Slot, o: Id)
    requires Index(h.fields, pend, h.tracker) && Holds(h.fields, pend, x, o)
    ensures o in h.tracker && x in Pairs(h.tracker[o])
  {
    assert Lists(h.tracker, x, o);
  }

  lemma LeafGoneIntact(h: Heap, pend: set<Slot>, o: Id)
    requires Intact(h, pend) && o in h.leaves && o !in h.tracker
    ensures Intact(LeafGone(h, o), pend) && Evolved(h, LeafGone(h, o)) && !Live(LeafGone(h, o), o)
  {
    hide Index, Slack, NoRepeats;
    var h' := LeafGone(h, o);
    FreedAppend(h.freed, o);
    assert forall q: Id :: Live(h', q) <==> Live(h, q) && q != o;
    forall x: Slot, q: Id | Holds(h'.fields, pend, x, q)
      ensures HasKind(h', q, h'.fields[x.0][x.1].kind)
    {
      assert Holds(h.fields, pend, x, q);
      HeldIsTracked(h, pend, x, q);
    }
  }

  lemma StructReleased(c: Origin, h: Heap, pend: set<Slot>, o: Id)
    requires Releasable(c, h, pend, o) && o in h.fields && h.fields[o] == map[]
    ensures var h' := StructGone(h, o);
            Underway(c, h', pend) && Cleared(c, h'.fields, pend) && Evolved(h, h') && !Live(h', o)
  {
    hide Intact, Evolved, Slack;
    StructGoneIntact(h, pend, o);
  }

  lemma LeafReleased(c: Origin, h: Heap, pend: set<Slot>, o: Id)
    requires Releasable(c, h, pend, o) && o in h.leaves
    ensures var h' := LeafGone(h, o);
            Underway(c, h', pend) && Cleared(c, h'.fields, pend) && Evolved(h, h') && !Live(h', o)
  {
    hide Intact, Evolved, Slack;
    LeafGoneIntact(h, pend, o);
  }

  // ---------- putting the moves together ----------

  lemma KeepsContainer(h: Heap, h': Heap, rank: Id -> nat, o: Id, s: Id)
    requires UntouchedAbove(h, h', rank, o, {}) && rank(o) < rank(s) && s in h.fields
    ensures s in h'.fields && h'.fields[s] == h.fields[s]
  {
    WithoutNothing(h.fields[s], s);
  }

  lemma UntouchedRefl(h: Heap, h': Heap, rank: Id -> nat, o: Id)
    requires h'.fields == h.fields
    ensures UntouchedAbove(h, h', rank, o, {})
  {
  }

  lemma UntouchedTrans(a: Heap, b: Heap, c: Heap, rank: Id -> nat, o: Id, gone: set<Slot>)
    requires UntouchedAbove(a, b, rank, o, gone) && UntouchedAbove(b, c, rank, o, {})
    ensures UntouchedAbove(a, c, rank, o, gone)
  {
    forall x | x in a.fields && rank(x) >= rank(o) && x != o
      ensures x in c.fields && c.fields[x] == Without(a.fields[x], x, gone)
    {
      WithoutNothing(b.fields[x], x);
    }
  }

  lemma UnlistedUntouched(h: Heap, o: Id, rank: Id -> nat)
    requires o in h.tracker
    ensures UntouchedAbove(h, Unlisted(h, o), rank, o, Pairs(h.tracker[o]))
  {
  }

  lemma StructGoneUntouched(h: Heap, o: Id, rank: Id -> nat)
    ensures UntouchedAbove(h, StructGone(h, o), rank, o, {}) && UntouchedAbove(h, LeafGone(h, o), rank, o, {})
  {
  }

  /** A count still positive leaves the free going on as before. */
  lemma StillCounted(c: Origin, h: Heap, pend: set<Slot>, s: Id, k: Key, o: Id)
    requires Decreased(c, h, pend, s, k, o) && h.tracker[o].refcount > 0
    ensures Underway(c, h, pend + {(s, k)})
  {
    hide Intact, Contained, Cleared, OriginOk, TablesOk, Slack;
    forall q: Id | q in h.tracker
      ensures TablesOk(h.tracker[q]) && Slack(h.tracker[q]) >= 0 && h.tracker[q].refcount > 0
    {
      if q != o {
        assert q in h.tracker - {o} && (h.tracker - {o})[q] == h.tracker[q];
      }
    }
  }

  lemma ZeroDeletable(c: Origin, h: Heap, pend: set<Slot>, s: Id, k: Key, o: Id)
    requires Decreased(c, h, pend, s, k, o) && h.tracker[o].refcount == 0
    ensures Deletable(c, h, pend + {(s, k)}, o) && Pairs(h.tracker[o]) == {}
  {
    hide Intact, Contained, OriginOk, TablesOk, Slack, CountsOk;
    assert pend + {(s, k)} + Pairs(h.tracker[o]) == pend + {(s, k)};
  }

  /** A slot listed for an object being deleted can be erased without touching any record. */
  lemma ListedQuiet(c: Origin, h: Heap, pend: set<Slot>, o: Id, s: Id, k: Key, done: set<Slot>)
    requires Deletable(c, h, pend, o) && (s, k) in Pairs(h.tracker[o])
    ensures s in h.fields
    ensures Quiet(Untracked(h, o).(fields := WithoutAll(h.fields, done)), s, k)
  {
    hide Pairs, Contained, Cleared, OriginOk, CountsOk;
    assert Lists(h.tracker, (s, k), o);
    assert Holds(h.fields, pend, (s, k), o);
  }

  lemma TearReady(c: Origin, h: Heap, pend: set<Slot>, o: Id, k: Key)
    requires Releasable(c, h, pend, o) && o in h.fields && k in h.fields[o] && PendAbove(pend, c.rank, o)
    ensures Tearing(c, h, pend, o, k)
  {
    hide Underway;
  }

  lemma StillReleasable(c: Origin, h: Heap, h': Heap, pend: set<Slot>, o: Id, k: Key)
    requires Releasable(c, h, pend, o) && TornDown(c, h, h', pend, o, k)
    ensures Releasable(c, h', pend, o)
  {
    hide Underway, Slack, Cleared;
  }
}
