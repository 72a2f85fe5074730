/** What a struct holds, directly and through others, and when freeing it frees all of that. */
module Content {
  import opened Wrappers
  import opened Graph
  import opened Cascade
  import opened Ownership

  ghost predicate HeldFrom(fields: Fields, s: Id, k: Key, o: Id) {
    s in fields && k in fields[s] && fields[s][k].Ref? && fields[s][k].id == o
  }

  ghost function HeldBy(fields: Fields, y: set<Id>): set<Id> {
    set s, k | s in y && s in fields && k in fields[s] && fields[s][k].Ref? :: fields[s][k].id
  }

  lemma InHeldBy(fields: Fields, y: set<Id>, o: Id)
    ensures o in HeldBy(fields, y) <==> exists s, k :: s in y && HeldFrom(fields, s, k, o)
  {
    if o in HeldBy(fields, y) {
      var s, k :| s in y && s in fields && k in fields[s] && fields[s][k].Ref? && o == fields[s][k].id;
      assert HeldFrom(fields, s, k, o);
    }
  }

  /** The set holds everything its members hold. */
  ghost predicate HoldsAll(fields: Fields, z: set<Id>) {
    forall s, k, o :: s in z && HeldFrom(fields, s, k, o) ==> o in z
  }

  /** The objects reachable from `y`. */
  ghost function Reached(fields: Fields, y: set<Id>): set<Id>
    decreases |HeldBy(fields, fields.Keys) - y|
  {
    var y' := y + HeldBy(fields, y);
    if y' == y then y
    else
      ReachShrinksRest(fields, y);
      Reached(fields, y')
  }

  lemma ReachShrinksRest(fields: Fields, y: set<Id>)
    requires y + HeldBy(fields, y) != y
    ensures |HeldBy(fields, fields.Keys) - (y + HeldBy(fields, y))| < |HeldBy(fields, fields.Keys) - y|
  {
    hide HeldBy;
    var all, y' := HeldBy(fields, fields.Keys), y + HeldBy(fields, y);
    var o :| o in y' && o !in y;
    InHeldBy(fields, y, o);
    InHeldBy(fields, fields.Keys, o);
    assert (all - y') + {o} <= all - y;
    SubsetSize((all - y') + {o}, all - y);
  }

  lemma {:induction false} ReachedHoldsAll(fields: Fields, y: set<Id>)
    ensures y <= Reached(fields, y) && HoldsAll(fields, Reached(fields, y))
    decreases |HeldBy(fields, fields.Keys) - y|
  {
    hide HeldBy;
    var y' := y + HeldBy(fields, y);
    if y' != y {
      ReachShrinksRest(fields, y);
      ReachedHoldsAll(fields, y');
    } else {
      forall s, k, o | s in y && HeldFrom(fields, s, k, o)
        ensures o in y
      {
        InHeldBy(fields, y, o);
      }
    }
  }

  lemma {:induction false} ReachedLeast(fields: Fields, y: set<Id>, z: set<Id>)
    requires y <= z && HoldsAll(fields, z)
    ensures Reached(fields, y) <= z
    decreases |HeldBy(fields, fields.Keys) - y|
  {
    hide HeldBy;
    var y' := y + HeldBy(fields, y);
    if y' != y {
      ReachShrinksRest(fields, y);
      forall o | o in HeldBy(fields, y)
        ensures o in z
      {
        InHeldBy(fields, y, o);
      }
      ReachedLeast(fields, y', z);
    }
  }

  /** What is reached without being a start is held by something reached. */
  lemma ReachedIsHeld(fields: Fields, y: set<Id>, o: Id) returns (x: Slot)
    requires o in Reached(fields, y) && o !in y
    ensures x.0 in Reached(fields, y) && HeldFrom(fields, x.0, x.1, o)
  {
    hide Reached;
    var r := Reached(fields, y);
    ReachedHoldsAll(fields, y);
    if forall s, k :: s in r ==> !HeldFrom(fields, s, k, o) {
      ReachedLeast(fields, y, r - {o});
      assert false;
    }
    var s, k :| s in r && HeldFrom(fields, s, k, o);
    x := (s, k);
  }

  /** Nothing reached outranks the start. */
  lemma ReachedBelow(fields: Fields, p: Id, rank: Id -> nat)
    requires Ranked(fields, rank)
    ensures forall o :: o in Reached(fields, {p}) ==> rank(o) <= rank(p)
  {
    hide Reached;
    ReachedHoldsAll(fields, {p});
    ReachedLeast(fields, {p}, set o | o in Reached(fields, {p}) && rank(o) <= rank(p));
  }

  /** Every object reached from `p`, but `p`, is counted by its slots alone, and all of these are in
      structs reached from `p`. */
  ghost predicate OwnsContent(h: Heap, p: Id) {
    forall o: Id :: o in Reached(h.fields, {p}) && o != p ==>
      o in Loose(h.tracker) && forall x: Slot :: Holds(h.fields, {}, x, o) ==> x.0 in Reached(h.fields, {p})
  }

  /** Slots that hold other objects count whether or not those of `p` are erased. */
  lemma ListedHolds(h: Heap, p: Id, x: Slot, o: Id)
    requires ValidHeap(h) && o != p
    ensures Holds(h.fields, Listed(h, p), x, o) <==> Holds(h.fields, {}, x, o)
  {
    if x in Listed(h, p) {
      IndexIsExact(h, x, p);
    }
  }

  lemma {:induction false} OwnedIsVictim(h: Heap, p: Id, rank: Id -> nat, o: Id)
    requires ValidHeap(h) && Ranked(h.fields, rank) && OwnsContent(h, p) && o in Reached(h.fields, {p})
    ensures o in Victims(h, Listed(h, p), {p})
    decreases rank(p) - rank(o)
  {
    hide ValidHeap, Reached, Loose, Listed, Doomed;
    DoomedClosed(h.fields, Listed(h, p), Loose(h.tracker), {p});
    ReachedBelow(h.fields, p, rank);
    if o != p {
      var x := ReachedIsHeld(h.fields, {p}, o);
      ListedHolds(h, p, x, o);
      forall z: Slot | Holds(h.fields, Listed(h, p), z, o)
        ensures z.0 in Victims(h, Listed(h, p), {p})
      {
        ListedHolds(h, p, z, o);
        OwnedIsVictim(h, p, rank, z.0);
      }
      assert OnlyHeldBy(h.fields, Listed(h, p), o, Victims(h, Listed(h, p), {p}));
    }
  }

  /** Victims are reached from the start. */
  lemma VictimsAreReached(h: Heap, p: Id)
    ensures Victims(h, Listed(h, p), {p}) <= Reached(h.fields, {p})
  {
    hide Reached, Loose, Listed;
    var r := Reached(h.fields, {p});
    ReachedHoldsAll(h.fields, {p});
    forall o: Id | o in Loose(h.tracker) && OnlyHeldBy(h.fields, Listed(h, p), o, r)
      ensures o in r
    {
      var x: Slot :| Holds(h.fields, Listed(h, p), x, o);
      assert HeldFrom(h.fields, x.0, x.1, o);
    }
    DoomedLeast(h.fields, Listed(h, p), Loose(h.tracker), {p}, r);
  }

  /** Freeing a struct frees all its content exactly when it owns all its content. */
  lemma AllContentFreedIff(h: Heap, p: Id)
    requires ValidHeap(h)
    ensures Reached(h.fields, {p}) <= Victims(h, Listed(h, p), {p}) <==> OwnsContent(h, p)
  {
    hide Reached, Loose, Listed, Doomed, ValidHeap;
    var r, v := Reached(h.fields, {p}), Victims(h, Listed(h, p), {p});
    if OwnsContent(h, p) {
      RanksOf(h);
      var rank: Id -> nat :| Ranked(h.fields, rank);
      forall o | o in r
        ensures o in v
      {
        OwnedIsVictim(h, p, rank, o);
      }
    }
    if r <= v {
      VictimsAreReached(h, p);
      forall o: Id | o in r && o != p
        ensures o in Loose(h.tracker) && forall x: Slot :: Holds(h.fields, {}, x, o) ==> x.0 in r
      {
        DoomedReason(h.fields, Listed(h, p), Loose(h.tracker), {p}, o);
        forall x: Slot | Holds(h.fields, {}, x, o)
          ensures x.0 in r
        {
          ListedHolds(h, p, x, o);
        }
      }
    }
  }

  lemma RanksOf(h: Heap)
    requires ValidHeap(h)
    ensures exists rank: Id -> nat :: Ranked(h.fields, rank)
  {
  }
}
