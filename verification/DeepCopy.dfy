/** `rpc_struct_deep_copy`: a copy that shares no tracked object with the original but has the same
    sharing inside each struct. */
module DeepCopy {
  import opened Wrappers
  import opened Graph
  import opened Cascade
  import opened Ownership
  import opened Trees
  import opened World
  import opened Building

  /** Slots copied so far name the copies the duplicate tracker lists. */
  ghost predicate Mirrors(e: Elem, e': Elem, copies: map<Id, Id>) {
    if e.Ref? then e.id in copies && e' == Ref(e.kind, copies[e.id]) else e' == e
  }

  /** The duplicate tracker: distinct later objects, one per object already copied. */
  ghost predicate CopiesOk(h: Heap, c: Id, m: map<Key, Elem>, copies: map<Id, Id>) {
    && (forall o :: o in copies ==> c < copies[o] < h.next)
    && (forall o, o' :: o in copies && o' in copies && copies[o] == copies[o'] ==> o == o')
    && (forall o :: o in copies ==> exists k :: k in m && c in h.fields && k in h.fields[c] && m[k].Ref? && m[k].id == o)
  }

  /** The copy `c` of struct `s`, unfolding to `t`, with the keys `rest` still to do. */
  ghost predicate Partial(h0: Heap, h: Heap, s: Id, c: Id, t: Tree, rest: set<Key>, copies: map<Id, Id>) {
    && ValidHeap(h0) && ValidHeap(h) && Above(h0, h)
    && c == h0.next && c in h.fields && s in h0.fields
    && t.TStruct? && Unfolds(h0, Ref(StructKind, s), t)
    && c in h.ids && h.ids[c] == t.id
    && rest <= t.members.Keys && h.fields[c].Keys == t.members.Keys - rest
    && (forall k :: k in h.fields[c] ==> Mirrors(h0.fields[s][k], h.fields[c][k], copies))
    && (forall k :: k in h.fields[c] ==> UnfoldsFrom(c + 1, h, h.fields[c][k], t.members[k]))
    && CopiesOk(h, c, h0.fields[s], copies)
  }

  /** Copies that mirror the original one for one have the original's aliases. */
  lemma MirrorAliases(m: map<Key, Elem>, m': map<Key, Elem>, copies: map<Id, Id>)
    requires m'.Keys == m.Keys
    requires forall k :: k in m ==> Mirrors(m[k], m'[k], copies)
    requires forall o, o' :: o in copies && o' in copies && copies[o] == copies[o'] ==> o == o'
    ensures Aliases(m') == Aliases(m)
  {
    forall a, b
      ensures (a, b) in Aliases(m') <==> (a, b) in Aliases(m)
    {
      if a in m && b in m {
        assert Mirrors(m[a], m'[a], copies) && Mirrors(m[b], m'[b], copies);
      }
    }
  }

  /** An object built above the copy leaves the work done so far as it is. */
  lemma PartialFrame(h0: Heap, h: Heap, h': Heap, s: Id, c: Id, t: Tree, rest: set<Key>, copies: map<Id, Id>)
    requires Partial(h0, h, s, c, t, rest, copies) && ValidHeap(h') && Above(h, h')
    ensures Partial(h0, h', s, c, t, rest, copies)
  {
    hide ValidHeap, Above, Unfolds, Mirrors;
    AboveTrans(h0, h, h');
    AboveAgrees(0, h, h');
    AboveAgrees(c + 1, h, h');
    AboveNext(h, h');
    forall k | k in h'.fields[c]
      ensures UnfoldsFrom(c + 1, h', h'.fields[c][k], t.members[k])
    {
      UnfoldsFrame(c + 1, h, h', h.fields[c][k], t.members[k]);
    }
  }

  lemma AboveNext(h: Heap, h': Heap)
    requires Above(h, h')
    ensures h.next <= h'.next
  {
  }

  /** A member seen before: the copy made then unfolds as this one must. */
  lemma RepeatedMember(h0: Heap, h: Heap, s: Id, c: Id, t: Tree, rest: set<Key>, copies: map<Id, Id>, k: Key)
    requires Partial(h0, h, s, c, t, rest, copies) && k in rest
    requires k in h0.fields[s] && h0.fields[s][k].Ref? && h0.fields[s][k].id in copies
    ensures var e' := Ref(h0.fields[s][k].kind, copies[h0.fields[s][k].id]);
            Fits(h, e') && UnfoldsFrom(c + 1, h, e', t.members[k])
  {
    hide ValidHeap, Above, UnfoldsFrom;
    var m := h0.fields[s];
    var k' :| k' in m && k' in h.fields[c] && m[k'].Ref? && m[k'].id == m[k].id;
    SlotFits(h0, s, k);
    SlotFits(h0, s, k');
    OneKind(h0, m[k], m[k']);
    MemberUnfolds(h0, s, t, k);
    MemberUnfolds(h0, s, t, k');
    UnfoldsUnique(h0, m[k], t.members[k], t.members[k']);
    SlotFits(h, c, k');
    assert Mirrors(m[k'], h.fields[c][k'], copies);
  }

  lemma OneKind(h: Heap, e: Elem, e': Elem)
    requires ValidHeap(h) && Fits(h, e) && Fits(h, e') && e.Ref? && e'.Ref? && e.id == e'.id
    ensures e == e'
  {
    IntactSane(h, {});
    assert h.fields.Keys !! h.leaves.Keys;
  }

  lemma MemberUnfolds(h: Heap, s: Id, t: Tree, k: Key)
    requires Unfolds(h, Ref(StructKind, s), t) && t.TStruct? && k in t.members
    ensures s in h.fields && t.members.Keys == h.fields[s].Keys
    ensures Unfolds(h, h.fields[s][k], t.members[k])
  {
  }

  /** Attaching the copy of one member more. */
  lemma AttachPartial(h0: Heap, h: Heap, s: Id, c: Id, t: Tree, rest: set<Key>, copies: map<Id, Id>,
                      k: Key, e': Elem, copies': map<Id, Id>, h': Heap)
    requires Partial(h0, h, s, c, t, rest, copies) && k in rest && k in h0.fields[s]
    requires ValidHeap(h') && Above(h0, h')
    requires h' == h.(fields := h.fields[c := h.fields[c][k := e']], tracker := h'.tracker)
    requires UnfoldsFrom(c + 1, h, e', t.members[k]) && Mirrors(h0.fields[s][k], e', copies')
    requires if h0.fields[s][k].Ref? && h0.fields[s][k].id !in copies
             then e'.Ref? && copies' == copies[h0.fields[s][k].id := e'.id] && c < e'.id < h.next
                  && (forall o :: o in copies ==> copies[o] != e'.id)
             else copies' == copies
    ensures Partial(h0, h', s, c, t, rest - {k}, copies')
  {
    hide ValidHeap, Above, Unfolds, UnfoldsFrom, Mirrors, CopiesOk;
    MemberUnfolds(h0, s, t, k);
    assert h'.fields[c] == h.fields[c][k := e'];
    assert h'.fields[c].Keys == t.members.Keys - (rest - {k}) by {
      OneKeyLess(t.members.Keys, rest, k);
    }
    AttachUnfolds(h, c, t, k, e', h');
    AttachMirrors(h0.fields[s], h.fields[c], copies, k, e', copies');
    AttachCopies(h, h', c, h0.fields[s], copies, k, e', copies');
  }

  lemma OneKeyLess(all: set<Key>, rest: set<Key>, k: Key)
    requires rest <= all && k in rest
    ensures all - rest + {k} == all - (rest - {k}) && rest - {k} <= all
  {
  }

  lemma AttachUnfolds(h: Heap, c: Id, t: Tree, k: Key, e': Elem, h': Heap)
    requires c in h.fields && t.TStruct? && k in t.members && h.fields[c].Keys <= t.members.Keys
    requires h' == h.(fields := h.fields[c := h.fields[c][k := e']], tracker := h'.tracker)
    requires forall j :: j in h.fields[c] ==> UnfoldsFrom(c + 1, h, h.fields[c][j], t.members[j])
    requires UnfoldsFrom(c + 1, h, e', t.members[k])
    ensures forall j :: j in h'.fields[c] ==> UnfoldsFrom(c + 1, h', h'.fields[c][j], t.members[j])
  {
    hide UnfoldsFrom;
    assert Agrees(c + 1, h, h');
    forall j | j in h'.fields[c]
      ensures UnfoldsFrom(c + 1, h', h'.fields[c][j], t.members[j])
    {
      UnfoldsFrame(c + 1, h, h', h'.fields[c][j], t.members[j]);
    }
  }

  lemma AttachMirrors(m: map<Key, Elem>, m': map<Key, Elem>, copies: map<Id, Id>, k: Key, e': Elem, copies': map<Id, Id>)
    requires m'.Keys <= m.Keys && k in m
    requires forall j :: j in m' ==> Mirrors(m[j], m'[j], copies)
    requires forall o :: o in copies ==> o in copies' && copies'[o] == copies[o]
    requires Mirrors(m[k], e', copies')
    ensures forall j :: j in m'[k := e'] ==> Mirrors(m[j], m'[k := e'][j], copies')
  {
    forall j | j in m'[k := e']
      ensures Mirrors(m[j], m'[k := e'][j], copies')
    {
      if j != k {
        assert Mirrors(m[j], m'[j], copies);
      }
    }
  }

  lemma AttachCopies(h: Heap, h': Heap, c: Id, m: map<Key, Elem>, copies: map<Id, Id>, k: Key, e': Elem, copies': map<Id, Id>)
    requires CopiesOk(h, c, m, copies) && c in h.fields && k in m
    requires h'.fields == h.fields[c := h.fields[c][k := e']] && h'.next == h.next
    requires if m[k].Ref? && m[k].id !in copies
             then e'.Ref? && copies' == copies[m[k].id := e'.id] && c < e'.id < h.next
                  && (forall o :: o in copies ==> copies[o] != e'.id)
             else copies' == copies
    ensures CopiesOk(h', c, m, copies')
  {
    forall o | o in copies'
      ensures exists j :: j in m && c in h'.fields && j in h'.fields[c] && m[j].Ref? && m[j].id == o
    {
      if o in copies {
        var j :| j in m && c in h.fields && j in h.fields[c] && m[j].Ref? && m[j].id == o;
        assert j in h'.fields[c];
      } else {
        assert k in h'.fields[c] && m[k].id == o;
      }
    }
  }

  lemma BelowNextStruct(h: Heap, c: Id)
    requires ValidHeap(h) && c in h.fields
    ensures c < h.next
  {
    IntactSane(h, {});
    assert Live(h, c);
  }

  lemma OneCopyEach(h: Heap, c: Id, m: map<Key, Elem>, copies: map<Id, Id>)
    requires CopiesOk(h, c, m, copies)
    ensures forall o, o' :: o in copies && o' in copies && copies[o] == copies[o'] ==> o == o'
  {
  }

  /** A struct unfolds to a tree if its ID, keys, aliases and members do. */
  lemma FoldsUp(low: Id, h: Heap, c: Id, t: Tree)
    requires t.TStruct? && low <= c && c in h.fields && c in h.ids && h.ids[c] == t.id
    requires h.fields[c].Keys == t.members.Keys && Aliases(h.fields[c]) == t.aliases
    requires forall k :: k in t.members ==> UnfoldsFrom(low, h, h.fields[c][k], t.members[k])
    ensures UnfoldsFrom(low, h, Ref(StructKind, c), t)
  {
    hide Aliases;
  }

  lemma PartialDone(h0: Heap, h: Heap, s: Id, c: Id, t: Tree, copies: map<Id, Id>)
    requires Partial(h0, h, s, c, t, {}, copies)
    ensures ValidHeap(h) && Above(h0, h) && c in h.fields && c < h.next
    ensures UnfoldsFrom(c, h, Ref(StructKind, c), t)
  {
    hide ValidHeap, Above, Mirrors, CopiesOk, Unfolds, UnfoldsFrom, Aliases;
    BelowNextStruct(h, c);
    UnfoldsAtZero(h0, s, t);
    RootOf(0, h0, s, t);
    OneCopyEach(h, c, h0.fields[s], copies);
    MirrorAliases(h0.fields[s], h.fields[c], copies);
    forall k | k in t.members
      ensures UnfoldsFrom(c, h, h.fields[c][k], t.members[k])
    {
      UnfoldsLower(c + 1, c, h, h.fields[c][k], t.members[k]);
    }
    FoldsUp(c, h, c, t);
  }

  lemma UnfoldsAtZero(h: Heap, s: Id, t: Tree)
    requires Unfolds(h, Ref(StructKind, s), t)
    ensures UnfoldsFrom(0, h, Ref(StructKind, s), t)
  {
    hide UnfoldsFrom;
  }

  lemma PartialStarts(h0: Heap, s: Id, t: Tree, h: Heap)
    requires ValidHeap(h0) && s in h0.fields && Unfolds(h0, Ref(StructKind, s), t) && s in h0.ids
    requires h == WithStruct(h0, h0.ids[s]) && |h0.ids[s]| == ID_LENGTH
    ensures t.TStruct? && Partial(h0, h, s, h0.next, t, t.members.Keys, map[])
    ensures s in h.fields && h.fields[s].Keys == t.members.Keys
  {
    StructsHaveIds(h0);
    AboveStruct(h0, h0.ids[s]);
  }

  lemma UnfoldsInLater(h: Heap, h': Heap, e: Elem, t: Tree)
    requires Unfolds(h, e, t) && Agrees(0, h, h')
    ensures Unfolds(h', e, t)
  {
    UnfoldsFrame(0, h, h', e, t);
  }

  /** What the loop knows when it turns to key `k`. */
  lemma PartialFacts(h0: Heap, h: Heap, s: Id, c: Id, t: Tree, rest: set<Key>, copies: map<Id, Id>, k: Key)
    requires Partial(h0, h, s, c, t, rest, copies) && k in rest
    ensures s in h.fields && k in h.fields[s] && k in h0.fields[s] && h.fields[s][k] == h0.fields[s][k]
    ensures ValidHeap(h) && Above(h0, h) && c == h0.next && c in h.fields && k !in h.fields[c] && c < h.next
    ensures t.TStruct? && k in t.members && Unfolds(h0, h0.fields[s][k], t.members[k])
    ensures Unfolds(h, h0.fields[s][k], t.members[k])
    ensures Fits(h, h0.fields[s][k])
    ensures forall o :: o in copies ==> c < copies[o] < h.next
  {
    hide Unfolds;
    AboveAgrees(0, h0, h);
    MemberUnfolds(h0, s, t, k);
    UnfoldsInLater(h0, h, h0.fields[s][k], t.members[k]);
    SlotFits(h, s, k);
    IntactSane(h, {});
    assert Live(h, c);
  }

  /** The copies made from `low` on: the first slot that holds one counts once, every further one twice. */
  ghost predicate CountedOddly(low: Id, h: Heap) {
    forall o: Id :: o in h.tracker && o >= low ==> h.tracker[o].refcount == 2 * |Pairs(h.tracker[o])| - 1
  }

  lemma OddlyAbove(low: Id, h: Heap, h': Heap)
    requires Above(h, h') && CountedOddly(low, h) && CountedOddly(h.next, h')
    ensures CountedOddly(low, h')
  {
    hide Pairs, Upward;
    forall o: Id | o in h'.tracker && o >= low
      ensures h'.tracker[o].refcount == 2 * |Pairs(h'.tracker[o])| - 1
    {
      if o < h.next {
        assert o in h.tracker && SameRecord(h.tracker[o], h'.tracker[o]);
      }
    }
  }

  lemma NoneTracked(h: Heap)
    requires ValidHeap(h)
    ensures CountedOddly(h.next, h)
  {
    IntactSane(h, {});
    assert forall o: Id :: o in h.tracker ==> Live(h, o);
  }

  lemma OneMoreSlot(p: Prec, k: Key, s: Id, twice: bool)
    requires TablesOk(p) && (s, k) !in Pairs(p)
    requires if twice then p.refcount == 2 * |Pairs(p)| - 1 else p == Prec(0, map[])
    ensures TablesOk(Incremented(p, k, s))
    ensures var p' := if twice then Incremented(Incremented(p, k, s), k, s) else Incremented(p, k, s);
            p'.refcount == 2 * |Pairs(p')| - 1
  {
    hide Pairs, TablesOk, Incremented;
    NewRecord();
    var p1 := Incremented(p, k, s);
    IncrementPairs(p, k, s);
    RefcountUp(p, k, s);
    IncrementPairs(p1, k, s);
    RefcountUp(p1, k, s);
    assert Pairs(p1) + {(s, k)} == Pairs(p1);
  }

  lemma AttachOddly(low: Id, h: Heap, c: Id, k: Key, e: Elem)
    requires ValidHeap(h) && c in h.fields && k !in h.fields[c] && CountedOddly(low, h) && (e.Ref? ==> e.id >= low)
    requires AllTablesOk(h.tracker) && AllTablesOk(Counted(h.tracker, c, k, e))
    ensures CountedOddly(low, AfterAttach(h, c, k, e))
  {
    hide ValidHeap, Pairs, TablesOk, Incremented;
    CountedElsewhere(h, c, k, e);
    if e.Ref? {
      var o := e.id;
      IndexIsExact(h, (c, k), o);
      NewRecord();
      assert (c, k) !in Pairs(RecordOf(h.tracker, o));
      OneMoreSlot(RecordOf(h.tracker, o), k, c, o in h.tracker);
    }
  }

  /** The copies of leaves: `rpc_sizedbuf_copy` and `rpc_function_copy` duplicate the payload. */
  method CopyLeaf(w: World, o: Id, ghost t: Tree) returns (n: Id)
    requires w.Valid() && o in w.leaves
    requires UnfoldsFrom(0, w.Snap(), Ref(if w.leaves[o].Buf? then BufKind else FunKind, o), t)
    modifies w
    ensures w.Valid() && Above(old(w.Snap()), w.Snap()) && n == old(w.next) && n < w.next
    ensures n in w.leaves && w.leaves[n] == old(w.leaves)[o]
    ensures UnfoldsFrom(n, w.Snap(), Ref(if old(w.leaves)[o].Buf? then BufKind else FunKind, n), t)
    ensures w.tracker == old(w.tracker)
  {
    hide ValidHeap, Above;
    AboveLeaf(w.Snap(), w.leaves[o]);
    n := w.CreateLeaf(w.leaves[o]);
  }

  /** Counts the copied member once if it already has a record, then sets it, which counts it again. */
  method Attach(w: World, c: Id, k: Key, copy: Elem, ghost h0: Heap, ghost s: Id, ghost t: Tree, ghost rest: set<Key>,
                ghost copies: map<Id, Id>, ghost copies': map<Id, Id>)
    requires Partial(h0, w.Snap(), s, c, t, rest, copies) && k in rest && k in h0.fields[s]
    requires UnfoldsFrom(c + 1, w.Snap(), copy, t.members[k]) && Mirrors(h0.fields[s][k], copy, copies')
    requires Fits(w.Snap(), copy) && (copy.Ref? ==> copy.id > c)
    requires if h0.fields[s][k].Ref? && h0.fields[s][k].id !in copies
             then copy.Ref? && copies' == copies[h0.fields[s][k].id := copy.id] && c < copy.id < w.next
                  && (forall o :: o in copies ==> copies[o] != copy.id)
             else copies' == copies
    requires CountedOddly(h0.next, w.Snap())
    modifies w`fields, w`tracker
    ensures Partial(h0, w.Snap(), s, c, t, rest - {k}, copies') && CountedOddly(h0.next, w.Snap())
  {
    hide ValidHeap, Above, UnfoldsFrom, Unfolds, Partial, Mirrors, Counted, AllTablesOk, Incremented, Fits, CountedOddly;
    ghost var h := w.Snap();
    PartialFacts(h0, h, s, c, t, rest, copies, k);
    AttachValid(h0, h, c, k, copy);
    AttachOddly(h0.next, h, c, k, copy);
    if copy.Ref? && copy.id in w.tracker {
      w.tracker := Counted(w.tracker, c, k, copy);
    }
    var _ := w.SetInternal(c, k, Some(copy));
    CountedElsewhere(h, c, k, copy);
    AttachAbove(h0, h, c, k, copy, w.Snap());
    AttachPartial(h0, h, s, c, t, rest, copies, k, copy, copies', w.Snap());
  }

  /** Counting a reference touches the record of the object referred to and no other. */
  lemma CountedElsewhere(h: Heap, c: Id, k: Key, e: Elem)
    requires c in h.fields && AllTablesOk(h.tracker) && AllTablesOk(Counted(h.tracker, c, k, e))
    ensures var t' := AfterAttach(h, c, k, e).tracker;
            forall o: Id :: (e.Ref? ==> o != e.id) ==>
              (o in t' <==> o in h.tracker) && (o in h.tracker ==> t'[o] == h.tracker[o])
  {
    hide Incremented, AllTablesOk;
  }

  lemma SameTracker(low: Id, h: Heap, h': Heap)
    requires h'.tracker == h.tracker && CountedOddly(low, h)
    ensures CountedOddly(low, h')
  {
  }

  /** `rpc_struct_deep_copy` of a struct that unfolds to `t`. */
  method DeepCopy(w: World, s: Id, ghost t: Tree) returns (c: Id)
    requires w.Valid() && s in w.fields && Unfolds(w.Snap(), Ref(StructKind, s), t)
    modifies w
    ensures w.Valid() && Above(old(w.Snap()), w.Snap()) && c == old(w.next) && c < w.next
    ensures c in w.fields && UnfoldsFrom(c, w.Snap(), Ref(StructKind, c), t)
    ensures CountedOddly(old(w.next), w.Snap())
    decreases t
  {
    hide ValidHeap, Above, UnfoldsFrom, Partial, Counted, AllTablesOk, Incremented, CountedOddly;
    ghost var h0 := w.Snap();
    StructsHaveIds(h0);
    NoneTracked(h0);
    c := w.CreateStruct();
    w.IdSet(c, w.ids[s]);
    assert w.ids[c] == h0.ids[s];
    PartialStarts(h0, s, t, w.Snap());
    SameTracker(h0.next, h0, w.Snap());
    var copies: map<Id, Id> := map[];
    var names := w.fields[s].Keys;
    while names != {}
      invariant t.TStruct? && c == h0.next && Partial(h0, w.Snap(), s, c, t, names, copies)
      invariant CountedOddly(h0.next, w.Snap())
      decreases names
    {
      var k :| k in names;
      PartialFacts(h0, w.Snap(), s, c, t, names, copies, k);
      ghost var h := w.Snap();
      var element := w.fields[s][k];
      var copy := element;
      ghost var copies0 := copies;
      if element.Ref? {
        if element.id in copies {
          RepeatedMember(h0, h, s, c, t, names, copies, k);
          copy := Ref(element.kind, copies[element.id]);
        } else {
          var n;
          if element.kind == StructKind {
            n := DeepCopy(w, element.id, t.members[k]);
            OddlyAbove(h0.next, h, w.Snap());
          } else {
            n := CopyLeaf(w, element.id, t.members[k]);
            SameTracker(h0.next, h, w.Snap());
          }
          copy := Ref(element.kind, n);
          UnfoldsLower(n, c + 1, w.Snap(), copy, t.members[k]);
          PartialFrame(h0, h, w.Snap(), s, c, t, names, copies);
          copies := copies[element.id := n];
        }
      }
      if !element.Ref? {
        PlainUnfolds(h0, element, t.members[k], c + 1, h);
      }
      Attach(w, c, k, copy, h0, s, t, names, copies0, copies);
      names := names - {k};
    }
    PartialDone(h0, w.Snap(), s, c, t, copies);
  }

  /** Every struct can be deep-copied: the copy lives in new objects only, the old heap is as it was,
      and the copy unfolds, ID and aliases included, to whatever the original does. A new object's
      count is the number of its slots exactly when it has one slot. */
  method DeepCopyStruct(w: World, s: Id) returns (c: Id)
    requires w.Valid() && s in w.fields
    modifies w
    ensures w.Valid() && SameBelow(old(w.next), old(w.Snap()), w.Snap())
    ensures forall t :: Unfolds(old(w.Snap()), Ref(StructKind, s), t) ==>
              UnfoldsFrom(old(w.next), w.Snap(), Ref(StructKind, c), t)
    ensures c in w.fields && c >= old(w.next) && Aliases(w.fields[c]) == Aliases(old(w.fields)[s])
    ensures forall o: Id :: o in w.tracker && o >= old(w.next) ==>
              && w.tracker[o].refcount == 2 * |Pairs(w.tracker[o])| - 1
              && (w.tracker[o].refcount == |Pairs(w.tracker[o])| <==> |Pairs(w.tracker[o])| == 1)
  {
    hide ValidHeap, SameBelow, Upward, UnfoldsFrom, Aliases, Pairs;
    ghost var h := w.Snap();
    ghost var t := StructUnfolds(h, s);
    c := DeepCopy(w, s, t);
    RootOf(0, h, s, t);
    RootOf(c, w.Snap(), c, t);
  }
}
