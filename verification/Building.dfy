/** Building new objects beside the existing ones: deep copies and deserialised structs. */
module Building {
  import opened Graph
  import opened Cascade
  import opened Ownership
  import opened Trees
  import opened World

  /** References of objects from `base` on point to later objects, those of earlier objects to
      earlier ones. */
  ghost predicate Upward(base: Id, fields: Fields) {
    forall s, k :: s in fields && k in fields[s] && fields[s][k].Ref? ==>
      if s < base then fields[s][k].id < base else fields[s][k].id > s
  }

  /** Objects below `base` are the same in both heaps, records included. */
  ghost predicate SameBelow(base: Id, h: Heap, h': Heap) {
    forall o: Id :: o < base ==>
      && (o in h.fields <==> o in h'.fields) && (o in h.fields ==> h'.fields[o] == h.fields[o])
      && (o in h.ids <==> o in h'.ids) && (o in h.ids ==> h'.ids[o] == h.ids[o])
      && (o in h.leaves <==> o in h'.leaves) && (o in h.leaves ==> h'.leaves[o] == h.leaves[o])
      && (o in h.tracker <==> o in h'.tracker) && (o in h.tracker ==> SameRecord(h.tracker[o], h'.tracker[o]))
  }

  /** The same count and the same slots, perhaps listed at other indices. */
  ghost predicate SameRecord(p: Prec, p': Prec) {
    p'.refcount == p.refcount && Pairs(p') == Pairs(p)
  }

  /** `h'` adds new objects to `h`, which neither hold nor are held by the objects of `h`; some of them
      may be freed again. */
  ghost predicate Above(h: Heap, h': Heap) {
    h.next <= h'.next && h.freed <= h'.freed && SameBelow(h.next, h, h') && Upward(h.next, h'.fields)
  }

  lemma AboveRefl(h: Heap)
    requires ValidHeap(h)
    ensures Above(h, h)
  {
    hide Pairs, CountsOk, Acyclic;
    forall s, k | s in h.fields && k in h.fields[s] && h.fields[s][k].Ref?
      ensures s < h.next && h.fields[s][k].id < h.next
    {
      SlotFits(h, s, k);
      assert Live(h, s) && Live(h, h.fields[s][k].id);
    }
  }

  lemma AboveTrans(a: Heap, b: Heap, c: Heap)
    requires Above(a, b) && Above(b, c)
    ensures Above(a, c)
  {
    hide Pairs;
    forall s, k | s in c.fields && k in c.fields[s] && c.fields[s][k].Ref?
      ensures if s < a.next then c.fields[s][k].id < a.next else c.fields[s][k].id > s
    {
      if s < b.next {
        assert s in b.fields && b.fields[s] == c.fields[s];
      }
    }
  }

  /** What lies between two levels is unchanged by building above the upper one. */
  lemma AboveAgrees(low: Id, h: Heap, h': Heap)
    requires ValidHeap(h) && Above(h, h')
    ensures Agrees(low, h, h')
  {
    IntactSane(h, {});
    assert forall o: Id :: Live(h, o) ==> o < h.next;
    assert forall o :: o in h.fields ==> Live(h, o);
    assert forall o :: o in h.leaves ==> Live(h, o);
  }

  lemma AboveStruct(h: Heap, id: string)
    requires ValidHeap(h) && |id| == ID_LENGTH
    ensures ValidHeap(WithStruct(h, id)) && Above(h, WithStruct(h, id))
  {
    hide Intact, Acyclic, CountsOk, Upward;
    StructCreated(h, id);
    AboveRefl(h);
    EmptyStructUpward(h, id);
  }

  lemma EmptyStructUpward(h: Heap, id: string)
    requires Upward(h.next, h.fields)
    ensures Upward(h.next, WithStruct(h, id).fields)
  {
  }

  lemma AboveLeaf(h: Heap, leaf: Leaf)
    requires ValidHeap(h)
    ensures ValidHeap(WithLeaf(h, leaf)) && Above(h, WithLeaf(h, leaf))
  {
    hide Intact, Acyclic, CountsOk, Upward;
    LeafCreated(h, leaf);
    AboveRefl(h);
  }

  /** A new struct may come to hold later objects. */
  lemma UpwardAcyclic(h: Heap, base: Id, s: Id, k: Key, e: Elem)
    requires ValidHeap(h) && Upward(base, h.fields) && s in h.fields && base <= s
    requires Fits(h, e) && (e.Ref? ==> e.id > s)
    ensures Acyclic(h.fields[s := h.fields[s][k := e]])
  {
    var rank: Id -> nat :| Ranked(h.fields, rank);
    var n := h.next;
    var rank': Id -> nat := (x: Id) => if x < base then rank(x) else if x <= n then n - x else 0;
    var fields': Fields := h.fields[s := h.fields[s][k := e]];
    forall x: Id, j: Key | x in fields' && j in fields'[x] && fields'[x][j].Ref?
      ensures rank'(fields'[x][j].id) < rank'(x)
    {
      if x == s && j == k {
        BelowNext(h, e);
      } else {
        SlotFits(h, x, j);
        BelowNext(h, h.fields[x][j]);
      }
    }
    assert Ranked(fields', rank');
  }

  lemma BelowNext(h: Heap, e: Elem)
    requires ValidHeap(h) && Fits(h, e) && e.Ref?
    ensures e.id < h.next
  {
    assert Live(h, e.id);
  }

  /** The state after the copy loop counts an object that already has a record and sets it. */
  ghost function AfterAttach(h: Heap, c: Id, k: Key, e: Elem): Heap
    requires c in h.fields && AllTablesOk(h.tracker) && AllTablesOk(Counted(h.tracker, c, k, e))
  {
    if e.Ref? && e.id in h.tracker then AfterCopyStep(h, c, k, e) else AfterSet(h, c, k, e)
  }

  lemma AttachValid(h0: Heap, h: Heap, c: Id, k: Key, e: Elem)
    requires ValidHeap(h) && Above(h0, h) && c in h.fields && h0.next <= c && k !in h.fields[c]
    requires Fits(h, e) && (e.Ref? ==> e.id > c)
    ensures AllTablesOk(h.tracker) && AllTablesOk(Counted(h.tracker, c, k, e))
    ensures ValidHeap(AfterAttach(h, c, k, e))
    ensures ValidHeap(AfterSet(h, c, k, e)) && SlackKept(h, AfterSet(h, c, k, e))
  {
    hide Intact, TablesOk, Acyclic, Upward, Slack, SameBelow, Incremented;
    UpwardAcyclic(h, h0.next, c, k, e);
    SetKeepsValid(h, c, k, e);
    if e.Ref? {
      CountedTwice(h, c, k, e);
    }
  }

  lemma AttachAbove(h0: Heap, h: Heap, c: Id, k: Key, e: Elem, h': Heap)
    requires Above(h0, h) && c in h.fields && h0.next <= c && (e.Ref? ==> e.id > c)
    requires h' == h.(fields := h.fields[c := h.fields[c][k := e]], tracker := h'.tracker)
    requires forall o: Id :: o < h0.next ==>
               (o in h'.tracker <==> o in h.tracker) && (o in h.tracker ==> h'.tracker[o] == h.tracker[o])
    ensures Above(h0, h')
  {
    hide Pairs;
  }
}
