/** `rpc_struct_deserialize` and `item_parse`: rebuilding a struct, aliases included, from JSON. */
module Deserialise {
  import opened Wrappers
  import opened Graph
  import opened Cascade
  import opened Ownership
  import opened Trees
  import opened World
  import opened Building
  import opened Codec
  import opened Reading

  // ---------- frames ----------

  /** Only struct `s` and objects made since `h` differ in `h'`, and `s` has lost nothing. */
  ghost predicate Grown(base: Id, h: Heap, s: Id, h': Heap) {
    && s in h.fields && s in h'.fields && h.next <= h'.next && h.freed <= h'.freed
    && SameBelow(h.next, h.(fields := h.fields[s := h'.fields[s]]), h')
    && Upward(base, h'.fields)
    && (forall k :: k in h.fields[s] ==> k in h'.fields[s] && h'.fields[s][k] == h.fields[s][k])
  }

  /** Objects from `low` on are counted by their slots alone. */
  ghost predicate FreshExact(low: Id, h: Heap) {
    forall o :: o in h.tracker && o >= low ==> Slack(h.tracker[o]) == 0
  }

  lemma GrownRefl(base: Id, h: Heap, s: Id)
    requires s in h.fields && Upward(base, h.fields)
    ensures Grown(base, h, s, h)
  {
    hide Pairs;
    assert h.fields[s := h.fields[s]] == h.fields;
  }

  lemma UpwardAbove(base: Id, h: Heap, h': Heap)
    requires Upward(base, h.fields) && Above(h, h') && base <= h.next
    ensures Upward(base, h'.fields)
  {
    hide Pairs;
  }

  lemma GrowBySet(base: Id, h: Heap, h1: Heap, s: Id, k: Key, e: Elem, h2: Heap)
    requires Above(h, h1) && Upward(base, h1.fields) && s in h.fields && base <= s < h.next && k !in h.fields[s]
    requires e.Ref? ==> e.id >= h.next
    requires h2 == h1.(fields := h1.fields[s := h.fields[s][k := e]], tracker := h2.tracker)
    requires forall o: Id :: o < h.next ==>
               (o in h2.tracker <==> o in h1.tracker) && (o in h1.tracker ==> h2.tracker[o] == h1.tracker[o])
    ensures Grown(base, h, s, h2)
  {
    hide Pairs;
  }

  lemma GrownThenInner(base: Id, h: Heap, s: Id, h2: Heap, a: Id, h3: Heap)
    requires Grown(base, h, s, h2) && Grown(base, h2, a, h3) && a >= h.next && s < h.next
    ensures Grown(base, h, s, h3)
  {
    hide Pairs;
  }

  lemma AboveThenGrown(h0: Heap, h: Heap, s: Id, h': Heap)
    requires Above(h0, h) && Grown(h0.next, h, s, h') && s >= h0.next
    ensures Above(h0, h')
  {
    hide Pairs;
  }

  lemma ExactAbove(low: Id, h: Heap, h': Heap)
    requires Above(h, h') && FreshExact(low, h) && FreshExact(h.next, h')
    ensures FreshExact(low, h')
  {
    forall o | o in h'.tracker && o >= low
      ensures Slack(h'.tracker[o]) == 0
    {
      if o < h.next {
        assert o in h.tracker && SameRecord(h.tracker[o], h'.tracker[o]);
      }
    }
  }

  lemma ExactBySet(low: Id, h: Heap, h': Heap)
    requires FreshExact(low, h) && SlackKept(h, h')
    ensures FreshExact(low, h')
  {
    hide Slack;
  }

  lemma GrownAgrees(base: Id, h: Heap, s: Id, h': Heap)
    requires ValidHeap(h) && Grown(base, h, s, h')
    ensures Agrees(s + 1, h, h')
  {
    hide Pairs;
    IntactSane(h, {});
    assert forall o: Id :: Live(h, o) ==> o < h.next;
    assert forall o :: o in h.fields ==> Live(h, o);
    assert forall o :: o in h.leaves ==> Live(h, o);
  }

  lemma SetElsewhere(h: Heap, s: Id, k: Key, e: Elem)
    requires s in h.fields && AllTablesOk(h.tracker)
    ensures var t' := AfterSet(h, s, k, e).tracker;
            forall o: Id :: (e.Ref? ==> o != e.id) ==>
              (o in t' <==> o in h.tracker) && (o in h.tracker ==> t'[o] == h.tracker[o])
  {
    hide Incremented, AllTablesOk;
  }

  lemma LiveBelow(h: Heap, s: Id)
    requires ValidHeap(h) && s in h.fields
    ensures s < h.next
  {
    IntactSane(h, {});
    assert Live(h, s);
  }

  lemma GrownStruct(base: Id, h: Heap, h1: Heap, s: Id)
    requires Above(h, h1) && s in h.fields && s < h.next && Upward(base, h1.fields)
    ensures Grown(base, h, s, h1) && h1.fields[s] == h.fields[s]
  {
    hide Pairs;
    assert h.fields[s := h.fields[s]] == h.fields;
  }

  // ---------- parsing ----------

  /** Sets a slot of a struct under construction; `h` is the heap before the element was built. */
  method SetNew(w: World, s: Id, k: Key, element: Option<Elem>, ghost base: Id, ghost h: Heap)
    requires w.Valid() && Above(h, w.Snap()) && Upward(base, h.fields) && FreshExact(base, w.Snap())
    requires s in h.fields && base <= s < h.next
    requires element.Some? ==> Fits(w.Snap(), element.value) && (element.value.Ref? ==> element.value.id >= h.next)
    modifies w`fields, w`tracker
    ensures w.Valid() && Grown(base, h, s, w.Snap()) && FreshExact(base, w.Snap())
    ensures s in w.fields
    ensures w.fields[s] == if element.Some? && k !in h.fields[s] then h.fields[s][k := element.value] else h.fields[s]
    ensures Agrees(h.next, old(w.Snap()), w.Snap())
  {
    hide ValidHeap, Above, Upward, FreshExact, Grown, Counted, AllTablesOk, Fits, SlackKept;
    ghost var h1 := w.Snap();
    UpwardAbove(base, h, h1);
    GrownStruct(base, h, h1, s);
    StructsHaveIds(h1);
    SameStruct(base, h, h1, s);
    if element.Some? && k !in w.fields[s] {
      UpwardAcyclic(h1, base, s, k, element.value);
      SetKeepsValid(h1, s, k, element.value);
      SetElsewhere(h1, s, k, element.value);
      GrowBySet(base, h, h1, s, k, element.value, AfterSet(h1, s, k, element.value));
      ExactBySet(base, h1, AfterSet(h1, s, k, element.value));
    }
    var _ := w.SetInternal(s, k, element);
  }

  lemma SameStruct(base: Id, h: Heap, h': Heap, s: Id)
    requires Grown(base, h, s, h')
    ensures s in h'.fields
  {
  }

  /** What parsing one item into slot (s, k) does. */
  ghost predicate Parsed(base: Id, h: Heap, s: Id, k: Key, h': Heap) {
    && Grown(base, h, s, h')
    && forall j :: j in h'.fields[s] && j !in h.fields[s] ==>
         j == k && (h'.fields[s][j].Ref? ==> h'.fields[s][j].id >= h.next)
  }

  ghost predicate Stored(h: Heap, s: Id, k: Key, h': Heap, t: Tree) {
    s in h'.fields && k in h'.fields[s] && UnfoldsFrom(h.next, h', h'.fields[s][k], t)
  }

  /** `rpc_struct_exists`: a slot of type RPC_none does not count. */
  predicate Exists(fields: map<Key, Elem>, k: Key) {
    k in fields && fields[k] != Void
  }

  lemma ParsedBySet(base: Id, h: Heap, s: Id, k: Key, element: Option<Elem>, h': Heap)
    requires Grown(base, h, s, h') && (element.Some? && element.value.Ref? ==> element.value.id >= h.next)
    requires h'.fields[s] == if element.Some? && k !in h.fields[s] then h.fields[s][k := element.value] else h.fields[s]
    ensures Parsed(base, h, s, k, h')
  {
    hide Grown;
  }

  /** Sets a scalar item. */
  method SetPlain(w: World, s: Id, k: Key, element: Elem, ghost base: Id, ghost t: Tree)
    requires w.Valid() && s in w.fields && base <= s && Upward(base, w.fields) && FreshExact(base, w.Snap())
    requires !element.Ref?
    modifies w`fields, w`tracker
    ensures w.Valid() && FreshExact(base, w.Snap()) && Parsed(base, old(w.Snap()), s, k, w.Snap())
    ensures k !in old(w.fields[s]) && UnfoldsFrom(0, old(w.Snap()), element, t) ==> Stored(old(w.Snap()), s, k, w.Snap(), t)
  {
    hide ValidHeap, Above, Upward, FreshExact, Grown;
    ghost var h := w.Snap();
    AboveRefl(h);
    LiveBelow(h, s);
    SetNew(w, s, k, Some(element), base, h);
    ParsedBySet(base, h, s, k, Some(element), w.Snap());
    if UnfoldsFrom(0, h, element, t) {
      PlainUnfolds(h, element, t, h.next, w.Snap());
    }
  }

  /** Creates a parsed leaf and sets it. */
  method SetLeaf(w: World, s: Id, k: Key, leaf: Option<Leaf>, ghost base: Id, ghost t: Tree)
    requires w.Valid() && s in w.fields && base <= s && Upward(base, w.fields) && FreshExact(base, w.Snap())
    modifies w
    ensures w.Valid() && FreshExact(base, w.Snap()) && Parsed(base, old(w.Snap()), s, k, w.Snap())
    ensures k !in old(w.fields[s]) && leaf.Some? && LeafTree(leaf.value) == t ==> Stored(old(w.Snap()), s, k, w.Snap(), t)
  {
    hide ValidHeap, Above, Upward, FreshExact, Grown;
    ghost var h := w.Snap();
    LiveBelow(h, s);
    AboveRefl(h);
    if !Exists(w.fields[s], k) {
      var element := None;
      if leaf.Some? {
        AboveLeaf(h, leaf.value);
        LeafExact(base, h, leaf.value);
        var n := w.CreateLeaf(leaf.value);
        element := Some(Ref(if leaf.value.Buf? then BufKind else FunKind, n));
      }
      ghost var h1 := w.Snap();
      SetNew(w, s, k, element, base, h);
      ParsedBySet(base, h, s, k, element, w.Snap());
      if k !in h.fields[s] && leaf.Some? && LeafTree(leaf.value) == t {
        UnfoldsFrame(h.next, h1, w.Snap(), element.value, t);
      }
    } else {
      GrownRefl(base, h, s);
      ParsedBySet(base, h, s, k, None, h);
    }
  }

  function LeafTree(leaf: Leaf): Tree {
    match leaf
    case Buf(bytes) => TBuf(bytes)
    case Fun(prototype, returnType, pointer) => TFun(prototype, returnType, pointer)
  }

  lemma LeafExact(base: Id, h: Heap, leaf: Leaf)
    requires FreshExact(base, h)
    ensures FreshExact(base, WithLeaf(h, leaf))
  {
    hide Slack;
  }

  // ---------- filling a struct ----------

  /** No object is held under two keys. */
  ghost predicate DistinctRefs(m: map<Key, Elem>) {
    forall a, b :: a in m && b in m && a != b && m[a].Ref? && m[b].Ref? ==> m[a].id != m[b].id
  }

  /** Struct `c` holds one element per member, unfolding to it, and no object twice. */
  ghost predicate Filled(h: Heap, c: Id, members: map<Key, Tree>) {
    && c in h.fields && h.fields[c].Keys == members.Keys && DistinctRefs(h.fields[c])
    && forall k :: k in members ==> UnfoldsFrom(c + 1, h, h.fields[c][k], members[k])
  }

  lemma NothingFilled(h: Heap, c: Id)
    requires c in h.fields && h.fields[c] == map[]
    ensures Filled(h, c, map[])
  {
  }

  lemma DistinctAfterParse(base: Id, h: Heap, c: Id, k: Key, h': Heap)
    requires ValidHeap(h) && Parsed(base, h, c, k, h') && DistinctRefs(h.fields[c])
    ensures DistinctRefs(h'.fields[c])
  {
    forall j | j in h.fields[c] && h.fields[c][j].Ref?
      ensures h.fields[c][j].id < h.next
    {
      SlotFits(h, c, j);
      BelowNext(h, h.fields[c][j]);
    }
  }

  lemma FilledKept(base: Id, h: Heap, c: Id, members: map<Key, Tree>, h': Heap)
    requires ValidHeap(h) && Filled(h, c, members) && Grown(base, h, c, h')
    ensures c in h'.fields
    ensures forall j :: j in members ==> j in h'.fields[c] && UnfoldsFrom(c + 1, h', h'.fields[c][j], members[j])
  {
    hide ValidHeap, UnfoldsFrom, Agrees, SameBelow, Upward, DistinctRefs;
    GrownAgrees(base, h, c, h');
    forall j | j in members
      ensures j in h'.fields[c] && UnfoldsFrom(c + 1, h', h'.fields[c][j], members[j])
    {
      UnfoldsFrame(c + 1, h, h', h.fields[c][j], members[j]);
    }
  }

  lemma KeysAfterParse(base: Id, h: Heap, c: Id, k: Key, h': Heap)
    requires Parsed(base, h, c, k, h')
    ensures c in h.fields && c in h'.fields && h.fields[c].Keys <= h'.fields[c].Keys <= h.fields[c].Keys + {k}
  {
  }

  /** One item more: stored under a new key, or nothing. */
  lemma FilledAfterParse(base: Id, h: Heap, c: Id, members: map<Key, Tree>, k: Key, stored: bool, t: Tree, h': Heap)
    requires ValidHeap(h) && Filled(h, c, members) && Parsed(base, h, c, k, h') && k !in members
    requires if stored then Stored(h, c, k, h', t) else k !in h'.fields[c]
    ensures Filled(h', c, if stored then members[k := t] else members)
  {
    hide ValidHeap, UnfoldsFrom, Grown, DistinctRefs;
    LiveBelow(h, c);
    ParsedGrown(base, h, c, k, h');
    FilledKept(base, h, c, members, h');
    DistinctAfterParse(base, h, c, k, h');
    KeysAfterParse(base, h, c, k, h');
    if stored {
      UnfoldsLower(h.next, c + 1, h', h'.fields[c][k], t);
    }
  }

  lemma ParsedGrown(base: Id, h: Heap, c: Id, k: Key, h': Heap)
    requires Parsed(base, h, c, k, h')
    ensures Grown(base, h, c, h')
  {
  }

  // ---------- items ----------

  /** What parsing `item` into a free slot achieves. */
  ghost predicate Achieved(h: Heap, s: Id, k: Key, item: Json, h': Heap, t: Tree) {
    s in h'.fields && if Yields(item) then Reads(item, t) && Stored(h, s, k, h', t) else k !in h'.fields[s]
  }

  /** What an item says when it is no struct and no array. */
  lemma PlainItems(item: Json)
    requires item.JObj? ==> Member(item, "type").Some? && Member(item, "type").value.JStr?
    ensures item.JInt? ==> Yields(item) && Reads(item, TNum(8, FromSigned(item.v)))
    ensures item.JReal? ==> Yields(item) && Reads(item, TReal(8, item.r))
    ensures item.JStr? ==> Yields(item) && Reads(item, TText(item.s))
    ensures item.JNull? || item.JBool? ==> !Yields(item)
    ensures Member(item, "type") == Some(JStr("RPC_function")) ==>
              Yields(item) && Reads(item, LeafTree(Fun(TypesOf(ItemsOf(item, "prototype")), ReturnTypeOf(item), 0)))
    ensures Member(item, "type") == Some(JStr("RPC_sizedbuf")) ==> Yields(item) && Reads(item, LeafTree(Buf(BytesOf(item))))
    ensures item.JObj? && Member(item, "type").value.s !in {"RPC_function", "RPC_sizedbuf", "RPC_struct"} ==> !Yields(item)
  {
    TypeNames();
  }

  /** `item_parse`. The tree returned says what well-formed input stands for. */
  method ItemParse(w: World, item: Json, s: Id, k: Key, ghost base: Id) returns (ghost t: Tree)
    requires w.Valid() && SafeItem(item)
    requires s in w.fields && base <= s && Upward(base, w.fields) && FreshExact(base, w.Snap())
    modifies w
    ensures w.Valid() && FreshExact(base, w.Snap()) && Parsed(base, old(w.Snap()), s, k, w.Snap())
    ensures k !in old(w.fields[s]) && WellFormed(item) ==> Achieved(old(w.Snap()), s, k, item, w.Snap(), t)
    decreases item, 3
  {
    hide ValidHeap, Above, Upward, FreshExact, Grown, Reads, Yields, LeafTree, BytesOf, TypesOf, ItemsOf;
    ghost var h := w.Snap();
    PlainItems(item);
    t := TVoid;
    match item {
      case JInt(v) =>
        t := TNum(8, FromSigned(v));
        SetPlain(w, s, k, Num(8, FromSigned(v)), base, t);
      case JReal(r) =>
        t := TReal(8, r);
        SetPlain(w, s, k, Real(8, r), base, t);
      case JStr(text) =>
        t := TText(text);
        SetPlain(w, s, k, Text(text), base, t);
      case JObj(fields) =>
        var name := fields["type"].s;
        if name == "RPC_struct" {
          t := StructItem(w, item, s, k, base);
        } else if name == "RPC_function" {
          var leaf := FunDeserialize(item);
          t := LeafTree(leaf.value);
          SetLeaf(w, s, k, leaf, base, t);
        } else if name == "RPC_sizedbuf" {
          var defined, leaf := BufDeserialize(item);
          assert defined;
          t := LeafTree(leaf);
          SetLeaf(w, s, k, Some(leaf), base, t);
        } else {
          NothingParsed(base, h, s, k);
        }
      case JArr(items) =>
        t := ArrayItem(w, items, s, k, base, item);
      case _ =>
        NothingParsed(base, h, s, k);
    }
  }

  lemma NothingParsed(base: Id, h: Heap, s: Id, k: Key)
    requires s in h.fields && Upward(base, h.fields)
    ensures Parsed(base, h, s, k, h)
  {
    hide Upward, Grown;
    GrownRefl(base, h, s);
  }

  lemma StructAchieved(h: Heap, s: Id, k: Key, item: Json, n: Option<Id>, h': Heap, t: Tree)
    requires Member(item, "type") == Some(JStr("RPC_struct")) && (n.Some? <==> IsStructJson(item))
    requires s in h.fields && k !in h.fields[s] && s in h'.fields
    requires h'.fields[s] == if n.Some? then h.fields[s][k := Ref(StructKind, n.value)] else h.fields[s]
    requires n.Some? ==> Reads(item, t) && UnfoldsFrom(h.next, h', Ref(StructKind, n.value), t)
    ensures Achieved(h, s, k, item, h', t)
  {
    hide Reads, UnfoldsFrom;
    TypeNames();
  }

  /** A nested struct: deserialised only if the key is free, then set. */
  method StructItem(w: World, item: Json, s: Id, k: Key, ghost base: Id) returns (ghost t: Tree)
    requires w.Valid() && Member(item, "type") == Some(JStr("RPC_struct")) && SafeStruct(item)
    requires s in w.fields && base <= s && Upward(base, w.fields) && FreshExact(base, w.Snap())
    modifies w
    ensures w.Valid() && FreshExact(base, w.Snap()) && Parsed(base, old(w.Snap()), s, k, w.Snap())
    ensures k !in old(w.fields[s]) && WellFormed(item) ==> Achieved(old(w.Snap()), s, k, item, w.Snap(), t)
    decreases item, 2
  {
    hide ValidHeap, Above, Upward, FreshExact, Grown, Parsed, Reads, WellFormed, Achieved, UnfoldsFrom;
    ghost var h := w.Snap();
    LiveBelow(h, s);
    t := TVoid;
    if !Exists(w.fields[s], k) {
      var n;
      n, t := Deserialize(w, item);
      ghost var h1 := w.Snap();
      ExactAbove(base, h, h1);
      SetNew(w, s, k, if n.Some? then Some(Ref(StructKind, n.value)) else None, base, h);
      ParsedBySet(base, h, s, k, if n.Some? then Some(Ref(StructKind, n.value)) else None, w.Snap());
      if k !in h.fields[s] && WellFormed(item) && n.Some? {
        UnfoldsFrame(h.next, h1, w.Snap(), Ref(StructKind, n.value), t);
      }
      if k !in h.fields[s] && WellFormed(item) {
        StructAchieved(h, s, k, item, n, w.Snap(), t);
      }
    } else {
      NothingParsed(base, h, s, k);
    }
  }

  /** The first `n` items of an array have been read as `members`. */
  ghost predicate ReadArray(items: seq<Json>, n: nat, members: map<Key, Tree>) {
    && n <= |items|
    && (forall k :: k in members ==> exists i :: 0 <= i < n && k == Decimal(i))
    && forall i :: 0 <= i < n ==>
         (Decimal(i) in members <==> Yields(items[i])) && (Yields(items[i]) ==> Reads(items[i], members[Decimal(i)]))
  }

  lemma NextIndexFree(items: seq<Json>, n: nat, members: map<Key, Tree>)
    requires ReadArray(items, n, members)
    ensures Decimal(n) !in members
  {
    hide Yields, Reads;
    if Decimal(n) in members {
      var i: nat :| i < n && Decimal(n) == Decimal(i);
      DecimalInjective(n, i);
    }
  }

  lemma ReadOneMore(items: seq<Json>, n: nat, members: map<Key, Tree>, t: Tree)
    requires ReadArray(items, n, members) && n < |items| && (Yields(items[n]) ==> Reads(items[n], t))
    ensures ReadArray(items, n + 1, if Yields(items[n]) then members[Decimal(n) := t] else members)
  {
    hide Yields, Reads, Decimal;
    NextIndexFree(items, n, members);
    var members' := if Yields(items[n]) then members[Decimal(n) := t] else members;
    forall k | k in members'
      ensures exists i :: 0 <= i < n + 1 && k == Decimal(i)
    {
      if k in members {
        var i: nat :| i < n && k == Decimal(i);
      }
    }
    forall i: nat | i < n
      ensures Decimal(i) != Decimal(n)
    {
      if Decimal(i) == Decimal(n) {
        DecimalInjective(i, n);
      }
    }
  }

  /** Elements that share no object have no aliases but each with itself. */
  lemma NoAliases(h: Heap, a: Id, members: map<Key, Tree>)
    requires Filled(h, a, members)
    ensures Aliases(h.fields[a]) == AliasesBy(members, map[])
  {
    hide UnfoldsFrom;
    var m := h.fields[a];
    forall k | k in members
      ensures m[k].Ref? <==> IsObject(members[k])
    {
      RefByTree(a + 1, h, m[k], members[k]);
    }
    forall x: (Key, Key)
      ensures x in Aliases(m) <==> x in AliasesBy(members, map[])
    {
    }
  }

  lemma ArrayUnfolds(h: Heap, a: Id, members: map<Key, Tree>, low: Id)
    requires Filled(h, a, members) && a in h.ids && low <= a
    ensures UnfoldsFrom(low, h, Ref(StructKind, a), TStruct(h.ids[a], members, AliasesBy(members, map[])))
  {
    hide DistinctRefs;
    NoAliases(h, a, members);
    forall k | k in members
      ensures UnfoldsFrom(low, h, h.fields[a][k], members[k])
    {
      UnfoldsLower(a + 1, low, h, h.fields[a][k], members[k]);
    }
  }

  /** The new struct `a` of an array sits in slot (s, k), if that was free. */
  ghost predicate Placed(h: Heap, s: Id, k: Key, a: Id, id: string, h': Heap) {
    && s in h.fields && s in h'.fields && a in h'.fields && a in h'.ids && h'.ids[a] == id
    && (k !in h.fields[s] ==> k in h'.fields[s] && h'.fields[s][k] == Ref(StructKind, a))
  }

  lemma StillPlaced(base: Id, h: Heap, s: Id, k: Key, a: Id, id: string, h1: Heap, j: Key, h2: Heap)
    requires Placed(h, s, k, a, id, h1) && Parsed(base, h1, a, j, h2) && s < a < h1.next
    ensures Placed(h, s, k, a, id, h2)
  {
    hide Pairs, Upward;
  }

  lemma ArrayAchieved(h: Heap, s: Id, k: Key, a: Id, id: string, items: seq<Json>, members: map<Key, Tree>, h': Heap)
    requires Placed(h, s, k, a, id, h') && Filled(h', a, members) && ReadArray(items, |items|, members)
    requires a >= h.next && |id| == ID_LENGTH && k !in h.fields[s]
    ensures Achieved(h, s, k, JArr(items), h', TStruct(id, members, AliasesBy(members, map[])))
  {
    hide Filled, UnfoldsFrom, AliasesBy;
    ArrayUnfolds(h', a, members, h.next);
  }

  /** An array becomes a struct keyed by index, set first and filled afterwards. */
  method ArrayItem(w: World, items: seq<Json>, s: Id, k: Key, ghost base: Id, ghost item: Json) returns (ghost t: Tree)
    requires w.Valid() && item == JArr(items) && SafeItem(item)
    requires s in w.fields && base <= s && Upward(base, w.fields) && FreshExact(base, w.Snap())
    modifies w
    ensures w.Valid() && FreshExact(base, w.Snap()) && Parsed(base, old(w.Snap()), s, k, w.Snap())
    ensures k !in old(w.fields[s]) && WellFormed(item) ==> Achieved(old(w.Snap()), s, k, item, w.Snap(), t)
    decreases item, 2
  {
    hide ValidHeap, Above, Upward, FreshExact, Filled, ReadArray, Reads, Yields, Achieved, Grown, Placed, Decimal,
      SafeItem, Stored;
    ghost var h := w.Snap();
    SafeItems(items);
    LiveBelow(h, s);
    AboveRefl(h);
    var a := w.CreateStruct();
    ghost var id := w.ids[a];
    AboveStruct(h, id);
    StructExact(base, h, id);
    var element := if Exists(w.fields[s], k) then None else Some(Ref(StructKind, a));
    SetNew(w, s, k, element, base, h);
    ParsedBySet(base, h, s, k, element, w.Snap());
    ArrayPlaced(h, s, k, a, id, w.Snap());
    NothingFilled(w.Snap(), a);
    ghost var members: map<Key, Tree> := map[];
    NothingRead(items);
    ghost var ok := WellFormed(item);
    var i := 0;
    while i < |items|
      invariant 0 <= i <= |items|
      invariant w.Valid() && FreshExact(base, w.Snap()) && Parsed(base, h, s, k, w.Snap())
      invariant Placed(h, s, k, a, id, w.Snap()) && a in w.fields
      invariant ok ==> Filled(w.Snap(), a, members) && ReadArray(items, i, members)
    {
      ghost var h2 := w.Snap();
      LiveBelow(h2, a);
      ParsedUpward(base, h, s, k, h2);
      ghost var u := ItemParse(w, items[i], a, Decimal(i), base);
      GrownStep(base, h, s, k, h2, a, Decimal(i), w.Snap());
      StillPlaced(base, h, s, k, a, id, h2, Decimal(i), w.Snap());
      PlacedIn(h, s, k, a, id, w.Snap());
      if ok {
        NextIndexFree(items, i, members);
        FilledKeys(h2, a, members);
        ItemAchieved(h2, a, Decimal(i), items[i], w.Snap(), u);
        FilledAfterParse(base, h2, a, members, Decimal(i), Yields(items[i]), u, w.Snap());
        ReadOneMore(items, i, members, u);
        members := if Yields(items[i]) then members[Decimal(i) := u] else members;
      }
      i := i + 1;
    }
    t := TStruct(id, members, AliasesBy(members, map[]));
    if ok && k !in h.fields[s] {
      ArrayAchieved(h, s, k, a, id, items, members, w.Snap());
    }
  }

  lemma SafeItems(items: seq<Json>)
    requires SafeItem(JArr(items))
    ensures forall i :: 0 <= i < |items| ==> SafeItem(items[i])
  {
  }

  lemma NothingRead(items: seq<Json>)
    ensures ReadArray(items, 0, map[])
  {
  }

  lemma ParsedUpward(base: Id, h: Heap, s: Id, k: Key, h': Heap)
    requires Parsed(base, h, s, k, h')
    ensures Upward(base, h'.fields)
  {
  }

  lemma GrownStep(base: Id, h: Heap, s: Id, k: Key, h2: Heap, a: Id, j: Key, h3: Heap)
    requires Parsed(base, h, s, k, h2) && Parsed(base, h2, a, j, h3) && a >= h.next && s < h.next
    ensures Parsed(base, h, s, k, h3)
  {
    hide Pairs, Upward;
    GrownThenInner(base, h, s, h2, a, h3);
  }

  lemma ArrayPlaced(h: Heap, s: Id, k: Key, a: Id, id: string, h': Heap)
    requires s in h.fields && s in h'.fields && a == h.next && a != s && Agrees(h.next, WithStruct(h, id), h')
    requires k !in h.fields[s] ==> h'.fields[s] == h.fields[s][k := Ref(StructKind, a)]
    ensures Placed(h, s, k, a, id, h') && h'.fields[a] == map[]
  {
  }

  lemma PlacedIn(h: Heap, s: Id, k: Key, a: Id, id: string, h': Heap)
    requires Placed(h, s, k, a, id, h')
    ensures a in h'.fields
  {
  }

  lemma FilledKeys(h: Heap, c: Id, members: map<Key, Tree>)
    requires Filled(h, c, members)
    ensures c in h.fields && h.fields[c].Keys == members.Keys
  {
  }

  lemma ItemAchieved(h: Heap, s: Id, k: Key, item: Json, h': Heap, t: Tree)
    requires Achieved(h, s, k, item, h', t)
    ensures s in h'.fields
    ensures if Yields(item) then Reads(item, t) && Stored(h, s, k, h', t) else k !in h'.fields[s]
  {
  }

  lemma StructExact(base: Id, h: Heap, id: string)
    requires FreshExact(base, h)
    ensures FreshExact(base, WithStruct(h, id))
  {
    hide Slack;
  }

  // ---------- the struct under construction ----------

  /** The struct `c` under construction beside heap `h0`. */
  ghost predicate UnderConstruction(h0: Heap, h: Heap, c: Id, id: string) {
    && ValidHeap(h) && Above(h0, h) && FreshExact(h0.next, h)
    && c == h0.next && c in h.fields && c in h.ids && h.ids[c] == id
  }

  lemma BuildingAfterParse(h0: Heap, h: Heap, c: Id, id: string, k: Key, h': Heap)
    requires UnderConstruction(h0, h, c, id) && Parsed(h0.next, h, c, k, h') && ValidHeap(h') && FreshExact(h0.next, h')
    ensures UnderConstruction(h0, h', c, id)
  {
    hide ValidHeap, FreshExact, Upward, Pairs;
    LiveBelow(h, c);
    AboveThenGrown(h0, h, c, h');
  }

  lemma BuildingUpward(h0: Heap, h: Heap, c: Id, id: string)
    requires UnderConstruction(h0, h, c, id)
    ensures Upward(h0.next, h.fields)
  {
  }

  /** The items outside `rest` have been read as `members`. */
  ghost predicate ReadItems(items: map<string, Json>, rest: set<string>, members: map<Key, Tree>) {
    && (forall k :: k in members <==> k in items && k !in rest && Yields(items[k]))
    && forall k :: k in members ==> Reads(items[k], members[k])
  }

  lemma ReadItem(items: map<string, Json>, rest: set<string>, members: map<Key, Tree>, k: Key, t: Tree)
    requires ReadItems(items, rest, members) && k in items && k in rest && (Yields(items[k]) ==> Reads(items[k], t))
    ensures k !in members
    ensures ReadItems(items, rest - {k}, if Yields(items[k]) then members[k := t] else members)
  {
    hide Yields, Reads;
  }

  lemma NoItemsRead(items: map<string, Json>)
    ensures ReadItems(items, items.Keys, map[])
  {
  }

  /** The loop over the items of "serialised", in any order. */
  method ParseItems(w: World, items: map<string, Json>, c: Id, ghost h0: Heap, ghost id: string, ghost j: Json)
    returns (ghost members: map<Key, Tree>)
    requires UnderConstruction(h0, w.Snap(), c, id) && w.fields[c] == map[]
    requires forall k :: k in items ==> SafeItem(items[k]) && items[k] < j
    modifies w
    ensures UnderConstruction(h0, w.Snap(), c, id)
    ensures (forall k :: k in items ==> WellFormed(items[k])) ==>
              Filled(w.Snap(), c, members) && ReadItems(items, {}, members)
    decreases j, 0
  {
    hide ValidHeap, Above, FreshExact, Parsed, Stored, Filled, ReadItems, Reads, Yields, Upward, Achieved, WellFormed;
    members := map[];
    NothingFilled(w.Snap(), c);
    NoItemsRead(items);
    ghost var ok := forall k :: k in items ==> WellFormed(items[k]);
    var rest := items.Keys;
    while rest != {}
      invariant rest <= items.Keys
      invariant UnderConstruction(h0, w.Snap(), c, id)
      invariant ok ==> Filled(w.Snap(), c, members) && ReadItems(items, rest, members)
      decreases rest
    {
      var k :| k in rest;
      ghost var h := w.Snap();
      BuildingUpward(h0, h, c, id);
      ghost var t := ItemParse(w, items[k], c, k, h0.next);
      BuildingAfterParse(h0, h, c, id, k, w.Snap());
      if ok {
        FilledKeys(h, c, members);
        ReadKeyFree(items, rest, members, k);
        ItemAchieved(h, c, k, items[k], w.Snap(), t);
        FilledAfterParse(h0.next, h, c, members, k, Yields(items[k]), t, w.Snap());
        ReadItem(items, rest, members, k, t);
        members := if Yields(items[k]) then members[k := t] else members;
      }
      rest := rest - {k};
    }
  }

  lemma ReadKeyFree(items: map<string, Json>, rest: set<string>, members: map<Key, Tree>, k: Key)
    requires ReadItems(items, rest, members) && k in rest
    ensures k !in members
  {
  }

  // ---------- duplicates ----------

  /** The element a duplicate entry copies: that of the key it names, or nothing (RPC_none). */
  function OriginalOf(m: map<Key, Elem>, j: Json): Elem {
    if j.JStr? && j.s in m then m[j.s] else Void
  }

  lemma DuplicateReady(h0: Heap, h: Heap, c: Id, id: string, j: Json)
    requires UnderConstruction(h0, h, c, id)
    ensures Fits(h, OriginalOf(h.fields[c], j))
    ensures OriginalOf(h.fields[c], j).Ref? ==> OriginalOf(h.fields[c], j).id > c
  {
    if j.JStr? && j.s in h.fields[c] {
      SlotFits(h, c, j.s);
    }
  }

  lemma BuildingAfterSet(h0: Heap, h: Heap, c: Id, id: string, k: Key, e: Elem)
    requires UnderConstruction(h0, h, c, id) && k !in h.fields[c] && Fits(h, e) && (e.Ref? ==> e.id > c)
    ensures AllTablesOk(h.tracker) && UnderConstruction(h0, AfterSet(h, c, k, e), c, id)
    ensures Agrees(c + 1, h, AfterSet(h, c, k, e))
  {
    hide ValidHeap, Above, FreshExact, Counted, AllTablesOk, SlackKept;
    AttachValid(h0, h, c, k, e);
    SetElsewhere(h, c, k, e);
    AttachAbove(h0, h, c, k, e, AfterSet(h, c, k, e));
    ExactBySet(h0.next, h, AfterSet(h, c, k, e));
  }

  lemma AgreesTrans(low: Id, a: Heap, b: Heap, c: Heap)
    requires Agrees(low, a, b) && Agrees(low, b, c)
    ensures Agrees(low, a, c)
  {
  }

  /** The items with the duplicates under `keys` added. */
  ghost function WithDuplicates(m: map<Key, Elem>, dup: map<string, Json>, keys: set<Key>): map<Key, Elem> {
    m + map k | k in keys && k in dup :: OriginalOf(m, dup[k])
  }

  /** The elements after the duplicates in `order` have been handled: a key in use keeps its element,
      any other gets the element, at that moment, of the key it names. */
  function Added(m: map<Key, Elem>, dup: map<string, Json>, order: seq<Key>): map<Key, Elem>
    requires forall k :: k in order ==> k in dup
  {
    if order == [] then m
    else
      var n := |order| - 1;
      var m' := Added(m, dup, order[..n]);
      if order[n] in m' then m' else m'[order[n] := OriginalOf(m', dup[order[n]])]
  }

  /** Whatever the order, nothing is lost, every duplicate's key ends up in use, and each new element is
      one of the struct's own or RPC_none. */
  lemma {:induction false} AddedAnyhow(m: map<Key, Elem>, dup: map<string, Json>, order: seq<Key>)
    requires forall k :: k in order ==> k in dup
    ensures var m' := Added(m, dup, order);
            && (forall k :: k in m' <==> k in m || k in order)
            && (forall k :: k in m ==> m'[k] == m[k])
            && (forall k :: k in m' && m'[k] != Void ==> exists j :: j in m && m[j] == m'[k])
  {
    if order != [] {
      var n := |order| - 1;
      AddedAnyhow(m, dup, order[..n]);
      assert order[..n] + [order[n]] == order;
    }
  }

  /** Adding the duplicate under `k` to those already added. */
  lemma OneDuplicate(m: map<Key, Elem>, dup: map<string, Json>, keys: set<Key>, k: Key)
    requires Proper(m, dup) && k in dup && k !in keys && keys <= dup.Keys
    ensures var m' := WithDuplicates(m, dup, keys);
            && k !in m' && OriginalOf(m', dup[k]) == OriginalOf(m, dup[k])
            && WithDuplicates(m, dup, keys + {k}) == m'[k := OriginalOf(m, dup[k])]
  {
  }

  /** For a proper table the order does not matter. */
  lemma {:induction false} AddedProper(m: map<Key, Elem>, dup: map<string, Json>, order: seq<Key>)
    requires Proper(m, dup) && (forall k :: k in order ==> k in dup)
    requires forall i, j :: 0 <= i < j < |order| ==> order[i] != order[j]
    ensures Added(m, dup, order) == WithDuplicates(m, dup, set k | k in order)
  {
    hide Proper, WithDuplicates, OriginalOf;
    if order == [] {
      NoDuplicates(m, dup);
      assert (set k | k in order) == {};
    } else {
      var n := |order| - 1;
      AddedProper(m, dup, order[..n]);
      OneDuplicate(m, dup, (set k | k in order[..n]), order[n]);
      assert (set k | k in order[..n]) + {order[n]} == set k | k in order;
    }
  }

  lemma NoDuplicates(m: map<Key, Elem>, dup: map<string, Json>)
    ensures WithDuplicates(m, dup, {}) == m
  {
  }

  /** The loop over "duplicates", in the order in which the JSON object yields them. */
  method ParseDuplicates(w: World, dup: map<string, Json>, order: seq<Key>, c: Id, ghost h0: Heap, ghost id: string)
    requires UnderConstruction(h0, w.Snap(), c, id) && Enumerates(order, dup.Keys)
    modifies w
    ensures UnderConstruction(h0, w.Snap(), c, id) && Agrees(c + 1, old(w.Snap()), w.Snap())
    ensures w.fields[c] == Added(old(w.fields[c]), dup, order)
  {
    hide ValidHeap, Above, FreshExact, Agrees, Fits, Counted, AllTablesOk, OriginalOf;
    ghost var h1 := w.Snap();
    ghost var m := w.fields[c];
    AgreesRefl(c + 1, h1);
    var i := 0;
    while i < |order|
      invariant 0 <= i <= |order|
      invariant UnderConstruction(h0, w.Snap(), c, id) && Agrees(c + 1, h1, w.Snap())
      invariant w.fields[c] == Added(m, dup, order[..i])
    {
      var k := order[i];
      ghost var h := w.Snap();
      assert order[..i + 1][..i] == order[..i];
      assert k in order;
      var element := OriginalOf(w.fields[c], dup[k]);
      DuplicateReady(h0, h, c, id, dup[k]);
      if k !in w.fields[c] {
        BuildingAfterSet(h0, h, c, id, k, element);
        AgreesTrans(c + 1, h1, h, AfterSet(h, c, k, element));
      }
      BuildingTables(h0, h, c, id);
      var _ := w.SetInternal(c, k, Some(element));
      i := i + 1;
    }
    assert order[..i] == order;
  }

  lemma BuildingTables(h0: Heap, h: Heap, c: Id, id: string)
    requires UnderConstruction(h0, h, c, id)
    ensures AllTablesOk(h.tracker)
  {
    StructsHaveIds(h);
  }

  lemma AgreesRefl(low: Id, h: Heap)
    ensures Agrees(low, h, h)
  {
  }

  /** Duplicates name items and are none themselves. */
  ghost predicate Proper(m: map<Key, Elem>, dup: map<string, Json>) {
    forall k :: k in dup ==> k !in m && dup[k].JStr? && dup[k].s in m
  }

  lemma RefByTree(low: Id, h: Heap, e: Elem, t: Tree)
    requires UnfoldsFrom(low, h, e, t)
    ensures e.Ref? <==> IsObject(t)
  {
  }

  lemma ProperDuplicates(h: Heap, c: Id, ser: map<string, Json>, dup: map<string, Json>, members: map<Key, Tree>)
    requires Filled(h, c, members) && ReadItems(ser, {}, members) && ProperTable(ser, dup)
    ensures Proper(h.fields[c], dup)
  {
    hide UnfoldsFrom, Reads, Yields, DistinctRefs;
  }

  /** Distinct items and proper duplicates: keys alias exactly when they stand for the same item. */
  lemma RebuiltAliases(h: Heap, c: Id, members: map<Key, Tree>, dup: map<string, Json>, m': map<Key, Elem>)
    requires Filled(h, c, members) && Proper(h.fields[c], dup)
    requires m' == WithDuplicates(h.fields[c], dup, dup.Keys)
    ensures Aliases(m') == AliasesBy(Completed(members, dup), dup)
  {
    hide UnfoldsFrom;
    var m, all := h.fields[c], Completed(members, dup);
    assert all.Keys == m'.Keys;
    forall x: (Key, Key)
      ensures x in Aliases(m') <==> x in AliasesBy(all, dup)
    {
      var (a, b) := x;
      if a in m' && b in m' {
        var ra, rb := Rep(dup, a), Rep(dup, b);
        assert m'[a] == m[ra] && m'[b] == m[rb];
        assert all[a] == members[ra] && all[b] == members[rb];
        RefByTree(c + 1, h, m[ra], members[ra]);
        RefByTree(c + 1, h, m[rb], members[rb]);
        assert m[ra].Ref? ==> (m[ra] == m[rb] <==> ra == rb);
      }
    }
  }

  /** The finished struct unfolds to its items and duplicates. */
  lemma Rebuilt(h: Heap, h': Heap, c: Id, members: map<Key, Tree>, dup: map<string, Json>)
    requires Filled(h, c, members) && Proper(h.fields[c], dup)
    requires c in h'.fields && h'.fields[c] == WithDuplicates(h.fields[c], dup, dup.Keys) && Agrees(c + 1, h, h')
    requires c in h'.ids
    ensures var all := Completed(members, dup);
            UnfoldsFrom(c, h', Ref(StructKind, c), TStruct(h'.ids[c], all, AliasesBy(all, dup)))
  {
    hide Agrees, AliasesBy, Aliases, DistinctRefs;
    var all, m, m' := Completed(members, dup), h.fields[c], h'.fields[c];
    assert all.Keys == m'.Keys;
    forall k | k in all
      ensures UnfoldsFrom(c, h', m'[k], all[k])
    {
      var r := Rep(dup, k);
      assert m'[k] == m[r] && all[k] == members[r];
      UnfoldsFrame(c + 1, h, h', m[r], members[r]);
      UnfoldsLower(c + 1, c, h', m[r], members[r]);
    }
    RebuiltAliases(h, c, members, dup, m');
  }

  lemma TableRead(ser: map<string, Json>, dup: map<string, Json>, members: map<Key, Tree>, id: string)
    requires ReadItems(ser, {}, members) && ProperTable(ser, dup)
    ensures var all := Completed(members, dup);
            && ReadTable(ser, dup, TStruct(id, all, AliasesBy(all, dup)))
            && forall k :: k in ser && k in all && Yields(ser[k]) ==> Reads(ser[k], all[k])
  {
    hide Yields, Reads, AliasesBy;
  }

  lemma WholeRead(j: Json, members: map<Key, Tree>, id: string)
    requires IsStructJson(j) && IdRead(j, id)
    requires ReadItems(ChildrenOf(j, "serialised"), {}, members)
    requires ProperTable(ChildrenOf(j, "serialised"), ChildrenOf(j, "duplicates"))
    ensures var all := Completed(members, ChildrenOf(j, "duplicates"));
            Reads(j, TStruct(id, all, AliasesBy(all, ChildrenOf(j, "duplicates"))))
  {
    hide Yields, AliasesBy, Completed, ReadTable, ProperTable, ReadItems, IdRead;
    TypeNames();
    TableRead(ChildrenOf(j, "serialised"), ChildrenOf(j, "duplicates"), members, id);
  }

  // ---------- the whole struct ----------

  lemma ConstructionStarts(h0: Heap, h: Heap, id: string)
    requires ValidHeap(h0) && ValidHeap(h) && h == WithStruct(h0, id) && |id| == ID_LENGTH
    ensures UnderConstruction(h0, h, h0.next, id) && h.fields[h0.next] == map[]
  {
    hide ValidHeap, Above, Slack;
    AboveStruct(h0, id);
    StructsHaveIds(h0);
    NothingTracked(h0);
  }

  lemma NothingTracked(h: Heap)
    requires ValidHeap(h)
    ensures forall o :: o in h.tracker ==> o < h.next
  {
    IntactSane(h, {});
    assert forall o: Id :: o in h.tracker ==> Live(h, o);
  }

  /** Freeing a struct just made frees nothing else. */
  lemma OnlyTheNewStruct(h: Heap, c: Id)
    requires ValidHeap(h) && c in h.fields && h.fields[c] == map[]
    ensures Victims(h, {}, {c}) == {c}
  {
    hide ValidHeap, Loose;
    DoomedClosed(h.fields, {}, Loose(h.tracker), {c});
    DoomedLeast(h.fields, {}, Loose(h.tracker), {c}, {c});
  }

  lemma SamePairs(h: Heap, h': Heap, o: Id)
    requires ValidHeap(h) && ValidHeap(h') && SameHolds(h.fields, {}, h'.fields, {})
    requires o in h.tracker && o in h'.tracker && Slack(h'.tracker[o]) == Slack(h.tracker[o])
    ensures SameRecord(h.tracker[o], h'.tracker[o])
  {
    hide Pairs, Acyclic, IdsOk, CountsOk, Sane, KindsOk;
    forall x: Slot
      ensures x in Pairs(h.tracker[o]) <==> x in Pairs(h'.tracker[o])
    {
      assert Lists(h.tracker, x, o) <==> Holds(h.fields, {}, x, o);
      assert Lists(h'.tracker, x, o) <==> Holds(h'.fields, {}, x, o);
    }
    assert Pairs(h.tracker[o]) == Pairs(h'.tracker[o]);
  }

  lemma AbandonedMemory(h0: Heap, h1: Heap, id: string, h2: Heap)
    requires ValidHeap(h0) && ValidHeap(h1) && ValidHeap(h2) && h1 == WithStruct(h0, id)
    requires FreedExactly(h1, h2, {}, {h0.next})
    ensures h2.fields == h0.fields && h2.leaves == h0.leaves && h2.ids == h0.ids && h2.next > h0.next
    ensures h0.freed <= h2.freed && h2.tracker.Keys == h0.tracker.Keys
    ensures forall o :: o in h0.tracker ==> Slack(h2.tracker[o]) == Slack(h0.tracker[o])
  {
    hide ValidHeap, Sane, Slack, FreedExactly, Victims, Without;
    StructsHaveIds(h0);
    OnlyTheNewStruct(h1, h0.next);
    ValidSane(h1);
    ValidSane(h2);
    SurvivorsExact(h1, h2, {}, {h0.next});
    FieldsRestored(h0.fields, h0.next, map[], h2.fields);
  }

  /** Abandoning a struct just made restores the heap it was made in. */
  lemma Abandoned(h0: Heap, h1: Heap, id: string, h2: Heap)
    requires ValidHeap(h0) && ValidHeap(h1) && ValidHeap(h2) && h1 == WithStruct(h0, id)
    requires FreedExactly(h1, h2, Listed(h1, h0.next), {h0.next})
    ensures h2.fields == h0.fields && h2.leaves == h0.leaves && h2.ids == h0.ids
    ensures Above(h0, h2) && FreshExact(h0.next, h2)
  {
    hide ValidHeap, Slack, FreedExactly, SameRecord, Upward;
    StructsHaveIds(h0);
    NothingTracked(h0);
    AbandonedMemory(h0, h1, id, h2);
    AboveRefl(h0);
    forall o | o in h0.tracker
      ensures SameRecord(h0.tracker[o], h2.tracker[o])
    {
      SamePairs(h0, h2, o);
    }
  }

  lemma WellFormedParts(j: Json)
    requires IsStructJson(j) && WellFormed(j)
    ensures ProperTable(ChildrenOf(j, "serialised"), ChildrenOf(j, "duplicates"))
    ensures forall k :: k in ChildrenOf(j, "serialised") ==> WellFormed(ChildrenOf(j, "serialised")[k])
  {
    hide ProperTable;
  }

  lemma SafeParts(j: Json)
    requires SafeStruct(j) && IsStructJson(j)
    ensures var ser := ChildrenOf(j, "serialised"); forall k :: k in ser ==> SafeItem(ser[k]) && ser[k] < j
  {
  }

  lemma FinishedFacts(h0: Heap, h: Heap, c: Id, id: string)
    requires UnderConstruction(h0, h, c, id)
    ensures ValidHeap(h) && Above(h0, h) && FreshExact(h0.next, h)
    ensures c == h0.next && c in h.fields && c in h.ids && h.ids[c] == id
  {
  }

  lemma IdGiven(j: Json, id: string)
    requires |id| == ID_LENGTH && (Member(j, "ID").Some? ==> Member(j, "ID").value.JStr? && Member(j, "ID").value.s <= id)
    ensures IdRead(j, id)
  {
  }

  lemma SafeId(j: Json)
    requires SafeStruct(j)
    ensures Member(j, "ID").Some? ==> Member(j, "ID").value.JStr? && |Member(j, "ID").value.s| <= ID_LENGTH
    ensures Member(j, "type").Some? ==> Member(j, "type").value.JStr?
  {
  }

  /** `rpc_struct_deserialize`: succeeds exactly on what says it is a struct and has items, and then
      returns a new struct beside an unchanged heap; for well-formed input the struct unfolds to what
      the input stands for, aliases included. */
  method Deserialize(w: World, j: Json) returns (r: Option<Id>, ghost t: Tree)
    requires w.Valid() && SafeStruct(j)
    modifies w
    ensures w.Valid() && Above(old(w.Snap()), w.Snap()) && FreshExact(old(w.next), w.Snap())
    ensures r.Some? <==> IsStructJson(j)
    ensures r.Some? ==> r.value == old(w.next) && r.value in w.fields
    ensures r == None ==> w.fields == old(w.fields) && w.leaves == old(w.leaves) && w.ids == old(w.ids)
    ensures r.Some? && WellFormed(j) ==>
              Reads(j, t) && UnfoldsFrom(old(w.next), w.Snap(), Ref(StructKind, r.value), t)
    decreases j, 1
  {
    hide ValidHeap, Above, FreshExact, Reads, UnfoldsFrom, FreedExactly, UnderConstruction, WithDuplicates, Proper, Agrees,
      SafeItem, ChildrenOf, WellFormed, Filled, ReadItems, ProperTable, Completed, AliasesBy, IdRead, SafeStruct, Added;
    ghost var h0 := w.Snap();
    t := TVoid;
    SafeId(j);
    var c := w.CreateStruct();
    var id := Member(j, "ID");
    if id.Some? {
      w.IdSet(c, id.value.s);
    }
    ghost var h1, name := w.Snap(), w.ids[c];
    ConstructionStarts(h0, h1, name);
    if Member(j, "type") != Some(JStr("RPC_struct")) || Member(j, "serialised") == None {
      w.FreeObject(c);
      Abandoned(h0, h1, name, w.Snap());
      return None, t;
    }
    SafeParts(j);
    IdGiven(j, name);
    var ser, dup := ChildrenOf(j, "serialised"), ChildrenOf(j, "duplicates");
    ghost var members := ParseItems(w, ser, c, h0, name, j);
    ghost var h := w.Snap();
    FinishedFacts(h0, h, c, name);
    var order := AnyOrder(dup.Keys);
    ParseDuplicates(w, dup, order, c, h0, name);
    FinishedFacts(h0, w.Snap(), c, name);
    if WellFormed(j) {
      WellFormedParts(j);
      ProperDuplicates(h, c, ser, dup, members);
      AddedProper(h.fields[c], dup, order);
      assert (set k | k in order) == dup.Keys;
      Rebuilt(h, w.Snap(), c, members, dup);
      WholeRead(j, members, name);
      t := TStruct(name, Completed(members, dup), AliasesBy(Completed(members, dup), dup));
    }
    r := Some(c);
  }
}
