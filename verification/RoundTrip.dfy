/** Serialising a struct and reading it back. */
module RoundTrip {
  import opened Wrappers
  import opened Graph
  import opened Ownership
  import opened Trees
  import opened World
  import opened Building
  import opened Codec
  import opened Inflation
  import opened Duplicates
  import opened Orders
  import opened Reading
  import opened Forms
  import opened Serialise
  import opened Deserialise

  /** What two heaps that share objects from both ends of the round trip have in common. */
  lemma SettledThenAbove(h0: Heap, h1: Heap, h2: Heap)
    requires ValidHeap(h1) && Settled(h0, h1) && Above(h1, h2)
    ensures Agrees(0, h0, h2)
  {
    hide ValidHeap, Above, Slack;
    AboveAgrees(0, h1, h2);
  }

  /** The ID written is the ID read. */
  lemma SameId(j: Json, id: string, t: Tree)
    requires Reads(j, t) && IsStructJson(j) && Member(j, "ID") == Some(JStr(id)) && |id| == ID_LENGTH
    ensures t.TStruct? && t.id == id
  {
    hide ReadTable;
    TypeNames();
  }

  /** What the new struct unfolds to is what was read, so it is the original, normalised, just when the
      input stands for that. */
  lemma BackIff(low: Id, h: Heap, r: Id, j: Json, t: Tree, t': Tree)
    requires Reads(j, t') && UnfoldsFrom(low, h, Ref(StructKind, r), t')
    requires Encodes(t, j) <==> Reads(j, Norm(t))
    ensures UnfoldsFrom(low, h, Ref(StructKind, r), Norm(t)) <==> Reads(j, Norm(t))
  {
    hide Reads, UnfoldsFrom, Encodes, Norm;
    if Encodes(t, j) {
      EncodesReads(t, j, t');
    }
    if UnfoldsFrom(low, h, Ref(StructKind, r), Norm(t)) {
      UnfoldsLower(low, 0, h, Ref(StructKind, r), Norm(t));
      UnfoldsLower(low, 0, h, Ref(StructKind, r), t');
      UnfoldsUnique(h, Ref(StructKind, r), Norm(t), t');
    }
  }

  /** What a member `e` of heap `h` is under key `k` of a struct with members `m` of heap `h'`: numbers and
      reals are 64 bits wide with their old values, texts, bytes and types are the same, function
      pointers are NULL, structs have the same ID, and raw pointers and RPC_none are gone. */
  ghost predicate MemberBack(h: Heap, e: Elem, h': Heap, m: map<Key, Elem>, k: Key) {
    match e
    case Void => k !in m
    case Opaque(_) => k !in m
    case Num(length, bits) => k in m && m[k].Num? && (InWidth(length, bits) ==> m[k] == Num(8, bits))
    case Real(length, value) => k in m && m[k].Real? && (length == 4 || length == 8 ==> m[k] == Real(8, value))
    case Text(text) => k in m && m[k] == Text(text)
    case Ref(StructKind, o) =>
      && k in m && m[k].Ref? && m[k].kind == StructKind
      && m[k].id in h'.ids && o in h.ids && h'.ids[m[k].id] == h.ids[o]
    case Ref(kind, o) =>
      && k in m && m[k].Ref? && m[k].kind == kind && m[k].id in h'.leaves && o in h.leaves
      && LeafBack(h.leaves[o], h'.leaves[m[k].id])
  }

  ghost predicate LeafBack(leaf: Leaf, leaf': Leaf) {
    match leaf
    case Buf(bytes) =>
      leaf'.Buf? && ((forall i :: 0 <= i < |bytes| ==> bytes[i] < 256) ==> leaf' == Buf(bytes))
    case Fun(prototype, returnType, _) =>
      && leaf'.Fun? && leaf'.pointer == 0
      && ((forall i :: 0 <= i < |prototype| ==> prototype[i] < 0x1_0000_0000) && returnType < 0x1_0000_0000 ==>
            leaf' == Fun(prototype, returnType, 0))
  }

  lemma ElemBack(h: Heap, e: Elem, t: Tree, low: Id, h': Heap, m: map<Key, Elem>, k: Key)
    requires Unfolds(h, e, t)
    requires k in m <==> !t.TOpaque? && !t.TVoid?
    requires k in m ==> UnfoldsFrom(low, h', m[k], Norm(t))
    ensures MemberBack(h, e, h', m, k)
  {
    match t {
      case TNum(length, bits) => ScalarsComeBack(length, bits, 0, 0.0, "");
      case TReal(length, value) => ScalarsComeBack(0, 0, length, value, "");
      case TBuf(bytes) => LeavesComeBack(bytes, [], 0, 0);
      case TFun(prototype, returnType, pointer) => LeavesComeBack([], prototype, returnType, pointer);
      case TStruct(_, _, _) => MembersComeBack(t);
      case _ =>
    }
  }

  /** A struct that unfolds to the normalised tree of another has its members, as far as they are written. */
  lemma MembersBack(h: Heap, s: Id, t: Tree, low: Id, h': Heap, r: Id)
    requires s in h.fields && Unfolds(h, Ref(StructKind, s), t) && r in h'.fields
    requires UnfoldsFrom(low, h', Ref(StructKind, r), Norm(t))
    ensures forall k :: k in h'.fields[r] ==> k in h.fields[s]
    ensures forall k :: k in h.fields[s] ==> MemberBack(h, h.fields[s][k], h', h'.fields[r], k)
  {
    hide Norm, MemberBack;
    MemberOf(h, s, t);
    MembersComeBack(t);
    RootOf(low, h', r, Norm(t));
    forall k | k in h.fields[s]
      ensures MemberBack(h, h.fields[s][k], h', h'.fields[r], k)
    {
      ElemBack(h, h.fields[s][k], t.members[k], low, h', h'.fields[r], k);
    }
  }

  lemma AliasesCome(j: Json, m: map<Key, Elem>, order: seq<Key>, t: Tree)
    requires (forall k :: k in order ==> k in m) && AliasesBack(j, m, order) && Reads(j, t)
    ensures t.TStruct? && (t.aliases == Aliases(m) <==> Clean(m, order))
  {
  }

  /** The round trip. Deserialising what serialising wrote always gives a struct with the original's ID,
      and everything that was in memory before, the original included, is as it was. The new struct
      consists of new objects and unfolds to the original's unfolding, normalised, exactly when no
      struct reached from the original has a late visit in the order its hash map gives. Its keys alias
      exactly as those of the original when no visit of the original itself is late. Its members are those
      of the original as `MemberBack` says. */
  method SerialiseThenDeserialise(w: World, s: Id, orders: map<Id, seq<Key>>) returns (j: Json, r: Id)
    requires w.Valid() && s in w.fields && Ordered(w.fields, orders)
    modifies w
    ensures w.Valid() && Agrees(0, old(w.Snap()), w.Snap()) && r in w.fields
    ensures r in w.ids && s in old(w.ids) && w.ids[r] == old(w.ids)[s]
    ensures forall t :: Unfolds(old(w.Snap()), Ref(StructKind, s), t) ==>
              (Encodes(t, j) <==> old(AllClean(w.fields, orders, s)))
    ensures forall t :: Unfolds(old(w.Snap()), Ref(StructKind, s), t) ==>
              (UnfoldsFrom(old(w.next), w.Snap(), Ref(StructKind, r), Norm(t)) <==> old(AllClean(w.fields, orders, s)))
    ensures Aliases(w.fields[r]) == Aliases(old(w.fields)[s]) <==> Clean(old(w.fields)[s], orders[s])
    ensures old(AllClean(w.fields, orders, s)) ==>
              && (forall k :: k in w.fields[r] ==> k in old(w.fields)[s])
              && forall k :: k in old(w.fields)[s] ==>
                   MemberBack(old(w.Snap()), old(w.fields)[s][k], w.Snap(), w.fields[r], k)
  {
    hide ValidHeap, Above, Settled, Encodes, Norm, UnfoldsFrom, SafeStruct, SafeItem, FreshExact, Aliases, Reads,
      WellFormed, IsStructJson, Yields, AllClean, Clean, AliasesBack, Ordered, Member, MemberBack;
    OrderOf(w.fields, orders, s);
    ghost var h0 := w.Snap();
    ghost var t := StructUnfolds(h0, s);
    MemberOf(h0, s, t);
    StructsHaveIds(h0);
    ghost var rank: Id -> nat := SomeRank(h0);
    j := SerializeStruct(w, s, orders, rank);
    ghost var h1 := w.Snap();
    var result;
    ghost var t';
    result, t' := Deserialize(w, j);
    r := result.value;
    SettledThenAbove(h0, h1, w.Snap());
    SettledNext(h0, h1);
    UnfoldsLower(h1.next, h0.next, w.Snap(), Ref(StructKind, r), t');
    SameId(j, h0.ids[s], t');
    RootOf(h0.next, w.Snap(), r, t');
    BackIff(h0.next, w.Snap(), r, j, t, t');
    AliasesCome(j, h0.fields[s], orders[s], t');
    if AllClean(h0.fields, orders, s) {
      MembersBack(h0, s, t, h0.next, w.Snap(), r);
    }
  }

  lemma SettledNext(h: Heap, h': Heap)
    requires Settled(h, h')
    ensures h.next <= h'.next
  {
  }
}
