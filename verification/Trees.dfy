/** The value a struct denotes once its references are followed, and its JSON form. */
module Trees {
  import opened Graph
  import opened Ownership

  /** JSON as jansson presents it; text encoding is not part of this model. */
  datatype Json =
    | JNull
    | JBool(b: bool)
    | JInt(v: int)
    | JReal(r: real)
    | JStr(s: string)
    | JArr(items: seq<Json>)
    | JObj(fields: map<string, Json>)

  /** A struct unfolded: `aliases` are the pairs of keys that hold the same object. */
  datatype Tree =
    | TVoid
    | TNum(length: nat, bits: nat)
    | TReal(length: nat, value: real)
    | TText(text: string)
    | TOpaque(pointer: nat)
    | TBuf(bytes: seq<nat>)
    | TFun(prototype: seq<nat>, returnType: nat, pointer: nat)
    | TStruct(id: string, members: map<Key, Tree>, aliases: set<(Key, Key)>)

  ghost function Aliases(m: map<Key, Elem>): set<(Key, Key)> {
    set a, b | a in m && b in m && m[a].Ref? && m[a] == m[b] :: (a, b)
  }

  /** Following the references of element `e` in heap `h`, all of them at or above `low`, gives `t`. */
  ghost predicate UnfoldsFrom(low: Id, h: Heap, e: Elem, t: Tree)
    decreases t
  {
    match t
    case TVoid => e == Void
    case TNum(length, bits) => e == Num(length, bits)
    case TReal(length, value) => e == Real(length, value)
    case TText(text) => e == Text(text)
    case TOpaque(pointer) => e == Opaque(pointer)
    case TBuf(bytes) =>
      e.Ref? && e.kind == BufKind && e.id >= low && e.id in h.leaves && h.leaves[e.id] == Buf(bytes)
    case TFun(prototype, returnType, pointer) =>
      && e.Ref? && e.kind == FunKind && e.id >= low
      && e.id in h.leaves && h.leaves[e.id] == Fun(prototype, returnType, pointer)
    case TStruct(id, members, aliases) =>
      && e.Ref? && e.kind == StructKind && e.id >= low
      && e.id in h.fields && e.id in h.ids && h.ids[e.id] == id
      && members.Keys == h.fields[e.id].Keys
      && aliases == Aliases(h.fields[e.id])
      && forall k :: k in members ==> UnfoldsFrom(low, h, h.fields[e.id][k], members[k])
  }

  ghost predicate Unfolds(h: Heap, e: Elem, t: Tree) {
    UnfoldsFrom(0, h, e, t)
  }

  /** `h'` has every object of `h` from `low` on, unchanged. */
  ghost predicate Agrees(low: Id, h: Heap, h': Heap) {
    && (forall o :: o in h.fields && o >= low ==> o in h'.fields && h'.fields[o] == h.fields[o])
    && (forall o :: o in h.ids && o >= low ==> o in h'.ids && h'.ids[o] == h.ids[o])
    && (forall o :: o in h.leaves && o >= low ==> o in h'.leaves && h'.leaves[o] == h.leaves[o])
  }

  lemma {:induction false} UnfoldsFrame(low: Id, h: Heap, h': Heap, e: Elem, t: Tree)
    requires UnfoldsFrom(low, h, e, t) && Agrees(low, h, h')
    ensures UnfoldsFrom(low, h', e, t)
    decreases t
  {
    if t.TStruct? {
      forall k | k in t.members
        ensures UnfoldsFrom(low, h', h'.fields[e.id][k], t.members[k])
      {
        UnfoldsFrame(low, h, h', h.fields[e.id][k], t.members[k]);
      }
    }
  }

  lemma {:induction false} UnfoldsLower(low: Id, low': Id, h: Heap, e: Elem, t: Tree)
    requires UnfoldsFrom(low, h, e, t) && low' <= low
    ensures UnfoldsFrom(low', h, e, t)
    decreases t
  {
    if t.TStruct? {
      forall k | k in t.members
        ensures UnfoldsFrom(low', h, h.fields[e.id][k], t.members[k])
      {
        UnfoldsLower(low, low', h, h.fields[e.id][k], t.members[k]);
      }
    }
  }

  /** What holds nothing unfolds the same in every heap. */
  lemma PlainUnfolds(h: Heap, e: Elem, t: Tree, low: Id, h': Heap)
    requires UnfoldsFrom(0, h, e, t) && !e.Ref?
    ensures UnfoldsFrom(low, h', e, t)
  {
  }

  /** The struct at the root of an unfolding has the tree's ID, keys and aliases. */
  lemma RootOf(low: Id, h: Heap, s: Id, t: Tree)
    requires t.TStruct? && UnfoldsFrom(low, h, Ref(StructKind, s), t)
    ensures s >= low && s in h.fields && s in h.ids && h.ids[s] == t.id
    ensures h.fields[s].Keys == t.members.Keys && Aliases(h.fields[s]) == t.aliases
  {
    hide Aliases;
  }

  /** An element has at most one unfolding. */
  lemma {:induction false} UnfoldsUnique(h: Heap, e: Elem, t: Tree, t': Tree)
    requires Unfolds(h, e, t) && Unfolds(h, e, t')
    ensures t == t'
    decreases t
  {
    if t.TStruct? {
      forall k | k in t.members
        ensures t.members[k] == t'.members[k]
      {
        UnfoldsUnique(h, h.fields[e.id][k], t.members[k], t'.members[k]);
      }
      assert t.members == t'.members;
    }
  }

  /** The unfolding of an element; references run out because containment is acyclic. */
  ghost function UnfoldingOf(h: Heap, rank: Id -> nat, e: Elem): (t: Tree)
    requires ValidHeap(h) && Ranked(h.fields, rank) && Fits(h, e)
    ensures Unfolds(h, e, t)
    decreases if e.Ref? then rank(e.id) + 1 else 0
  {
    match e
    case Void => TVoid
    case Num(length, bits) => TNum(length, bits)
    case Real(length, value) => TReal(length, value)
    case Text(text) => TText(text)
    case Opaque(pointer) => TOpaque(pointer)
    case Ref(StructKind, o) =>
      var m := h.fields[o];
      AllSlotsFit(h, o);
      TStruct(h.ids[o], map k | k in m :: UnfoldingOf(h, rank, m[k]), Aliases(m))
    case Ref(_, o) =>
      match h.leaves[o]
      case Buf(bytes) => TBuf(bytes)
      case Fun(prototype, returnType, pointer) => TFun(prototype, returnType, pointer)
  }

  lemma AllSlotsFit(h: Heap, s: Id)
    requires ValidHeap(h) && s in h.fields
    ensures s in h.ids
    ensures forall k :: k in h.fields[s] ==> Fits(h, h.fields[s][k])
  {
    StructsHaveIds(h);
    forall k | k in h.fields[s]
      ensures Fits(h, h.fields[s][k])
    {
      SlotFits(h, s, k);
    }
  }

  /** Every struct of a valid heap unfolds to exactly one tree. */
  lemma StructUnfolds(h: Heap, s: Id) returns (t: Tree)
    requires ValidHeap(h) && s in h.fields
    ensures Unfolds(h, Ref(StructKind, s), t) && t.TStruct?
    ensures forall t' :: Unfolds(h, Ref(StructKind, s), t') ==> t' == t
  {
    var rank: Id -> nat :| Ranked(h.fields, rank);
    t := UnfoldingOf(h, rank, Ref(StructKind, s));
    forall t' | Unfolds(h, Ref(StructKind, s), t')
      ensures t' == t
    {
      UnfoldsUnique(h, Ref(StructKind, s), t, t');
    }
  }
}
