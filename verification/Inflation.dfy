/** How much serialising raises reference counts: every visit of a struct counts its members once too
    often, and each distinct struct a struct holds is visited once per visit of the holder. */
module Inflation {
  import opened Graph
  import opened Ownership

  ghost predicate HoldsStruct(m: map<Key, Elem>, k: Key, x: Id) {
    k in m && m[k].Ref? && m[k].kind == StructKind && m[k].id == x
  }

  ghost function StructsIn(m: map<Key, Elem>): set<Id> {
    set k | k in m && m[k].Ref? && m[k].kind == StructKind :: m[k].id
  }

  lemma InStructs(m: map<Key, Elem>, x: Id)
    ensures x in StructsIn(m) <==> exists k :: HoldsStruct(m, k, x)
  {
    if x in StructsIn(m) {
      var k :| k in m && m[k].Ref? && m[k].kind == StructKind && x == m[k].id;
      assert HoldsStruct(m, k, x);
    }
  }

  lemma SameStructs(m: map<Key, Elem>, m': map<Key, Elem>)
    requires forall k, x :: HoldsStruct(m, k, x) ==> exists j :: HoldsStruct(m', j, x)
    requires forall k, x :: HoldsStruct(m', k, x) ==> exists j :: HoldsStruct(m, j, x)
    ensures StructsIn(m) == StructsIn(m')
  {
    hide HoldsStruct, StructsIn;
    forall x
      ensures x in StructsIn(m) <==> x in StructsIn(m')
    {
      InStructs(m, x);
      InStructs(m', x);
    }
  }

  /** What one visit of struct `s`, with the visits it entails, adds to the count of `o`. */
  ghost function Extra(f: Fields, rank: Id -> nat, s: Id, o: Id): nat
    requires Ranked(f, rank)
    decreases rank(s) + 1, 0
  {
    if s in f then |KeysHolding(f[s], o)| + ExtraOver(f, rank, StructsIn(f[s]), rank(s), o) else 0
  }

  ghost function ExtraOver(f: Fields, rank: Id -> nat, visited: set<Id>, bound: nat, o: Id): nat
    requires Ranked(f, rank) && forall x :: x in visited ==> rank(x) < bound
    decreases bound, |visited| + 1
  {
    if visited == {} then 0
    else
      var x :| x in visited;
      Extra(f, rank, x, o) + ExtraOver(f, rank, visited - {x}, bound, o)
  }

  /** The order of visits does not matter. */
  lemma {:induction false} ExtraSplit(f: Fields, rank: Id -> nat, visited: set<Id>, bound: nat, o: Id, x: Id)
    requires Ranked(f, rank) && (forall y :: y in visited ==> rank(y) < bound) && x in visited
    ensures ExtraOver(f, rank, visited, bound, o) == Extra(f, rank, x, o) + ExtraOver(f, rank, visited - {x}, bound, o)
    decreases |visited|
  {
    hide Extra, Ranked;
    var y :| y in visited
             && ExtraOver(f, rank, visited, bound, o) == Extra(f, rank, y, o) + ExtraOver(f, rank, visited - {y}, bound, o);
    if y != x {
      ExtraSplit(f, rank, visited - {y}, bound, o, x);
      ExtraSplit(f, rank, visited - {x}, bound, o, y);
      assert visited - {x} - {y} == visited - {y} - {x};
    }
  }

  ghost predicate SlackSame(h: Heap, h': Heap) {
    h'.tracker.Keys == h.tracker.Keys && forall o :: o in h.tracker ==> Slack(h'.tracker[o]) == Slack(h.tracker[o])
  }

  lemma SlackSameTrans(a: Heap, b: Heap, c: Heap)
    requires SlackSame(a, b) && SlackSame(b, c)
    ensures SlackSame(a, c)
  {
    hide Slack;
  }

  /** Counts have grown as by one visit of each struct in `visited`. */
  ghost predicate GrewOver(h: Heap, h': Heap, f: Fields, rank: Id -> nat, visited: set<Id>, bound: nat) {
    && Ranked(f, rank) && (forall x :: x in visited ==> rank(x) < bound) && h'.tracker.Keys == h.tracker.Keys
    && forall o :: o in h.tracker ==> Slack(h'.tracker[o]) == Slack(h.tracker[o]) + ExtraOver(f, rank, visited, bound, o)
  }

  /** Counts have grown as by one visit of struct `s`. */
  ghost predicate GrewBy(h: Heap, h': Heap, f: Fields, rank: Id -> nat, s: Id) {
    && Ranked(f, rank) && h'.tracker.Keys == h.tracker.Keys
    && forall o :: o in h.tracker ==> Slack(h'.tracker[o]) == Slack(h.tracker[o]) + Extra(f, rank, s, o)
  }

  /** Element `e` has been visited: only a struct makes counts grow. */
  ghost predicate GrewElem(h: Heap, h': Heap, f: Fields, rank: Id -> nat, e: Elem) {
    if e.Ref? && e.kind == StructKind then GrewBy(h, h', f, rank, e.id) else SlackSame(h, h')
  }

  lemma GrewNothing(h: Heap, f: Fields, rank: Id -> nat, bound: nat)
    requires Ranked(f, rank)
    ensures GrewOver(h, h, f, rank, {}, bound)
  {
    hide Slack;
  }

  lemma GrewOneMore(a: Heap, b: Heap, c: Heap, f: Fields, rank: Id -> nat, visited: set<Id>, bound: nat, x: Id)
    requires GrewOver(a, b, f, rank, visited, bound) && GrewBy(b, c, f, rank, x) && x !in visited && rank(x) < bound
    ensures GrewOver(a, c, f, rank, visited + {x}, bound)
  {
    hide Slack, Extra, ExtraOver, Ranked;
    assert visited + {x} - {x} == visited;
    forall o | o in a.tracker
      ensures Slack(c.tracker[o]) == Slack(a.tracker[o]) + ExtraOver(f, rank, visited + {x}, bound, o)
    {
      ExtraSplit(f, rank, visited + {x}, bound, o, x);
    }
  }

  lemma GrewNoMore(a: Heap, b: Heap, c: Heap, f: Fields, rank: Id -> nat, visited: set<Id>, bound: nat)
    requires GrewOver(a, b, f, rank, visited, bound) && SlackSame(b, c)
    ensures GrewOver(a, c, f, rank, visited, bound)
  {
    hide Slack, ExtraOver, Ranked;
  }

  /** Copying counts the members once more; the structs held are visited in between. */
  lemma GrewInAll(a: Heap, b: Heap, c: Heap, f: Fields, rank: Id -> nat, s: Id)
    requires Ranked(f, rank) && s in f && b.tracker.Keys == a.tracker.Keys
    requires forall o :: o in a.tracker ==> Slack(b.tracker[o]) == Slack(a.tracker[o]) + |KeysHolding(f[s], o)|
    requires GrewOver(b, c, f, rank, StructsIn(f[s]), rank(s))
    ensures GrewBy(a, c, f, rank, s)
  {
    hide Slack, ExtraOver, KeysHolding, Ranked;
  }

  /** What the visited struct holds is pinned: its count can no longer reach zero slot by slot. */
  lemma HeldIsPinned(h: Heap, h': Heap, f: Fields, rank: Id -> nat, s: Id, k: Key)
    requires ValidHeap(h) && GrewBy(h, h', f, rank, s) && s in f && k in f[s] && f[s][k].Ref? && f[s][k].id in h.tracker
    ensures Slack(h'.tracker[f[s][k].id]) > 0
  {
    hide Pairs, Slack, Intact, Acyclic, ExtraOver;
    var o := f[s][k].id;
    assert k in KeysHolding(f[s], o);
    assert |KeysHolding(f[s], o)| > 0;
  }

  /** `f` is a part of the heap that is closed under holding structs. */
  ghost predicate Region(h: Heap, f: Fields, rank: Id -> nat) {
    && Ranked(f, rank)
    && (forall x :: x in f ==> x in h.fields && h.fields[x] == f[x])
    && (forall x, k :: x in f && k in f[x] && f[x][k].Ref? && f[x][k].kind == StructKind ==> f[x][k].id in f)
  }

  lemma WholeRegion(h: Heap, rank: Id -> nat)
    requires ValidHeap(h) && Ranked(h.fields, rank)
    ensures Region(h, h.fields, rank)
  {
    hide ValidHeap;
    forall x, k | x in h.fields && k in h.fields[x] && h.fields[x][k].Ref? && h.fields[x][k].kind == StructKind
      ensures h.fields[x][k].id in h.fields
    {
      SlotFits(h, x, k);
    }
  }

  lemma SomeRank(h: Heap) returns (rank: Id -> nat)
    requires ValidHeap(h)
    ensures Ranked(h.fields, rank)
  {
    rank :| Ranked(h.fields, rank);
  }

  /** No object is held under two keys of `m`. */
  ghost predicate HeldOnce(m: map<Key, Elem>) {
    forall a, b :: a in m && b in m && m[a].Ref? && m[b].Ref? && m[a].id == m[b].id ==> a == b
  }

  lemma StructsOneMore(m: map<Key, Elem>, rest: set<Key>, k: Key)
    requires k in m && k in rest && HeldOnce(m)
    ensures var before, after := StructsIn(m - rest), StructsIn(m - (rest - {k}));
            if m[k].Ref? && m[k].kind == StructKind then m[k].id !in before && after == before + {m[k].id} else after == before
  {
    hide StructsIn;
    var before, after := m - rest, m - (rest - {k});
    forall x
      ensures x in StructsIn(after) <==> x in StructsIn(before) || HoldsStruct(m, k, x)
    {
      InStructs(before, x);
      InStructs(after, x);
      assert forall j :: HoldsStruct(before, j, x) ==> HoldsStruct(after, j, x);
      assert forall j :: HoldsStruct(after, j, x) ==> HoldsStruct(before, j, x) || (j == k && HoldsStruct(m, k, x));
      assert HoldsStruct(m, k, x) ==> HoldsStruct(after, k, x);
    }
    if m[k].Ref? {
      InStructs(before, m[k].id);
    }
  }
}
