/** Linear probing over a table of slots, as pure facts about sequences.
    `HashMap` performs the updates in place; the lemmas here say what each update preserves. */
module ProbeTable {
  import opened Wrappers
  import opened Bits

  /** One `struct hashmap_entry`; a NULL key marks an empty slot. */
  datatype Slot<K, V> = Slot(key: Option<K>, data: Option<V>)

  datatype Entry<K, V> = Entry(key: K, data: V)

  /** The caller's hash and compare functions. Two keys compare equal iff `norm` maps them to the
      same value, so compare is an arbitrary equivalence and the hash respects it. */
  datatype Keying<!K, !C> = Keying(norm: K -> C, hash: C -> nat)

  ghost predicate Occ<K, V>(s: seq<Slot<K, V>>, i: int) {
    0 <= i < |s| && s[i].key.Some?
  }

  ghost function Occupied<K, V>(s: seq<Slot<K, V>>): set<int> {
    set i | 0 <= i < |s| && Occ(s, i)
  }

  /** The class of the key in an occupied slot. */
  ghost function ClassAt<K, C, V>(kg: Keying<K, C>, s: seq<Slot<K, V>>, i: int): C
    requires Occ(s, i)
  {
    kg.norm(s[i].key.value)
  }

  /** The slot where probing for the key in slot `i` starts. */
  ghost function HomeAt<K, C, V>(kg: Keying<K, C>, s: seq<Slot<K, V>>, i: int): (h: nat)
    requires Occ(s, i)
    ensures h < |s|
  {
    HomeOf(kg, ClassAt(kg, s, i), |s|)
  }

  ghost function HomeOf<K, C>(kg: Keying<K, C>, c: C, n: nat): (h: nat)
    requires n > 0
    ensures h < n
  {
    kg.hash(c) % n
  }

  /** Every slot from `h` up to but excluding `i` is occupied. */
  ghost predicate PathFull<K, V>(s: seq<Slot<K, V>>, h: nat, i: nat)
    requires h < |s| && i < |s|
  {
    forall m: nat :: m < |s| && Dist(h, m, |s|) < Dist(h, i, |s|) ==> Occ(s, m)
  }

  /** No probe for a stored key meets an empty slot before the key. */
  ghost predicate ProbeOk<K, C, V>(kg: Keying<K, C>, s: seq<Slot<K, V>>) {
    forall i: nat :: i < |s| && Occ(s, i) ==> PathFull(s, HomeAt(kg, s, i), i)
  }

  ghost predicate KeysDistinct<K, C, V>(kg: Keying<K, C>, s: seq<Slot<K, V>>) {
    forall i, j :: Occ(s, i) && Occ(s, j) && i != j ==> ClassAt(kg, s, i) != ClassAt(kg, s, j)
  }

  /** Empty slots hold no data and occupied ones always do. */
  ghost predicate DataOk<K, V>(s: seq<Slot<K, V>>) {
    forall i :: 0 <= i < |s| ==> (Occ(s, i) <==> s[i].data.Some?)
  }

  ghost predicate Holds<K, C, V>(kg: Keying<K, C>, s: seq<Slot<K, V>>, i: int, c: C) {
    Occ(s, i) && ClassAt(kg, s, i) == c
  }

  /** The slots hold exactly the entries of `m`. */
  ghost predicate Represents<K, C, V>(kg: Keying<K, C>, s: seq<Slot<K, V>>, m: map<C, Entry<K, V>>) {
    && (forall i :: Occ(s, i) && s[i].data.Some? ==>
          ClassAt(kg, s, i) in m && m[ClassAt(kg, s, i)] == Entry(s[i].key.value, s[i].data.value))
    && (forall c :: c in m ==> exists i :: Holds(kg, s, i, c))
  }

  ghost predicate Inv<K, C, V>(kg: Keying<K, C>, s: seq<Slot<K, V>>, m: map<C, Entry<K, V>>) {
    && ProbeOk(kg, s)
    && KeysDistinct(kg, s)
    && DataOk(s)
    && Represents(kg, s, m)
    && |Occupied(s)| == |m|
  }

  // ---------- counting slots ----------

  lemma AtStart(r: nat, n: nat)
    requires r < n && 1 < n
    ensures Dist(r, r, n) == 0 && At(r, 0, n) == r && Next(r, n) == At(r, 1, n)
  {
  }

  lemma NextOfAt(r: nat, d: nat, n: nat)
    requires r < n && d + 1 < n
    ensures Next(At(r, d, n), n) == At(r, d + 1, n)
  {
  }

  ghost function Arc(r: nat, k: nat, n: nat): set<int>
    requires r < n
  {
    set m: int | 0 <= m < n && Dist(r, m, n) < k
  }

  lemma {:induction false} ArcSize(r: nat, k: nat, n: nat)
    requires r < n && k <= n
    ensures |Arc(r, k, n)| == k
  {
    if k == 0 {
      assert Arc(r, 0, n) == {};
    } else {
      ArcSize(r, k - 1, n);
      assert Arc(r, k, n) == Arc(r, k - 1, n) + {At(r, k - 1, n)};
    }
  }

  lemma SubsetOfSameSize<T>(a: set<T>, b: set<T>)
    requires a <= b && |a| == |b|
    ensures a == b
  {
    assert |b - a| == |b| - |a|;
    assert b == a + (b - a);
  }

  /** A table without empty slots holds as many keys as it has slots. */
  lemma FullTable<K, V>(s: seq<Slot<K, V>>)
    requires forall i :: 0 <= i < |s| ==> Occ(s, i)
    ensures |Occupied(s)| == |s|
  {
    if |s| == 0 {
      assert Occupied(s) == {};
    } else {
      ArcSize(0, |s|, |s|);
      assert Occupied(s) == Arc(0, |s|, |s|);
    }
  }

  lemma CountBound<K, C, V>(kg: Keying<K, C>, s: seq<Slot<K, V>>, m: map<C, Entry<K, V>>)
    requires Inv(kg, s, m)
    ensures |m| <= |s|
  {
    if |s| == 0 {
      assert Occupied(s) == {};
    } else {
      ArcSize(0, |s|, |s|);
      SubsetSize(Occupied(s), Arc(0, |s|, |s|));
    }
  }

  /** A table with an empty slot holds fewer keys than it has slots. */
  lemma EmptySlotLeavesRoom<K, V>(s: seq<Slot<K, V>>, e: nat)
    requires e < |s| && !Occ(s, e)
    ensures |Occupied(s)| < |s|
  {
    ArcSize(0, |s|, |s|);
    SubsetSize(Occupied(s) + {e}, Arc(0, |s|, |s|));
  }

  /** The first `k` slots from `r` on are occupied. */
  ghost predicate RunFull<K, V>(s: seq<Slot<K, V>>, r: nat, k: nat)
    requires r < |s|
  {
    forall i: nat :: i < |s| && Dist(r, i, |s|) < k ==> Occ(s, i)
  }

  ghost predicate SameOccupancy<K, V>(a: seq<Slot<K, V>>, b: seq<Slot<K, V>>) {
    |a| == |b| && forall i :: 0 <= i < |a| ==> (Occ(a, i) <==> Occ(b, i))
  }

  lemma RunStarts<K, V>(s: seq<Slot<K, V>>, r: nat)
    requires Occ(s, r)
    ensures RunFull(s, r, 1) && SameOccupancy(s, s)
  {
  }

  lemma ExtendRun<K, V>(s: seq<Slot<K, V>>, a: seq<Slot<K, V>>, r: nat, k: nat)
    requires r < |s| && k < |s| && RunFull(s, r, k) && SameOccupancy(a, s) && Occ(a, At(r, k, |s|))
    ensures RunFull(s, r, k + 1)
  {
  }

  lemma FillKeepsOccupancy<K, V>(a: seq<Slot<K, V>>, b: seq<Slot<K, V>>, r: nat, e: Slot<K, V>)
    requires SameOccupancy(a, b) && Occ(b, r) && e.key.Some?
    ensures SameOccupancy(a[r := e], b)
  {
  }

  /** If as many slots from `r` on are occupied as there are keys, the next slot ends the cluster.
      This is why the deletion loop may be bounded by the number of keys. */
  lemma ClusterEnds<K, C, V>(kg: Keying<K, C>, s: seq<Slot<K, V>>, a: seq<Slot<K, V>>,
                             m: map<C, Entry<K, V>>, r: nat)
    requires Inv(kg, s, m) && r < |s| && |m| < |s| && RunFull(s, r, |m|) && SameOccupancy(a, s)
    ensures !Occ(a, At(r, |m|, |s|))
  {
    ArcSize(r, |m|, |s|);
    assert Arc(r, |m|, |s|) <= Occupied(s);
    SubsetOfSameSize(Arc(r, |m|, |s|), Occupied(s));
    assert At(r, |m|, |s|) !in Arc(r, |m|, |s|);
  }

  // ---------- searching ----------

  /** Probing for a class: the first `k` slots from `h` are occupied by other classes. */
  ghost predicate Missed<K, C, V>(kg: Keying<K, C>, s: seq<Slot<K, V>>, c: C, h: nat, k: nat)
    requires h < |s|
  {
    forall m: nat :: m < |s| && Dist(h, m, |s|) < k ==> Occ(s, m) && ClassAt(kg, s, m) != c
  }

  lemma MissOne<K, C, V>(kg: Keying<K, C>, s: seq<Slot<K, V>>, c: C, h: nat, k: nat)
    requires h < |s| && k < |s| && Missed(kg, s, c, h, k)
    requires Occ(s, At(h, k, |s|)) && ClassAt(kg, s, At(h, k, |s|)) != c
    ensures Missed(kg, s, c, h, k + 1)
    ensures k + 1 < |s| ==> Next(At(h, k, |s|), |s|) == At(h, k + 1, |s|)
  {
  }

  lemma EmptySlotMeansAbsent<K, C, V>(kg: Keying<K, C>, s: seq<Slot<K, V>>, m: map<C, Entry<K, V>>, c: C,
                                      h: nat, k: nat)
    requires Inv(kg, s, m) && k < |s| && h == HomeOf(kg, c, |s|)
    requires Missed(kg, s, c, h, k) && !Occ(s, At(h, k, |s|))
    ensures c !in m
    ensures PathFull(s, h, At(h, k, |s|))
  {
    assert forall j :: !Holds(kg, s, j, c);
  }

  lemma AllMissedMeansAbsent<K, C, V>(kg: Keying<K, C>, s: seq<Slot<K, V>>, m: map<C, Entry<K, V>>, c: C)
    requires Inv(kg, s, m) && |s| > 0 && Missed(kg, s, c, HomeOf(kg, c, |s|), |s|)
    ensures c !in m
    ensures |m| == |s|
  {
    FullTable(s);
    assert forall j :: !Holds(kg, s, j, c);
  }

  /** A found slot carries the data of its class, an empty one none. */
  lemma SlotData<K, C, V>(kg: Keying<K, C>, s: seq<Slot<K, V>>, m: map<C, Entry<K, V>>, i: nat)
    requires Inv(kg, s, m) && i < |s|
    ensures Occ(s, i) ==> ClassAt(kg, s, i) in m && s[i].data.Some?
                          && m[ClassAt(kg, s, i)] == Entry(s[i].key.value, s[i].data.value)
    ensures !Occ(s, i) ==> s[i].data == None
  {
  }

  // ---------- storing ----------

  lemma EmptyTable<K, C, V>(kg: Keying<K, C>, s: seq<Slot<K, V>>)
    requires forall i :: 0 <= i < |s| ==> s[i] == Slot(None, None)
    ensures Inv(kg, s, map[])
  {
    assert Occupied(s) == {};
  }

  lemma AddKeepsProbes<K, C, V>(kg: Keying<K, C>, s: seq<Slot<K, V>>, e: nat, k: K, v: V)
    requires ProbeOk(kg, s) && e < |s| && !Occ(s, e)
    requires PathFull(s, HomeOf(kg, kg.norm(k), |s|), e)
    ensures ProbeOk(kg, s[e := Slot(Some(k), Some(v))])
    ensures Occupied(s[e := Slot(Some(k), Some(v))]) == Occupied(s) + {e}
  {
    var s' := s[e := Slot(Some(k), Some(v))];
    forall i: nat | i < |s'| && Occ(s', i)
      ensures PathFull(s', HomeAt(kg, s', i), i)
    {
      if i != e {
        assert PathFull(s, HomeAt(kg, s, i), i);
      }
    }
  }

  lemma AddRepresents<K, C, V>(kg: Keying<K, C>, s: seq<Slot<K, V>>, m: map<C, Entry<K, V>>, e: nat, k: K, v: V)
    requires KeysDistinct(kg, s) && Represents(kg, s, m) && DataOk(s) && e < |s| && !Occ(s, e)
    requires kg.norm(k) !in m
    ensures var s' := s[e := Slot(Some(k), Some(v))];
            KeysDistinct(kg, s') && Represents(kg, s', m[kg.norm(k) := Entry(k, v)]) && DataOk(s')
  {
    var s', c := s[e := Slot(Some(k), Some(v))], kg.norm(k);
    var m' := m[c := Entry(k, v)];
    forall i | Occ(s', i)
      ensures i != e ==> Occ(s, i) && ClassAt(kg, s, i) in m
    {
    }
    forall d | d in m'
      ensures exists i :: Holds(kg, s', i, d)
    {
      if d == c {
        assert Holds(kg, s', e, d);
      } else {
        var i :| Holds(kg, s, i, d);
        assert Holds(kg, s', i, d);
      }
    }
  }

  lemma AddEntry<K, C, V>(kg: Keying<K, C>, s: seq<Slot<K, V>>, m: map<C, Entry<K, V>>, e: nat, k: K, v: V)
    requires Inv(kg, s, m) && e < |s| && !Occ(s, e)
    requires kg.norm(k) !in m
    requires PathFull(s, HomeOf(kg, kg.norm(k), |s|), e)
    ensures Inv(kg, s[e := Slot(Some(k), Some(v))], m[kg.norm(k) := Entry(k, v)])
  {
    AddKeepsProbes(kg, s, e, k, v);
    AddRepresents(kg, s, m, e, k, v);
  }

  lemma ReplaceKeepsProbes<K, C, V>(kg: Keying<K, C>, s: seq<Slot<K, V>>, i: nat, v: V)
    requires ProbeOk(kg, s) && Occ(s, i)
    ensures ProbeOk(kg, s[i := s[i].(data := Some(v))])
    ensures Occupied(s[i := s[i].(data := Some(v))]) == Occupied(s)
  {
    var s' := s[i := s[i].(data := Some(v))];
    assert forall j :: Occ(s', j) <==> Occ(s, j);
    forall j: nat | j < |s'| && Occ(s', j)
      ensures PathFull(s', HomeAt(kg, s', j), j)
    {
      assert PathFull(s, HomeAt(kg, s, j), j);
    }
  }

  lemma ReplaceRepresents<K, C, V>(kg: Keying<K, C>, s: seq<Slot<K, V>>, m: map<C, Entry<K, V>>, i: nat, v: V)
    requires KeysDistinct(kg, s) && Represents(kg, s, m) && DataOk(s) && Occ(s, i)
    ensures var c, s' := ClassAt(kg, s, i), s[i := s[i].(data := Some(v))];
            && c in m && KeysDistinct(kg, s') && DataOk(s')
            && Represents(kg, s', m[c := Entry(s[i].key.value, v)])
  {
    var s', c := s[i := s[i].(data := Some(v))], ClassAt(kg, s, i);
    var m' := m[c := Entry(s[i].key.value, v)];
    assert forall j :: Occ(s', j) ==> Occ(s, j) && ClassAt(kg, s', j) == ClassAt(kg, s, j);
    forall d | d in m'
      ensures exists j :: Holds(kg, s', j, d)
    {
      var j :| Holds(kg, s, j, d);
      assert Holds(kg, s', j, d);
    }
  }

  lemma ReplaceData<K, C, V>(kg: Keying<K, C>, s: seq<Slot<K, V>>, m: map<C, Entry<K, V>>, i: nat, v: V)
    requires Inv(kg, s, m) && Occ(s, i)
    ensures var c := ClassAt(kg, s, i);
            c in m && Inv(kg, s[i := s[i].(data := Some(v))], m[c := Entry(s[i].key.value, v)])
  {
    ReplaceKeepsProbes(kg, s, i, v);
    ReplaceRepresents(kg, s, m, i, v);
    var c := ClassAt(kg, s, i);
    var m' := m[c := Entry(s[i].key.value, v)];
    assert m'.Keys == m.Keys;
    assert |m'.Keys| == |m'| && |m.Keys| == |m|;
  }

  // ---------- backward-shift deletion ----------

  /** Between `from` and the slot `index` about to be examined the table has a hole at `hole`:
      probes are intact except those that pass over the hole for keys not examined yet. */
  ghost predicate Shifting<K, C, V>(kg: Keying<K, C>, s: seq<Slot<K, V>>, hole: nat, index: nat)
    requires hole < |s| && index < |s|
  {
    && !Occ(s, hole)
    && (forall m: nat :: m < |s| && 0 < Dist(hole, m, |s|) < Dist(hole, index, |s|) ==> Occ(s, m))
    && (forall j: nat :: j < |s| && Occ(s, j) ==> PathAlmostFull(s, HomeAt(kg, s, j), j, hole, index))
  }

  /** The path from `h` to `j` has no empty slot but possibly `hole`, and that only if `j` is at or
      beyond `index`. */
  ghost predicate PathAlmostFull<K, V>(s: seq<Slot<K, V>>, h: nat, j: nat, hole: nat, index: nat)
    requires h < |s| && j < |s| && hole < |s| && index < |s|
  {
    && (forall m: nat :: m < |s| && Dist(h, m, |s|) < Dist(h, j, |s|) && m != hole ==> Occ(s, m))
    && (Dist(h, hole, |s|) < Dist(h, j, |s|) ==> Dist(hole, j, |s|) >= Dist(hole, index, |s|))
  }

  /** Clearing a slot opens the hole. */
  lemma OpenHole<K, C, V>(kg: Keying<K, C>, s: seq<Slot<K, V>>, r: nat)
    requires ProbeOk(kg, s) && Occ(s, r) && |s| > 1
    ensures Shifting(kg, s[r := Slot(None, None)], r, Next(r, |s|))
  {
    var s', x := s[r := Slot(None, None)], Next(r, |s|);
    assert Dist(r, x, |s|) == 1;
    forall j: nat | j < |s'| && Occ(s', j)
      ensures PathAlmostFull(s', HomeAt(kg, s', j), j, r, x)
    {
      assert PathFull(s, HomeAt(kg, s, j), j);
    }
  }

  /** The entry examined is not reached over the hole: leave it. */
  lemma KeepEntry<K, C, V>(kg: Keying<K, C>, s: seq<Slot<K, V>>, r: nat, x: nat)
    requires r < |s| && x < |s| && Shifting(kg, s, r, x) && Occ(s, x)
    requires Next(x, |s|) != r
    requires Dist(HomeAt(kg, s, x), x, |s|) <= Dist(HomeAt(kg, s, x), r, |s|)
    ensures Shifting(kg, s, r, Next(x, |s|))
  {
    var x' := Next(x, |s|);
    assert Dist(r, x', |s|) == Dist(r, x, |s|) + 1;
    forall j: nat | j < |s| && Occ(s, j)
      ensures PathAlmostFull(s, HomeAt(kg, s, j), j, r, x')
    {
      assert PathAlmostFull(s, HomeAt(kg, s, j), j, r, x);
    }
  }

  /** The entry examined is reached over the hole: move it there, leaving a hole behind. */
  lemma MoveEntry<K, C, V>(kg: Keying<K, C>, s: seq<Slot<K, V>>, r: nat, x: nat)
    requires r < |s| && x < |s| && r != x && Shifting(kg, s, r, x) && Occ(s, x)
    requires Dist(HomeAt(kg, s, x), x, |s|) > Dist(HomeAt(kg, s, x), r, |s|)
    ensures Shifting(kg, s[r := s[x]][x := Slot(None, None)], x, Next(x, |s|))
  {
    var s', x' := s[r := s[x]][x := Slot(None, None)], Next(x, |s|);
    assert Dist(x, x', |s|) == 1;
    forall j: nat | j < |s'| && Occ(s', j)
      ensures PathAlmostFull(s', HomeAt(kg, s', j), j, x, x')
    {
      if j == r {
        assert PathAlmostFull(s, HomeAt(kg, s, x), x, r, x);
        assert HomeAt(kg, s', j) == HomeAt(kg, s, x);
      } else {
        assert PathAlmostFull(s, HomeAt(kg, s, j), j, r, x);
        assert HomeAt(kg, s', j) == HomeAt(kg, s, j);
      }
    }
  }

  /** An empty slot at `index` ends the cluster: every probe is intact again. */
  lemma CloseHole<K, C, V>(kg: Keying<K, C>, s: seq<Slot<K, V>>, r: nat, x: nat)
    requires r < |s| && x < |s| && r != x && Shifting(kg, s, r, x) && !Occ(s, x)
    ensures ProbeOk(kg, s)
  {
    forall j: nat | j < |s| && Occ(s, j)
      ensures PathFull(s, HomeAt(kg, s, j), j)
    {
      assert PathAlmostFull(s, HomeAt(kg, s, j), j, r, x);
    }
  }

  /** The classes stored in slots before slot `i`. */
  ghost function ClassesBelow<K, C, V>(kg: Keying<K, C>, s: seq<Slot<K, V>>, i: int): set<C> {
    set j | 0 <= j < |s| && j < i && Occ(s, j) :: ClassAt(kg, s, j)
  }

  /** What one deletion leaves behind while its hole is still open. */
  ghost predicate Removing<K, C, V>(kg: Keying<K, C>, s: seq<Slot<K, V>>, m: map<C, Entry<K, V>>,
                                    r: nat, x: nat)
    requires r < |s| && x < |s|
  {
    && Shifting(kg, s, r, x)
    && KeysDistinct(kg, s)
    && DataOk(s)
    && Represents(kg, s, m)
    && |Occupied(s)| == |m|
  }

  lemma OccupiedMeansPresent<K, C, V>(kg: Keying<K, C>, s: seq<Slot<K, V>>, m: map<C, Entry<K, V>>, r: nat)
    requires Inv(kg, s, m) && Occ(s, r)
    ensures ClassAt(kg, s, r) in m
    ensures |m| > 0
  {
    assert ClassAt(kg, s, r) in m.Keys;
    assert |m.Keys| == |m|;
  }

  lemma OpenRepresents<K, C, V>(kg: Keying<K, C>, s: seq<Slot<K, V>>, m: map<C, Entry<K, V>>, r: nat)
    requires KeysDistinct(kg, s) && DataOk(s) && Represents(kg, s, m) && Occ(s, r)
    ensures var s' := s[r := Slot(None, None)];
            KeysDistinct(kg, s') && DataOk(s') && Represents(kg, s', m - {ClassAt(kg, s, r)})
  {
    var s', c := s[r := Slot(None, None)], ClassAt(kg, s, r);
    assert forall j :: Occ(s', j) ==> Occ(s, j) && j != r && s'[j] == s[j];
    forall d | d in m - {c}
      ensures exists i :: Holds(kg, s', i, d)
    {
      var i :| Holds(kg, s, i, d);
      assert Holds(kg, s', i, d);
    }
  }

  lemma OpenCount<K, C, V>(kg: Keying<K, C>, s: seq<Slot<K, V>>, m: map<C, Entry<K, V>>, r: nat)
    requires Occ(s, r) && ClassAt(kg, s, r) in m && |Occupied(s)| == |m|
    ensures |m - {ClassAt(kg, s, r)}| == |m| - 1
    ensures |Occupied(s[r := Slot(None, None)])| == |m| - 1
  {
    var s', c := s[r := Slot(None, None)], ClassAt(kg, s, r);
    assert Occupied(s') == Occupied(s) - {r};
    assert (m - {c}).Keys == m.Keys - {c};
    assert |m.Keys| == |m| && |(m - {c}).Keys| == |m - {c}|;
  }

  lemma OpenKeepsBelow<K, C, V>(kg: Keying<K, C>, s: seq<Slot<K, V>>, r: nat)
    requires Occ(s, r)
    ensures ClassesBelow(kg, s[r := Slot(None, None)], r) <= ClassesBelow(kg, s, r)
  {
    var s' := s[r := Slot(None, None)];
    forall c | c in ClassesBelow(kg, s', r)
      ensures c in ClassesBelow(kg, s, r)
    {
      var j :| 0 <= j < |s'| && j < r && Occ(s', j) && ClassAt(kg, s', j) == c;
      assert Occ(s, j) && ClassAt(kg, s, j) == c;
    }
  }

  lemma StartRemoval<K, C, V>(kg: Keying<K, C>, s: seq<Slot<K, V>>, m: map<C, Entry<K, V>>, r: nat)
    requires Inv(kg, s, m) && Occ(s, r) && |s| > 1
    ensures ClassAt(kg, s, r) in m
    ensures |m - {ClassAt(kg, s, r)}| == |m| - 1
    ensures Removing(kg, s[r := Slot(None, None)], m - {ClassAt(kg, s, r)}, r, Next(r, |s|))
    ensures ClassesBelow(kg, s[r := Slot(None, None)], r) <= ClassesBelow(kg, s, r)
  {
    OpenHole(kg, s, r);
    OpenRepresents(kg, s, m, r);
    OpenCount(kg, s, m, r);
    OpenKeepsBelow(kg, s, r);
  }

  lemma MoveRepresents<K, C, V>(kg: Keying<K, C>, s: seq<Slot<K, V>>, m: map<C, Entry<K, V>>, r: nat, x: nat)
    requires r < |s| && Occ(s, x) && !Occ(s, r)
    requires KeysDistinct(kg, s) && DataOk(s) && Represents(kg, s, m)
    ensures var s' := s[r := s[x]][x := Slot(None, None)];
            KeysDistinct(kg, s') && DataOk(s') && Represents(kg, s', m)
  {
    var s' := s[r := s[x]][x := Slot(None, None)];
    assert forall j :: Occ(s', j) && j != r ==> Occ(s, j) && j != x && s'[j] == s[j];
    assert ClassAt(kg, s', r) == ClassAt(kg, s, x);
    forall d | d in m
      ensures exists i :: Holds(kg, s', i, d)
    {
      var i :| Holds(kg, s, i, d);
      assert Holds(kg, s', if i == x then r else i, d);
    }
  }

  lemma MoveCount<K, V>(s: seq<Slot<K, V>>, r: nat, x: nat)
    requires r < |s| && Occ(s, x) && !Occ(s, r)
    ensures |Occupied(s[r := s[x]][x := Slot(None, None)])| == |Occupied(s)|
  {
    assert Occupied(s[r := s[x]][x := Slot(None, None)]) == Occupied(s) - {x} + {r};
  }

  lemma MoveDuringRemoval<K, C, V>(kg: Keying<K, C>, s: seq<Slot<K, V>>, m: map<C, Entry<K, V>>, r: nat, x: nat)
    requires r < |s| && x < |s| && r != x && Removing(kg, s, m, r, x) && Occ(s, x)
    requires Dist(HomeAt(kg, s, x), x, |s|) > Dist(HomeAt(kg, s, x), r, |s|)
    ensures Removing(kg, s[r := s[x]][x := Slot(None, None)], m, x, Next(x, |s|))
  {
    MoveEntry(kg, s, r, x);
    MoveRepresents(kg, s, m, r, x);
    MoveCount(s, r, x);
  }

  lemma KeepDuringRemoval<K, C, V>(kg: Keying<K, C>, s: seq<Slot<K, V>>, m: map<C, Entry<K, V>>, r: nat, x: nat)
    requires r < |s| && x < |s| && Removing(kg, s, m, r, x) && Occ(s, x)
    requires Next(x, |s|) != r
    requires Dist(HomeAt(kg, s, x), x, |s|) <= Dist(HomeAt(kg, s, x), r, |s|)
    ensures Removing(kg, s, m, r, Next(x, |s|))
  {
    KeepEntry(kg, s, r, x);
  }

  /** Moving an entry back keeps what lies below slot `b`, unless it crosses `b`. */
  lemma MoveKeepsBelow<K, C, V>(kg: Keying<K, C>, s: seq<Slot<K, V>>, r: nat, x: nat, b: nat)
    requires r < |s| && Occ(s, x) && !Occ(s, r) && (r < b ==> x < b)
    ensures ClassesBelow(kg, s[r := s[x]][x := Slot(None, None)], b) <= ClassesBelow(kg, s, b)
  {
    var s' := s[r := s[x]][x := Slot(None, None)];
    forall c | c in ClassesBelow(kg, s', b)
      ensures c in ClassesBelow(kg, s, b)
    {
      var j :| 0 <= j < |s'| && j < b && Occ(s', j) && ClassAt(kg, s', j) == c;
      assert Occ(s, if j == r then x else j);
      assert ClassAt(kg, s, if j == r then x else j) == c;
    }
  }

  /** Whether the probe for the entry in slot `x` passes over the hole at `r`. */
  ghost predicate PassesOver<K, C, V>(kg: Keying<K, C>, s: seq<Slot<K, V>>, r: nat, x: nat)
    requires r < |s| && Occ(s, x)
  {
    Dist(HomeAt(kg, s, x), x, |s|) > Dist(HomeAt(kg, s, x), r, |s|)
  }

  ghost function AfterStep<K, C, V>(kg: Keying<K, C>, s: seq<Slot<K, V>>, r: nat, x: nat): seq<Slot<K, V>>
    requires r < |s| && Occ(s, x)
  {
    if PassesOver(kg, s, r, x) then s[r := s[x]][x := Slot(None, None)] else s
  }

  /** The stale copy left behind by a move is what the final clearing removes. */
  lemma HoleMoves<K, V>(a: seq<Slot<K, V>>, r: nat, x: nat)
    requires r < |a| && x < |a| && r != x
    ensures var t := a[r := Slot(None, None)];
            t[r := t[x]][x := Slot(None, None)] == a[r := a[x]][x := Slot(None, None)]
  {
  }

  /** One turn of the deletion loop, `k` slots after the slot `b` being removed. The array `a` still
      holds a stale entry where the model table `s` has its hole. */
  lemma RemovalStep<K, C, V>(kg: Keying<K, C>, s: seq<Slot<K, V>>, a: seq<Slot<K, V>>, m: map<C, Entry<K, V>>,
                             r: nat, x: nat, b: nat, k: nat)
    requires r < |s| && b < |s| && k + 1 < |s| && x == At(b, k, |s|) && Dist(b, r, |s|) < k
    requires |a| == |s| && s == a[r := Slot(None, None)]
    requires Removing(kg, s, m, r, x) && Occ(s, x)
    ensures Removing(kg, AfterStep(kg, s, r, x), m, if PassesOver(kg, s, r, x) then x else r, Next(x, |s|))
    ensures ClassesBelow(kg, AfterStep(kg, s, r, x), b) <= ClassesBelow(kg, s, b)
    ensures AfterStep(kg, s, r, x) == if PassesOver(kg, s, r, x) then a[r := a[x]][x := Slot(None, None)] else s
  {
    if PassesOver(kg, s, r, x) {
      MoveDuringRemoval(kg, s, m, r, x);
      MoveKeepsBelow(kg, s, r, x, b);
      HoleMoves(a, r, x);
    } else {
      KeepDuringRemoval(kg, s, m, r, x);
    }
  }

  lemma FinishRemoval<K, C, V>(kg: Keying<K, C>, s: seq<Slot<K, V>>, m: map<C, Entry<K, V>>, r: nat, x: nat)
    requires r < |s| && x < |s| && r != x && Removing(kg, s, m, r, x) && !Occ(s, x)
    ensures Inv(kg, s, m)
  {
    CloseHole(kg, s, r, x);
  }

  // ---------- rehashing ----------

  /** After the entries before slot `i` of the old table have been copied, the new table stores `m`,
      a part of the full contents `full`. */
  ghost predicate Copied<K, C, V>(kg: Keying<K, C>, old': seq<Slot<K, V>>, full: map<C, Entry<K, V>>,
                                  m: map<C, Entry<K, V>>, i: int) {
    && (forall c :: c in m ==> c in full && m[c] == full[c])
    && (forall j :: Occ(old', j) ==> (ClassAt(kg, old', j) in m <==> j < i))
  }

  lemma CopyStarts<K, C, V>(kg: Keying<K, C>, old': seq<Slot<K, V>>, full: map<C, Entry<K, V>>)
    ensures Copied(kg, old', full, map[], 0)
  {
  }

  lemma CopyOne<K, C, V>(kg: Keying<K, C>, old': seq<Slot<K, V>>, full: map<C, Entry<K, V>>,
                         m: map<C, Entry<K, V>>, i: nat)
    requires Inv(kg, old', full) && Copied(kg, old', full, m, i) && Occ(old', i)
    ensures var c := ClassAt(kg, old', i);
            && c !in m && |m| < |full| && old'[i].data.Some?
            && Copied(kg, old', full, m[c := Entry(old'[i].key.value, old'[i].data.value)], i + 1)
  {
    var c := ClassAt(kg, old', i);
    assert c in full && c !in m;
    ProperPart(m, full, c);
  }

  lemma ProperPart<C, E>(m: map<C, E>, full: map<C, E>, c: C)
    requires forall d :: d in m ==> d in full
    requires c in full && c !in m
    ensures |m| < |full|
  {
    assert m.Keys + {c} <= full.Keys;
    SubsetSize(m.Keys + {c}, full.Keys);
    assert |m.Keys + {c}| == |m.Keys| + 1;
  }

  lemma SkipOne<K, C, V>(kg: Keying<K, C>, old': seq<Slot<K, V>>, full: map<C, Entry<K, V>>,
                         m: map<C, Entry<K, V>>, i: nat)
    requires Copied(kg, old', full, m, i) && !Occ(old', i)
    ensures Copied(kg, old', full, m, i + 1)
  {
  }

  lemma CopiedAll<K, C, V>(kg: Keying<K, C>, old': seq<Slot<K, V>>, full: map<C, Entry<K, V>>, m: map<C, Entry<K, V>>)
    requires Inv(kg, old', full) && Copied(kg, old', full, m, |old'|)
    ensures m == full
  {
    forall c | c in full
      ensures c in m
    {
      var j :| Holds(kg, old', j, c);
    }
  }

  // ---------- iterating ----------

  ghost function Classes<K, C>(kg: Keying<K, C>, ks: seq<K>): set<C> {
    set k | k in ks :: kg.norm(k)
  }

  /** No key whose class is chosen occurs twice. */
  ghost predicate ChosenOnce<K, C>(kg: Keying<K, C>, ks: seq<K>, chosen: C -> bool) {
    forall i, j :: 0 <= i < j < |ks| && kg.norm(ks[i]) == kg.norm(ks[j]) ==> !chosen(kg.norm(ks[i]))
  }

  lemma NoneVisited<K, C>(kg: Keying<K, C>, chosen: C -> bool)
    ensures Classes(kg, []) == {} && ChosenOnce(kg, [], chosen)
  {
  }

  lemma ClassesAppend<K, C>(kg: Keying<K, C>, ks: seq<K>, k: K)
    ensures Classes(kg, ks + [k]) == Classes(kg, ks) + {kg.norm(k)}
  {
  }

  lemma ChosenOnceAppend<K, C>(kg: Keying<K, C>, ks: seq<K>, chosen: C -> bool, k: K)
    requires ChosenOnce(kg, ks, chosen)
    requires chosen(kg.norm(k)) ==> kg.norm(k) !in Classes(kg, ks)
    ensures ChosenOnce(kg, ks + [k], chosen)
  {
    var ks' := ks + [k];
    forall i, j | 0 <= i < j < |ks'| && kg.norm(ks'[i]) == kg.norm(ks'[j])
      ensures !chosen(kg.norm(ks'[i]))
    {
      if j == |ks| {
        assert ks'[i] in ks;
        assert kg.norm(ks'[i]) in Classes(kg, ks);
      }
    }
  }

  lemma HoldsOnce<K, C, V>(kg: Keying<K, C>, s: seq<Slot<K, V>>, m: map<C, Entry<K, V>>, i: nat)
    requires Inv(kg, s, m) && Occ(s, i)
    ensures forall j :: Holds(kg, s, j, ClassAt(kg, s, i)) ==> j == i
  {
  }

  lemma EmptyMapEmptyTable<K, C, V>(kg: Keying<K, C>, s: seq<Slot<K, V>>, m: map<C, Entry<K, V>>)
    requires Inv(kg, s, m) && |m| == 0
    ensures forall i :: !Occ(s, i)
  {
    assert m.Keys == {};
  }

  /** Skipping empty slots leaves the classes passed over as they were. */
  lemma BelowFirst<K, C, V>(kg: Keying<K, C>, s: seq<Slot<K, V>>, a: nat, b: nat)
    requires forall j :: a <= j < b ==> !Occ(s, j)
    requires a <= b || b >= |s|
    ensures ClassesBelow(kg, s, b) <= ClassesBelow(kg, s, a)
  {
    forall c | c in ClassesBelow(kg, s, b)
      ensures c in ClassesBelow(kg, s, a)
    {
      var j :| 0 <= j < |s| && j < b && Occ(s, j) && ClassAt(kg, s, j) == c;
    }
  }

  lemma NoneBelow<K, C, V>(kg: Keying<K, C>, s: seq<Slot<K, V>>)
    ensures ClassesBelow(kg, s, 0) == {}
  {
  }

  lemma BelowNext<K, C, V>(kg: Keying<K, C>, s: seq<Slot<K, V>>, a: nat)
    requires Occ(s, a)
    ensures ClassesBelow(kg, s, a + 1) == ClassesBelow(kg, s, a) + {ClassAt(kg, s, a)}
  {
    forall c
      ensures c in ClassesBelow(kg, s, a + 1) <==> c in ClassesBelow(kg, s, a) + {ClassAt(kg, s, a)}
    {
    }
  }

  lemma AllBelow<K, C, V>(kg: Keying<K, C>, s: seq<Slot<K, V>>, m: map<C, Entry<K, V>>)
    requires Inv(kg, s, m)
    ensures forall c :: c in m ==> c in ClassesBelow(kg, s, |s|)
  {
    forall c | c in m
      ensures c in ClassesBelow(kg, s, |s|)
    {
      var j :| Holds(kg, s, j, c);
    }
  }
}
