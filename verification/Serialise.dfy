/** `rpc_struct_serialize`: writing a struct as JSON by way of a scratch copy without duplicates. */
module Serialise {
  import opened Wrappers
  import opened Graph
  import opened Cascade
  import opened Ownership
  import opened Trees
  import opened World
  import opened Codec
  import opened Inflation
  import opened Duplicates
  import opened Orders
  import opened Reading
  import opened Forms

  // ---------- what serialising leaves behind ----------

  /** Memory is as it was; counts may differ. */
  ghost predicate Settled(h: Heap, h': Heap) {
    && h'.fields == h.fields && h'.leaves == h.leaves && h'.ids == h.ids
    && h.next <= h'.next && h.freed <= h'.freed && h'.tracker.Keys == h.tracker.Keys
  }

  lemma SettledRefl(h: Heap)
    ensures Settled(h, h)
  {
  }

  /** The scratch copy `c` of `s`, reduced to `m`, beside the heap `h0`. */
  ghost predicate Scratch(h0: Heap, h: Heap, s: Id, c: Id, m: map<Key, Elem>) {
    && ValidHeap(h0) && ValidHeap(h) && s in h0.fields && h0.next <= c < h.next
    && (forall k :: k in m ==> k in h0.fields[s] && m[k] == h0.fields[s][k])
    && h.fields == h0.fields[c := m] && h.leaves == h0.leaves && h0.freed <= h.freed
    && (forall o :: o in h0.ids ==> o in h.ids && h.ids[o] == h0.ids[o])
    && h.tracker.Keys == h0.tracker.Keys
  }

  lemma ScratchFacts(h0: Heap, h: Heap, s: Id, c: Id, m: map<Key, Elem>)
    requires Scratch(h0, h, s, c, m)
    ensures ValidHeap(h) && c in h.fields && h.fields[c] == m && c !in h.tracker && c != s && s in h.fields
    ensures h.fields[s] == h0.fields[s] && c !in h0.fields && c !in h0.leaves && Agrees(0, h0, h)
  {
    hide CountsOk, Acyclic, KindsOk, Index, NoRepeats;
    assert !Live(h0, c) && Live(h0, s);
  }

  lemma ScratchSettled(h0: Heap, h: Heap, s: Id, c: Id, m: map<Key, Elem>, h': Heap)
    requires Scratch(h0, h, s, c, m) && Settled(h, h') && ValidHeap(h')
    ensures Scratch(h0, h', s, c, m)
  {
    hide ValidHeap;
  }

  lemma ScratchStarts(h0: Heap, h: Heap, s: Id, c: Id)
    requires ValidHeap(h0) && ValidHeap(h) && s in h0.fields && c == h0.next && h.next == c + 1
    requires h.fields == h0.fields[c := h0.fields[s]] && h.leaves == h0.leaves && h.freed == h0.freed
    requires h.tracker.Keys == h0.tracker.Keys
    requires s in h0.ids && h.ids == h0.ids[c := h0.ids[s]]
    ensures Scratch(h0, h, s, c, h0.fields[s])
  {
    hide ValidHeap;
    StructsHaveIds(h0);
  }

  /** What the scratch copy holds, the original holds as well. */
  lemma HeldTwice(h0: Heap, h: Heap, s: Id, c: Id, m: map<Key, Elem>, gone: set<Slot>, k: Key, o: Id)
    requires Scratch(h0, h, s, c, m) && Holds(h.fields, gone, (c, k), o)
    requires forall x: Slot :: x in gone ==> x.0 == c
    ensures Holds(h.fields, gone, (s, k), o) && s != c
  {
    hide ValidHeap;
    ScratchFacts(h0, h, s, c, m);
  }

  /** So no slot of the scratch copy is a last reference. */
  lemma NeverLast(h0: Heap, h: Heap, s: Id, c: Id, m: map<Key, Elem>, k: Key)
    requires Scratch(h0, h, s, c, m) && k in m
    ensures c in h.fields && h.fields[c] == m && LastReference(h, c, k) == {}
  {
    hide ValidHeap, Slack, Pairs;
    ScratchFacts(h0, h, s, c, m);
    if m[k].Ref? {
      var o := m[k].id;
      assert Holds(h.fields, {}, (c, k), o);
      HeldTwice(h0, h, s, c, m, {}, k, o);
      IndexIsExact(h, (c, k), o);
      IndexIsExact(h, (s, k), o);
      assert {(c, k), (s, k)} <= Pairs(h.tracker[o]);
      SubsetSize({(c, k), (s, k)}, Pairs(h.tracker[o]));
    }
  }

  /** Removing a slot of the scratch copy, or the whole copy, frees none of the members. */
  lemma ScratchVictims(h0: Heap, h: Heap, s: Id, c: Id, m: map<Key, Elem>, gone: set<Slot>, start: set<Id>)
    requires Scratch(h0, h, s, c, m) && start <= {c} && forall x: Slot :: x in gone ==> x.0 == c
    ensures Victims(h, gone, start) == start
  {
    hide Scratch, Loose;
    forall o: Id | OnlyHeldBy(h.fields, gone, o, start)
      ensures false
    {
      var x: Slot :| Holds(h.fields, gone, x, o);
      assert x.0 == c;
      HeldTwice(h0, h, s, c, m, gone, x.1, o);
      assert false;
    }
    DoomedClosed(h.fields, gone, Loose(h.tracker), start);
    DoomedLeast(h.fields, gone, Loose(h.tracker), start, start);
  }

  lemma WithoutKey(m: map<Key, Elem>, c: Id, k: Key)
    ensures Without(m, c, {(c, k)}) == m - {k}
  {
  }

  lemma WithoutElsewhere(m: map<Key, Elem>, s: Id, c: Id, k: Key)
    requires s != c
    ensures Without(m, s, {(c, k)}) == m
  {
  }

  lemma ScratchFreed(h0: Heap, h: Heap, s: Id, c: Id, m: map<Key, Elem>, gone: set<Slot>, start: set<Id>, h': Heap)
    requires Scratch(h0, h, s, c, m) && ValidHeap(h') && FreedExactly(h, h', gone, start)
    requires start <= {c} && forall x: Slot :: x in gone ==> x.0 == c
    ensures h'.fields.Keys == h.fields.Keys - start && h'.leaves == h.leaves && h'.ids == h.ids - start
    ensures forall x :: x in h'.fields ==> h'.fields[x] == Without(h.fields[x], x, gone)
    ensures h'.tracker.Keys == h.tracker.Keys && h'.next == h.next && h.freed <= h'.freed
    ensures forall o :: o in h.tracker ==> Slack(h'.tracker[o]) == Slack(h.tracker[o])
  {
    hide Scratch, ValidHeap, Slack, FreedExactly, Sane, Without, Victims, Agrees;
    ScratchFacts(h0, h, s, c, m);
    ScratchVictims(h0, h, s, c, m, gone, start);
    ValidSane(h);
    ValidSane(h');
    SaneApart(h);
    SurvivorsExact(h, h', gone, start);
  }

  lemma ScratchTrimmed(h0: Heap, h: Heap, s: Id, c: Id, m: map<Key, Elem>, k: Key, h': Heap)
    requires Scratch(h0, h, s, c, m) && k in m && ValidHeap(h')
    requires c in h.fields && k in h.fields[c] && FreedExactly(h, h', {(c, k)}, LastReference(h, c, k))
    ensures Scratch(h0, h', s, c, m - {k}) && SlackSame(h, h')
  {
    hide ValidHeap, Slack, FreedExactly, LastReference, Without;
    NeverLast(h0, h, s, c, m, k);
    ScratchFreed(h0, h, s, c, m, {(c, k)}, {}, h');
    TrimmedFields(h0.fields, c, m, k, h'.fields);
  }

  lemma TrimmedFields(fields: Fields, c: Id, m: map<Key, Elem>, k: Key, fields': Fields)
    requires fields'.Keys == fields.Keys + {c}
    requires forall x :: x in fields' ==> fields'[x] == Without(fields[c := m][x], x, {(c, k)})
    ensures fields' == fields[c := m - {k}]
  {
    hide Without;
    WithoutKey(m, c, k);
    forall x | x in fields && x != c
      ensures fields'[x] == fields[x]
    {
      WithoutElsewhere(fields[x], x, c, k);
    }
  }

  lemma ScratchGone(h0: Heap, h: Heap, s: Id, c: Id, m: map<Key, Elem>, h': Heap)
    requires Scratch(h0, h, s, c, m) && ValidHeap(h') && FreedExactly(h, h', Listed(h, c), {c})
    ensures Settled(h0, h') && SlackSame(h, h')
  {
    hide ValidHeap, Slack, FreedExactly, Without, Agrees;
    ScratchFacts(h0, h, s, c, m);
    ScratchFreed(h0, h, s, c, m, {}, {c}, h');
    FieldsRestored(h0.fields, c, m, h'.fields);
    IdsRestored(h0, h, c, h');
  }

  lemma IdsRestored(h0: Heap, h: Heap, c: Id, h': Heap)
    requires ValidHeap(h0) && ValidHeap(h) && c !in h0.fields && h.fields.Keys == h0.fields.Keys + {c}
    requires forall o :: o in h0.ids ==> o in h.ids && h.ids[o] == h0.ids[o]
    requires h'.ids == h.ids - {c}
    ensures h'.ids == h0.ids
  {
    hide ValidHeap;
    ValidSane(h0);
    ValidSane(h);
  }

  lemma SaneApart(h: Heap)
    requires Sane(h)
    ensures h.fields.Keys !! h.leaves.Keys
  {
  }

  lemma SlackSameRefl(h: Heap)
    ensures SlackSame(h, h)
  {
  }

  /** Drops one key from the scratch copy. */
  method Trim(w: World, c: Id, k: Key, ghost h0: Heap, ghost s: Id, ghost m: map<Key, Elem>)
    requires Scratch(h0, w.Snap(), s, c, m)
    modifies w
    ensures Scratch(h0, w.Snap(), s, c, m - {k}) && SlackSame(old(w.Snap()), w.Snap())
  {
    hide Scratch, ValidHeap, FreedExactly, LastReference, Slack;
    ghost var h := w.Snap();
    ScratchFacts(h0, h, s, c, m);
    var _ := w.Remove(c, k);
    if k in m {
      ScratchTrimmed(h0, h, s, c, m, k, w.Snap());
    } else {
      assert m - {k} == m;
    }
  }

  /** Raw pointers outside `rest` are left out. */
  ghost function WithoutOpaque(m: map<Key, Elem>, rest: set<Key>): map<Key, Elem> {
    map k | k in m && (k in rest || !m[k].Opaque?) :: m[k]
  }

  lemma WithoutOpaqueStep(m: map<Key, Elem>, rest: set<Key>, k: Key)
    requires k in m && k in rest
    ensures k in WithoutOpaque(m, rest) && WithoutOpaque(m, rest)[k] == m[k]
    ensures WithoutOpaque(m, rest - {k}) == if m[k].Opaque? then WithoutOpaque(m, rest) - {k} else WithoutOpaque(m, rest)
    ensures WithoutOpaque(m, m.Keys) == m
  {
  }

  /** Drops the raw pointers. */
  method TrimOpaque(w: World, c: Id, ghost h0: Heap, ghost s: Id, ghost m: map<Key, Elem>)
    requires Scratch(h0, w.Snap(), s, c, m)
    modifies w
    ensures Scratch(h0, w.Snap(), s, c, WithoutOpaque(m, {})) && SlackSame(old(w.Snap()), w.Snap())
  {
    hide Scratch, WithoutOpaque, SlackSame;
    ScratchFacts(h0, w.Snap(), s, c, m);
    SlackSameRefl(w.Snap());
    var rest := w.fields[c].Keys;
    assert WithoutOpaque(m, rest) == m by {
      NothingDropped(m);
    }
    while rest != {}
      invariant rest <= m.Keys && Scratch(h0, w.Snap(), s, c, WithoutOpaque(m, rest))
      invariant SlackSame(old(w.Snap()), w.Snap())
      decreases rest
    {
      var k :| k in rest;
      ScratchFacts(h0, w.Snap(), s, c, WithoutOpaque(m, rest));
      WithoutOpaqueStep(m, rest, k);
      if w.fields[c][k].Opaque? {
        ghost var h := w.Snap();
        Trim(w, c, k, h0, s, WithoutOpaque(m, rest));
        SlackSameTrans(old(w.Snap()), h, w.Snap());
      }
      rest := rest - {k};
    }
  }

  lemma NothingDropped(m: map<Key, Elem>)
    ensures WithoutOpaque(m, m.Keys) == m && m - TableOf([]).Keys == m
  {
  }

  ghost function SetOf(names: seq<Key>): set<Key> {
    set d | d in names
  }

  lemma DropName(m: map<Key, Elem>, names: seq<Key>, j: nat)
    requires j < |names|
    ensures m - SetOf(names[..j]) - {names[j]} == m - SetOf(names[..j + 1])
  {
    assert names[..j + 1] == names[..j] + [names[j]];
  }

  lemma DropGroup(m: map<Key, Elem>, infos: seq<DuplicateInfo>, i: nat)
    requires i < |infos|
    ensures m - TableOf(infos[..i]).Keys - SetOf(infos[i].duplicates) == m - TableOf(infos[..i + 1]).Keys
  {
    TableStep(infos, i);
  }

  lemma DropNothing(m: map<Key, Elem>, names: seq<Key>)
    ensures m - SetOf(names[..0]) == m
  {
  }

  /** Drops the duplicates. */
  method TrimDuplicates(w: World, c: Id, infos: seq<DuplicateInfo>, ghost h0: Heap, ghost s: Id, ghost m: map<Key, Elem>)
    requires Scratch(h0, w.Snap(), s, c, m)
    modifies w
    ensures Scratch(h0, w.Snap(), s, c, m - TableOf(infos).Keys) && SlackSame(old(w.Snap()), w.Snap())
  {
    hide Scratch, SetOf, TableOf, SlackSame;
    SlackSameRefl(w.Snap());
    var i := 0;
    assert infos[..0] == [];
    NothingDropped(m);
    while i < |infos|
      invariant 0 <= i <= |infos| && Scratch(h0, w.Snap(), s, c, m - TableOf(infos[..i]).Keys)
      invariant SlackSame(old(w.Snap()), w.Snap())
    {
      ghost var m1 := m - TableOf(infos[..i]).Keys;
      var names := infos[i].duplicates;
      var j := 0;
      DropNothing(m1, names);
      while j < |names|
        invariant 0 <= j <= |names| && Scratch(h0, w.Snap(), s, c, m1 - SetOf(names[..j]))
        invariant SlackSame(old(w.Snap()), w.Snap())
      {
        ghost var h := w.Snap();
        Trim(w, c, names[j], h0, s, m1 - SetOf(names[..j]));
        SlackSameTrans(old(w.Snap()), h, w.Snap());
        DropName(m1, names, j);
        j := j + 1;
      }
      assert names[..j] == names;
      DropGroup(m, infos, i);
      i := i + 1;
    }
    assert infos[..i] == infos;
  }

  // ---------- writing ----------

  /** `j` is written for a value with tree `t`: it is safe to read and well-formed, and an object for an
      object; it is a JSON form of the value if nothing below it is lost, and only then does it stand
      for the value. */
  ghost predicate ItemFor(t: Tree, j: Json, clean: bool) {
    && SafeItem(j) && Yields(j) && WellFormed(j) && (IsObject(t) <==> j.JObj?) && !j.JArr?
    && (clean ==> Encodes(t, j)) && (Reads(j, Norm(t)) ==> clean)
  }

  lemma FormIsItem(t: Tree, j: Json)
    requires Encodes(t, j)
    ensures ItemFor(t, j, true)
  {
    hide SafeItem, Yields, WellFormed, Reads, Divides;
    EncodesSafe(t, j);
    EncodesWellFormed(t, j);
  }

  lemma ItemForIff(t: Tree, j: Json, clean: bool)
    requires ItemFor(t, j, clean)
    ensures Encodes(t, j) <==> clean
    ensures Reads(j, Norm(t)) <==> clean
  {
    hide Encodes, SafeItem, Yields, WellFormed, Reads;
    if Encodes(t, j) {
      EncodesStands(t, j);
    }
  }

  /** The items written so far, for the keys of the trimmed copy outside `rest`; nothing is lost below
      the keys in `clean`. */
  ghost predicate Written(t: Tree, m: map<Key, Elem>, rest: set<Key>, ser: map<string, Json>, clean: set<Key>) {
    && t.TStruct?
    && (forall k :: k in ser <==> k in m && k !in rest && k in t.members && Kept(t.members[k]))
    && (forall k :: k in ser ==> ItemFor(t.members[k], ser[k], k in clean))
  }

  lemma WriteKey(t: Tree, m: map<Key, Elem>, rest: set<Key>, ser: map<string, Json>, clean: set<Key>, k: Key,
                 item: Option<Json>)
    requires Written(t, m, rest, ser, clean) && k in rest && k in m && k in t.members
    requires item.Some? <==> Kept(t.members[k])
    requires item.Some? ==> ItemFor(t.members[k], item.value, k in clean)
    ensures Written(t, m, rest - {k}, if item.Some? then ser[k := item.value] else ser, clean)
  {
    hide Kept, ItemFor;
  }

  lemma MemberOf(h: Heap, s: Id, t: Tree)
    requires s in h.fields && Unfolds(h, Ref(StructKind, s), t)
    ensures t.TStruct? && t.members.Keys == h.fields[s].Keys && t.aliases == Aliases(h.fields[s])
    ensures s in h.ids && t.id == h.ids[s]
    ensures forall k :: k in t.members ==> Unfolds(h, h.fields[s][k], t.members[k])
  {
  }

  /** Aliases written as duplicates. */
  lemma AliasesDivided(m: map<Key, Elem>, t: Tree, table: map<string, Json>)
    requires t.TStruct? && t.members.Keys == m.Keys && t.aliases == Aliases(m) && NamesOriginals(m, table)
    requires forall k :: k in m ==> (m[k].Ref? <==> IsObject(t.members[k]))
    ensures forall a, b :: (a, b) in t.aliases <==>
              (a in t.members && b in t.members && IsObject(t.members[a]) && IsObject(t.members[b])
               && Rep(table, a) == Rep(table, b))
  {
    hide IsObject;
    forall a, b
      ensures (a, b) in t.aliases <==>
                (a in t.members && b in t.members && IsObject(t.members[a]) && IsObject(t.members[b])
                 && Rep(table, a) == Rep(table, b))
    {
      if a in m && b in m && m[a].Ref? && m[b].Ref? {
        var ra, rb := Rep(table, a), Rep(table, b);
        assert m[a] == m[ra] && m[b] == m[rb] && ra !in table && rb !in table;
      }
    }
  }

  lemma TableDivided(h: Heap, m: map<Key, Elem>, t: Tree, table: map<string, Json>)
    requires t.TStruct? && t.members.Keys == m.Keys && NamesOriginals(m, table)
    requires forall k :: k in t.members ==> Unfolds(h, m[k], t.members[k])
    ensures forall k :: k in table ==> table[k].JStr? && table[k].s in m && t.members[k] == t.members[table[k].s]
    ensures forall k :: k in m ==> (m[k].Ref? <==> IsObject(t.members[k]))
  {
    hide Unfolds, IsObject;
    forall k | k in m
      ensures m[k].Ref? <==> IsObject(t.members[k])
    {
      ObjectByRef(h, m[k], t.members[k]);
    }
    forall k | k in table
      ensures table[k].JStr? && table[k].s in m && t.members[k] == t.members[table[k].s]
    {
      UnfoldsUnique(h, m[k], t.members[k], t.members[table[k].s]);
    }
  }

  lemma Divided(h: Heap, s: Id, t: Tree, table: map<string, Json>, ser: map<string, Json>)
    requires s in h.fields && Unfolds(h, Ref(StructKind, s), t) && NamesOriginals(h.fields[s], table)
    requires t.TStruct? && forall k :: k in ser <==> k in t.members && k !in table && Kept(t.members[k])
    ensures Divides(t.members, t.aliases, ser, table)
  {
    hide UnfoldsFrom, Aliases, Rep, Kept, IsObject;
    MemberOf(h, s, t);
    TableDivided(h, h.fields[s], t, table);
    AliasesDivided(h.fields[s], t, table);
    forall k | k in table
      ensures && k in t.members && Kept(t.members[k]) && IsObject(t.members[k])
              && k !in ser && table[k].s in t.members && table[k].s in ser
    {
      ObjectIsKept(t.members[k]);
      ObjectIsKept(t.members[table[k].s]);
    }
  }

  lemma ObjectIsKept(t: Tree)
    ensures IsObject(t) ==> Kept(t)
  {
  }

  lemma ObjectByRef(h: Heap, e: Elem, t: Tree)
    requires Unfolds(h, e, t)
    ensures e.Ref? <==> IsObject(t)
  {
  }

  lemma KeptByElem(h: Heap, e: Elem, t: Tree)
    requires Unfolds(h, e, t)
    ensures (Kept(t) ==> !e.Opaque?) && (e.Ref? ==> Kept(t))
  {
  }

  /** The JSON object of a struct. */
  function StructJson(id: string, ser: map<string, Json>, dup: map<string, Json>): Json {
    JObj(map["ID" := JStr(id), "type" := JStr("RPC_struct"), "serialised" := JObj(ser), "duplicates" := JObj(dup)])
  }

  lemma StructJsonParts(id: string, ser: map<string, Json>, dup: map<string, Json>)
    ensures var j := StructJson(id, ser, dup);
            && j.fields.Keys == {"ID", "type", "serialised", "duplicates"}
            && j.fields["ID"] == JStr(id) && j.fields["type"] == JStr("RPC_struct")
            && j.fields["serialised"] == JObj(ser) && j.fields["duplicates"] == JObj(dup)
  {
    NamesDiffer();
  }

  lemma WrittenKeys(h: Heap, s: Id, t: Tree, table: map<string, Json>, m: map<Key, Elem>, ser: map<string, Json>,
                    clean: set<Key>)
    requires s in h.fields && Unfolds(h, Ref(StructKind, s), t)
    requires m == WithoutOpaque(h.fields[s], {}) - table.Keys && Written(t, m, {}, ser, clean)
    ensures forall k :: k in ser <==> k in t.members && k !in table && Kept(t.members[k])
  {
    hide UnfoldsFrom, Aliases, Kept, ItemFor;
    MemberOf(h, s, t);
    forall k | k in t.members && Kept(t.members[k])
      ensures !h.fields[s][k].Opaque?
    {
      KeptByElem(h, h.fields[s][k], t.members[k]);
    }
  }

  /** With every item right and every duplicate named, the object written is a JSON form. */
  lemma AllWritten(h: Heap, s: Id, t: Tree, table: map<string, Json>, m: map<Key, Elem>, ser: map<string, Json>,
                   clean: set<Key>)
    requires s in h.fields && Unfolds(h, Ref(StructKind, s), t) && NamesOriginals(h.fields[s], table)
    requires m == WithoutOpaque(h.fields[s], {}) - table.Keys && m.Keys <= clean
    requires Written(t, m, {}, ser, clean) && s in h.ids && |h.ids[s]| == ID_LENGTH
    ensures Encodes(t, StructJson(h.ids[s], ser, table))
  {
    hide Divides, NamesOriginals, UnfoldsFrom, StructJson, WithoutOpaque, Aliases, Kept, SafeItem, Yields, WellFormed, Reads;
    MemberOf(h, s, t);
    WrittenKeys(h, s, t, table, m, ser, clean);
    Divided(h, s, t, table, ser);
    StructJsonParts(h.ids[s], ser, table);
    assert StructJson(h.ids[s], ser, table).JObj? by {
      JsonIsObject(h.ids[s], ser, table);
    }
  }

  /** The parts of what the object written stands for. */
  lemma StructReads(id: string, ser: map<string, Json>, dup: map<string, Json>, t: Tree)
    requires Reads(StructJson(id, ser, dup), t)
    ensures t.TStruct? && ReadTable(ser, dup, t)
    ensures forall k :: k in ser && k in t.members && Yields(ser[k]) ==> Reads(ser[k], t.members[k])
  {
    hide StructJson, ReadTable, Yields;
    StructJsonParts(id, ser, dup);
    JsonIsObject(id, ser, dup);
    TypeNames();
  }

  lemma ReadKind(j: Json, t: Tree)
    requires Reads(j, t) && !j.JArr?
    ensures IsObject(t) <==> j.JObj?
  {
    hide ReadTable;
  }

  /** A table that names originals makes the aliases there are, whatever the items are read as. */
  lemma AliasesRead(m: map<Key, Elem>, t: Tree, table: map<string, Json>, ser: map<string, Json>, t': Tree)
    requires t.TStruct? && t.members.Keys == m.Keys && t.aliases == Aliases(m) && NamesOriginals(m, table)
    requires forall k :: k in m ==> (m[k].Ref? <==> IsObject(t.members[k]))
    requires ReadTable(ser, table, t') && forall k :: k in ser <==> k in m && k !in table && Kept(t.members[k])
    requires forall k :: k in ser ==>
               Yields(ser[k]) && (k in t'.members ==> (IsObject(t'.members[k]) <==> IsObject(t.members[k])))
    ensures t'.aliases == Aliases(m)
  {
    hide Yields, Aliases, Rep;
    AliasesDivided(m, t, table);
    forall k
      ensures k in t'.members && IsObject(t'.members[k]) <==> k in t.members && IsObject(t.members[k])
    {
      if k in table {
        assert table[k].s in ser && table[k].s in t'.members;
      }
    }
    forall x: (Key, Key)
      ensures x in t'.aliases <==> x in t.aliases
    {
      var (a, b) := x;
    }
  }

  /** What is written for a struct is read as a struct with the same aliases exactly when no visit of
      this struct comes late. */
  lemma AliasesReadIff(h: Heap, s: Id, t: Tree, table: map<string, Json>, m: map<Key, Elem>, ser: map<string, Json>,
                       clean: set<Key>, order: seq<Key>, t': Tree)
    requires s in h.fields && Unfolds(h, Ref(StructKind, s), t) && s in h.ids
    requires OneElem(h.fields[s]) && Enumerates(order, h.fields[s].Keys)
    requires table == TableOf(Searched(h.fields[s], order).infos)
    requires m == WithoutOpaque(h.fields[s], {}) - table.Keys && Written(t, m, {}, ser, clean)
    requires Reads(StructJson(h.ids[s], ser, table), t')
    ensures t'.TStruct? && (t'.aliases == Aliases(h.fields[s]) <==> Clean(h.fields[s], order))
  {
    hide UnfoldsFrom, OneElem, TableOf, Searched, WithoutOpaque, StructJson, IsObject,
      SafeItem, Yields, WellFormed, Encodes, Reads, ReadTable, NamesOriginals, Clean, Aliases, Kept, Norm;
    StructReads(h.ids[s], ser, table, t');
    if Clean(h.fields[s], order) {
      TableRightIff(h.fields[s], order);
      MemberOf(h, s, t);
      TableDivided(h, h.fields[s], t, table);
      WrittenKeys(h, s, t, table, m, ser, clean);
      forall k | k in ser && k in t'.members
        ensures IsObject(t'.members[k]) <==> IsObject(t.members[k])
      {
        ReadKind(ser[k], t'.members[k]);
      }
      AliasesRead(h.fields[s], t, table, ser, t');
    } else if t'.aliases == Aliases(h.fields[s]) {
      AliasesNeedClean(h.fields[s], order, ser, t');
    }
  }

  /** Only a table written without late visits makes the aliases there are. */
  lemma AliasesNeedClean(m: map<Key, Elem>, order: seq<Key>, ser: map<string, Json>, t: Tree)
    requires Enumerates(order, m.Keys) && OneElem(m) && t.TStruct? && t.aliases == Aliases(m)
    requires ReadTable(ser, TableOf(Searched(m, order).infos), t)
    ensures Clean(m, order)
  {
    hide Aliases, Searched, TableOf, Clean, OneElem, Rep;
    if !Clean(m, order) {
      var a, b := LateLosesAlias(m, order);
    }
  }

  /** If every item stands for its member, nothing is lost below any member, written or duplicate. */
  lemma ItemsNeedClean(h: Heap, s: Id, t: Tree, table: map<string, Json>, m: map<Key, Elem>, ser: map<string, Json>,
                       f: Fields, orders: map<Id, seq<Key>>)
    requires s in h.fields && Unfolds(h, Ref(StructKind, s), t) && NamesItems(h.fields[s], table)
    requires m == WithoutOpaque(h.fields[s], {}) - table.Keys && Ordered(f, orders)
    requires Written(t, m, {}, ser, CleanKeys(f, orders, h.fields[s]))
    requires forall k :: k in ser && k in t.members ==> Reads(ser[k], Norm(t.members[k]))
    ensures h.fields[s].Keys <= CleanKeys(f, orders, h.fields[s])
  {
    hide UnfoldsFrom, Aliases, Encodes, Kept, SafeItem, Yields, WellFormed, Reads, Ordered, AllClean;
    MemberOf(h, s, t);
    var m0 := h.fields[s];
    forall k | k in m0
      ensures CleanElem(f, orders, m0[k])
    {
      if m0[k].Ref? {
        var o := Rep(table, k);
        KeptByElem(h, m0[o], t.members[o]);
        assert o in ser && ItemFor(t.members[o], ser[o], o in CleanKeys(f, orders, m0));
        assert CleanElem(f, orders, m0[o]);
      }
    }
  }

  lemma JsonIsObject(id: string, ser: map<string, Json>, dup: map<string, Json>)
    ensures StructJson(id, ser, dup).JObj?
  {
  }

  lemma NamesDiffer()
    ensures "ID" != "type" && "ID" != "serialised" && "ID" != "duplicates"
    ensures "type" != "serialised" && "type" != "duplicates" && "serialised" != "duplicates"
  {
    assert "serialised"[0] == 's' && "duplicates"[0] == 'd';
  }

  lemma ElemsOfValid(h: Heap, s: Id)
    requires ValidHeap(h) && s in h.fields
    ensures OneElem(h.fields[s])
  {
    hide ValidHeap;
    ValidSane(h);
    SaneApart(h);
    var m := h.fields[s];
    forall a, b | a in m && b in m && m[a].Ref? && m[b].Ref? && m[a].id == m[b].id
      ensures m[a] == m[b]
    {
      SlotFits(h, s, a);
      SlotFits(h, s, b);
    }
  }

  /** A trimmed copy holds no object under two keys, and every struct the original holds. */
  lemma TrimmedHolds(m: map<Key, Elem>, table: map<string, Json>)
    requires NamesOriginals(m, table) && OneElem(m)
    ensures var m' := WithoutOpaque(m, {}) - table.Keys; HeldOnce(m') && StructsIn(m') == StructsIn(m)
  {
    var m' := WithoutOpaque(m, {}) - table.Keys;
    forall k, x | HoldsStruct(m, k, x)
      ensures exists j :: HoldsStruct(m', j, x)
    {
      assert HoldsStruct(m', Rep(table, k), x);
    }
    forall k, x | HoldsStruct(m', k, x)
      ensures exists j :: HoldsStruct(m, j, x)
    {
      assert HoldsStruct(m, k, x);
    }
    SameStructs(m, m');
  }

  lemma LeafOutside(h: Heap, f: Fields, rank: Id -> nat, o: Id)
    requires ValidHeap(h) && Region(h, f, rank) && o in h.leaves
    ensures o !in f
  {
    hide ValidHeap;
    ValidSane(h);
  }

  /** One item, by type; nothing for raw pointers and RPC_none. */
  method ItemSerialize(w: World, e: Elem, orders: map<Id, seq<Key>>, ghost t: Tree, ghost f: Fields, ghost rank: Id -> nat)
    returns (item: Option<Json>)
    requires w.Valid() && Unfolds(w.Snap(), e, t) && Fits(w.Snap(), e) && Ordered(f, orders)
    requires Region(w.Snap(), f, rank) && (e.Ref? && e.kind == StructKind ==> e.id in f)
    modifies w
    ensures w.Valid() && Settled(old(w.Snap()), w.Snap())
    ensures item.Some? <==> Kept(t)
    ensures item.Some? ==> ItemFor(t, item.value, CleanElem(f, orders, e))
    ensures CleanElem(f, orders, e) ==> GrewElem(old(w.Snap()), w.Snap(), f, rank, e)
    decreases t, 2
  {
    hide ValidHeap, Settled, SlackSame, Region, GrewBy, AllClean, Ordered, ItemFor, WellFormed, SafeItem, SafeStruct, Reads;
    SettledRefl(w.Snap());
    SlackSameRefl(w.Snap());
    match e {
      case Void | Opaque(_) =>
        item := None;
      case Num(length, bits) =>
        item := Some(JInt(ToSigned(Widened(length, bits))));
        FormIsItem(t, item.value);
      case Real(length, value) =>
        item := Some(JReal(WidenedReal(length, value)));
        FormIsItem(t, item.value);
      case Text(text) =>
        item := Some(JStr(text));
        FormIsItem(t, item.value);
      case Ref(StructKind, o) =>
        var j := Serialize(w, o, orders, t, f, rank);
        item := Some(j);
      case Ref(BufKind, o) =>
        var j := BufSerialize(w.leaves[o].bytes);
        item := Some(j);
        FormIsItem(t, j);
        LeafOutside(w.Snap(), f, rank, o);
        LeafClean(f, orders, o);
      case Ref(FunKind, o) =>
        var j := FunSerialize(w.leaves[o].prototype, w.leaves[o].returnType);
        item := Some(j);
        FormIsItem(t, j);
        LeafOutside(w.Snap(), f, rank, o);
        LeafClean(f, orders, o);
    }
  }

  /** The items outside `rest` have been visited. */
  ghost predicate Visited(h: Heap, h': Heap, f: Fields, rank: Id -> nat, s: Id, m: map<Key, Elem>, rest: set<Key>) {
    GrewOver(h, h', f, rank, StructsIn(m - rest), rank(s))
  }

  lemma VisitStarts(h: Heap, f: Fields, rank: Id -> nat, s: Id, m: map<Key, Elem>)
    requires Ranked(f, rank)
    ensures Visited(h, h, f, rank, s, m, m.Keys)
  {
    GrewNothing(h, f, rank, rank(s));
    assert m - m.Keys == map[];
  }

  lemma VisitOne(a: Heap, b: Heap, c: Heap, f: Fields, rank: Id -> nat, s: Id, m: map<Key, Elem>, rest: set<Key>, k: Key)
    requires k in m && k in rest && HeldOnce(m) && Visited(a, b, f, rank, s, m, rest) && GrewElem(b, c, f, rank, m[k])
    requires s in f && k in f[s] && f[s][k] == m[k]
    ensures Visited(a, c, f, rank, s, m, rest - {k})
  {
    hide GrewOver, GrewBy, SlackSame, StructsIn;
    StructsOneMore(m, rest, k);
    VisitRanked(a, b, f, rank, StructsIn(m - rest), rank(s));
    if m[k].Ref? && m[k].kind == StructKind {
      GrewOneMore(a, b, c, f, rank, StructsIn(m - rest), rank(s), m[k].id);
    } else {
      GrewNoMore(a, b, c, f, rank, StructsIn(m - rest), rank(s));
    }
  }

  lemma VisitRanked(a: Heap, b: Heap, f: Fields, rank: Id -> nat, visited: set<Id>, bound: nat)
    requires GrewOver(a, b, f, rank, visited, bound)
    ensures Ranked(f, rank)
  {
  }

  /** The region is still there while the scratch copy is. */
  lemma RegionKept(h0: Heap, h: Heap, s: Id, c: Id, m: map<Key, Elem>, f: Fields, rank: Id -> nat)
    requires Scratch(h0, h, s, c, m) && Region(h0, f, rank)
    ensures Region(h, f, rank)
  {
    hide ValidHeap;
    ScratchFacts(h0, h, s, c, m);
  }

  lemma InRegion(h: Heap, f: Fields, rank: Id -> nat, s: Id, k: Key)
    requires Region(h, f, rank) && s in f && k in f[s]
    ensures s in h.fields && h.fields[s] == f[s]
    ensures f[s][k].Ref? && f[s][k].kind == StructKind ==> f[s][k].id in f
  {
  }

  /** The main loop, over the trimmed copy. */
  method ItemsSerialize(w: World, c: Id, orders: map<Id, seq<Key>>, ghost h0: Heap, ghost s: Id, ghost m: map<Key, Elem>,
                        ghost t: Tree, ghost f: Fields, ghost rank: Id -> nat)
    returns (ser: map<string, Json>)
    requires Scratch(h0, w.Snap(), s, c, m) && Unfolds(h0, Ref(StructKind, s), t)
    requires Region(h0, f, rank) && s in f && f[s] == h0.fields[s] && Ordered(f, orders)
    modifies w
    ensures Scratch(h0, w.Snap(), s, c, m) && Written(t, m, {}, ser, CleanKeys(f, orders, f[s]))
    ensures m.Keys <= CleanKeys(f, orders, f[s]) && HeldOnce(m) ==> Visited(old(w.Snap()), w.Snap(), f, rank, s, m, {})
    decreases t, 0
  {
    hide Scratch, ValidHeap, UnfoldsFrom, ItemFor, Settled, Agrees, Visited, GrewElem, Region, HeldOnce, CleanElem,
      Ordered;
    ghost var h1 := w.Snap();
    ghost var clean := CleanKeys(f, orders, f[s]);
    ScratchFacts(h0, h1, s, c, m);
    ScratchMembers(h0, h1, s, c, m);
    MemberOf(h0, s, t);
    RegionRanked(h0, f, rank);
    VisitStarts(h1, f, rank, s, m);
    ser := map[];
    var rest := w.fields[c].Keys;
    while rest != {}
      invariant rest <= m.Keys
      invariant Scratch(h0, w.Snap(), s, c, m) && Written(t, m, rest, ser, clean)
      invariant m.Keys <= clean && HeldOnce(m) ==> Visited(h1, w.Snap(), f, rank, s, m, rest)
      decreases rest
    {
      var k :| k in rest;
      ghost var h := w.Snap();
      ScratchFacts(h0, h, s, c, m);
      UnfoldsFrame(0, h0, h, m[k], t.members[k]);
      SlotFits(h, c, k);
      RegionKept(h0, h, s, c, m, f, rank);
      InRegion(h, f, rank, s, k);
      var item := ItemSerialize(w, w.fields[c][k], orders, t.members[k], f, rank);
      ScratchSettled(h0, h, s, c, m, w.Snap());
      if m.Keys <= clean && HeldOnce(m) {
        VisitOne(h1, h, w.Snap(), f, rank, s, m, rest, k);
      }
      WriteKey(t, m, rest, ser, clean, k, item);
      if item.Some? {
        ser := ser[k := item.value];
      }
      rest := rest - {k};
    }
  }

  lemma RegionRanked(h: Heap, f: Fields, rank: Id -> nat)
    requires Region(h, f, rank)
    ensures Ranked(f, rank) && forall x :: x in f ==> x in h.fields && h.fields[x] == f[x]
  {
  }

  lemma ScratchMembers(h0: Heap, h: Heap, s: Id, c: Id, m: map<Key, Elem>)
    requires Scratch(h0, h, s, c, m)
    ensures s in h0.fields && forall k :: k in m ==> k in h0.fields[s] && m[k] == h0.fields[s][k]
  {
  }

  /** Copying, trimming, visiting the items and freeing the copy add up to one visit of `s`. */
  lemma VisitDone(h0: Heap, copied: Heap, trimmed: Heap, visited: Heap, h: Heap,
                  f: Fields, rank: Id -> nat, s: Id, m: map<Key, Elem>)
    requires Ranked(f, rank) && s in f && copied.tracker.Keys == h0.tracker.Keys
    requires forall o :: o in copied.tracker ==> Slack(copied.tracker[o]) == Slack(h0.tracker[o]) + |KeysHolding(f[s], o)|
    requires SlackSame(copied, trimmed) && Visited(trimmed, visited, f, rank, s, m, {}) && SlackSame(visited, h)
    requires StructsIn(m) == StructsIn(f[s])
    ensures GrewBy(h0, h, f, rank, s)
  {
    hide Slack, KeysHolding, StructsIn, ExtraOver, Ranked;
    assert m - {} == m;
    GrewNoMore(trimmed, visited, h, f, rank, StructsIn(m), rank(s));
    GrewInAll(h0, trimmed, h, f, rank, s);
  }

  /** The JSON object of a struct is safe to read if its items are, and its table is proper. */
  lemma StructJsonSafe(id: string, ser: map<string, Json>, dup: map<string, Json>)
    requires |id| == ID_LENGTH && forall k :: k in ser ==> SafeItem(ser[k]) && Yields(ser[k]) && WellFormed(ser[k])
    requires forall k :: k in dup ==> k !in ser && dup[k].JStr? && dup[k].s in ser
    ensures var j := StructJson(id, ser, dup);
            && SafeStruct(j) && SafeItem(j) && IsStructJson(j) && Yields(j) && WellFormed(j)
            && Member(j, "ID") == Some(JStr(id))
  {
    hide StructJson;
    StructJsonParts(id, ser, dup);
    JsonIsObject(id, ser, dup);
    var j := StructJson(id, ser, dup);
    assert "ID" in j.fields && "type" in j.fields && "serialised" in j.fields;
  }

  lemma WrittenSafe(h: Heap, s: Id, t: Tree, table: map<string, Json>, m: map<Key, Elem>, ser: map<string, Json>,
                    clean: set<Key>)
    requires s in h.fields && Unfolds(h, Ref(StructKind, s), t) && NamesItems(h.fields[s], table)
    requires m == WithoutOpaque(h.fields[s], {}) - table.Keys && Written(t, m, {}, ser, clean)
    ensures forall k :: k in ser ==> SafeItem(ser[k]) && Yields(ser[k]) && WellFormed(ser[k])
    ensures forall k :: k in table ==> k !in ser && table[k].JStr? && table[k].s in ser
  {
    hide SafeItem, Yields, WellFormed, Encodes, Reads, UnfoldsFrom, Aliases, Kept;
    MemberOf(h, s, t);
    forall k | k in table
      ensures k !in ser && table[k].JStr? && table[k].s in ser
    {
      KeptByElem(h, h.fields[s][table[k].s], t.members[table[k].s]);
    }
  }

  /** Without late visits the trimmed copy holds each object once, and every struct. */
  lemma RightlyTrimmed(m0: map<Key, Elem>, order: seq<Key>)
    requires Enumerates(order, m0.Keys) && Clean(m0, order) && OneElem(m0)
    ensures NamesOriginals(m0, TableOf(Searched(m0, order).infos))
    ensures var m := WithoutOpaque(m0, {}) - TableOf(Searched(m0, order).infos).Keys;
            HeldOnce(m) && StructsIn(m) == StructsIn(m0)
  {
    hide Searched, TableOf, NamesOriginals, Clean, HeldOnce, StructsIn, OneElem;
    TableRightIff(m0, order);
    TrimmedHolds(m0, TableOf(Searched(m0, order).infos));
  }

  /** Whatever `j` is read as, keys alias as in `m` exactly when no visit in `order` comes late. */
  ghost predicate AliasesBack(j: Json, m: map<Key, Elem>, order: seq<Key>)
    requires forall k :: k in order ==> k in m
  {
    forall t :: Reads(j, t) ==> t.TStruct? && (t.aliases == Aliases(m) <==> Clean(m, order))
  }

  /** What is written for a struct is a JSON form of it exactly when nothing is lost in it or below. */
  lemma StructFor(h: Heap, s: Id, t: Tree, table: map<string, Json>, m: map<Key, Elem>, ser: map<string, Json>,
                  f: Fields, orders: map<Id, seq<Key>>)
    requires s in h.fields && Unfolds(h, Ref(StructKind, s), t) && s in h.ids && |h.ids[s]| == ID_LENGTH
    requires Ordered(f, orders) && s in f && f[s] == h.fields[s] && OneElem(f[s])
    requires s in orders && Enumerates(orders[s], f[s].Keys) && table == TableOf(Searched(f[s], orders[s]).infos)
    requires m == WithoutOpaque(f[s], {}) - table.Keys && Written(t, m, {}, ser, CleanKeys(f, orders, f[s]))
    ensures var j := StructJson(h.ids[s], ser, table);
            && SafeStruct(j) && IsStructJson(j) && Member(j, "ID") == Some(JStr(h.ids[s]))
            && ItemFor(t, j, AllClean(f, orders, s)) && AliasesBack(j, f[s], orders[s])
  {
    hide UnfoldsFrom, Ordered, OneElem, TableOf, Searched, WithoutOpaque, Written, CleanKeys, StructJson,
      SafeStruct, SafeItem, IsStructJson, Yields, WellFormed, Encodes, Reads, ReadTable, NamesItems, NamesOriginals, Clean,
      AllClean, HeldOnce, Aliases, Member;
    var j, clean := StructJson(h.ids[s], ser, table), CleanKeys(f, orders, f[s]);
    MemberOf(h, s, t);
    TableNamesItems(f[s], orders[s]);
    WrittenSafe(h, s, t, table, m, ser, clean);
    StructJsonSafe(h.ids[s], ser, table);
    JsonIsObject(h.ids[s], ser, table);
    forall t' | Reads(j, t')
      ensures t'.TStruct? && (t'.aliases == Aliases(f[s]) <==> Clean(f[s], orders[s]))
    {
      AliasesReadIff(h, s, t, table, m, ser, clean, orders[s], t');
    }
    AllCleanSplit(f, orders, s);
    if AllClean(f, orders, s) {
      RightlyTrimmed(f[s], orders[s]);
      TrimmedKeys(f[s], table.Keys);
      AllWritten(h, s, t, table, m, ser, clean);
    }
    if Reads(j, Norm(t)) {
      StructReads(h.ids[s], ser, table, Norm(t));
      MembersComeBack(t);
      AliasesNeedClean(f[s], orders[s], ser, Norm(t));
      WrittenReads(t, m, ser, clean);
      ItemsNeedClean(h, s, t, table, m, ser, f, orders);
    }
  }

  lemma TrimmedKeys(m: map<Key, Elem>, names: set<Key>)
    ensures (WithoutOpaque(m, {}) - names).Keys <= m.Keys
  {
  }

  lemma WrittenReads(t: Tree, m: map<Key, Elem>, ser: map<string, Json>, clean: set<Key>)
    requires Written(t, m, {}, ser, clean) && Norm(t).TStruct?
    requires forall k :: k in ser && k in Norm(t).members && Yields(ser[k]) ==> Reads(ser[k], Norm(t).members[k])
    ensures forall k :: k in ser && k in t.members ==> Reads(ser[k], Norm(t.members[k]))
  {
    hide Yields, Reads, Norm, SafeItem, WellFormed, Encodes;
    MembersComeBack(t);
  }

  /** `rpc_struct_serialize`; `orders` says in which order the hash map of each struct yields its keys.
      Memory is as it was and what is written is safe to read. It is a JSON form of the struct, and
      stands for it, exactly when no struct reached from it has a late visit in its order; the aliases of
      the struct itself come back exactly when its own order has none. If nothing is late counts have
      grown as by one visit: the scratch copy counts every member twice and gives back only one. */
  method Serialize(w: World, s: Id, orders: map<Id, seq<Key>>, ghost t: Tree, ghost f: Fields, ghost rank: Id -> nat)
    returns (j: Json)
    requires w.Valid() && s in w.fields && Unfolds(w.Snap(), Ref(StructKind, s), t)
    requires Region(w.Snap(), f, rank) && s in f && Ordered(f, orders)
    modifies w
    ensures w.Valid() && Settled(old(w.Snap()), w.Snap())
    ensures t.TStruct? && SafeStruct(j) && IsStructJson(j) && ItemFor(t, j, AllClean(f, orders, s))
    ensures s in old(w.ids) && Member(j, "ID") == Some(JStr(old(w.ids)[s]))
    ensures Encodes(t, j) <==> AllClean(f, orders, s)
    ensures Reads(j, Norm(t)) <==> AllClean(f, orders, s)
    ensures s in orders && Enumerates(orders[s], f[s].Keys) && AliasesBack(j, f[s], orders[s])
    ensures AllClean(f, orders, s) ==> GrewBy(old(w.Snap()), w.Snap(), f, rank, s)
    decreases t, 1
  {
    hide ValidHeap, Scratch, UnfoldsFrom, Encodes, Settled, Slack, KeysHolding, Written, NamesOriginals, FreedExactly,
      Searched, TableOf, OneElem, SlackSame, GrewBy, Visited, HeldOnce, StructsIn, Region, AllClean, SafeStruct, ItemFor,
      StructJson, IsStructJson, WithoutOpaque, CleanKeys, Clean, Enumerates, Ordered, Reads, Norm, Member,
      AliasesBack;
    ghost var h0 := w.Snap();
    StructsHaveIds(h0);
    RegionRanked(h0, f, rank);
    OrderOf(f, orders, s);
    var c := w.Copy(s);
    ghost var copied := w.Snap();
    ScratchStarts(h0, copied, s, c);
    var infos := FoundDuplicates(w.fields[s], orders[s]);
    ElemsOfValid(h0, s);
    TrimOpaque(w, c, h0, s, h0.fields[s]);
    ghost var halfway := w.Snap();
    TrimDuplicates(w, c, infos, h0, s, WithoutOpaque(h0.fields[s], {}));
    ghost var m, trimmed := WithoutOpaque(h0.fields[s], {}) - TableOf(infos).Keys, w.Snap();
    SlackSameTrans(copied, halfway, trimmed);
    var ser := ItemsSerialize(w, c, orders, h0, s, m, t, f, rank);
    ghost var h1 := w.Snap();
    ScratchFacts(h0, h1, s, c, m);
    LiveStruct(h1, c);
    var id := w.ids[s];
    w.FreeObject(c);
    ScratchGone(h0, h1, s, c, m, w.Snap());
    MemberOf(h0, s, t);
    var duplicates := DuplicatesTable(infos);
    j := StructJson(id, ser, duplicates);
    StructFor(h0, s, t, duplicates, m, ser, f, orders);
    ItemForIff(t, j, AllClean(f, orders, s));
    if AllClean(f, orders, s) {
      AllCleanSplit(f, orders, s);
      TrimmedKeys(f[s], duplicates.Keys);
      RightlyTrimmed(f[s], orders[s]);
      VisitDone(h0, copied, trimmed, h1, w.Snap(), f, rank, s, m);
    }
  }

  lemma OrderOf(f: Fields, orders: map<Id, seq<Key>>, s: Id)
    requires Ordered(f, orders) && s in f
    ensures s in orders && Enumerates(orders[s], f[s].Keys)
  {
  }

  lemma LiveStruct(h: Heap, c: Id)
    requires c in h.fields
    ensures Live(h, c)
  {
  }

  /** Every struct can be serialised; `rank` is any witness of acyclicity. */
  method SerializeStruct(w: World, s: Id, orders: map<Id, seq<Key>>, ghost rank: Id -> nat) returns (j: Json)
    requires w.Valid() && s in w.fields && Ranked(w.fields, rank) && Ordered(w.fields, orders)
    modifies w
    ensures w.Valid() && Settled(old(w.Snap()), w.Snap()) && SafeStruct(j) && IsStructJson(j) && WellFormed(j)
    ensures s in old(w.ids) && Member(j, "ID") == Some(JStr(old(w.ids)[s]))
    ensures forall t :: Unfolds(old(w.Snap()), Ref(StructKind, s), t) ==>
              (Encodes(t, j) <==> old(AllClean(w.fields, orders, s)))
    ensures forall t :: Unfolds(old(w.Snap()), Ref(StructKind, s), t) ==>
              (Reads(j, Norm(t)) <==> old(AllClean(w.fields, orders, s)))
    ensures AliasesBack(j, old(w.fields)[s], orders[s])
    ensures old(AllClean(w.fields, orders, s)) ==> GrewBy(old(w.Snap()), w.Snap(), old(w.fields), rank, s)
  {
    hide ValidHeap, UnfoldsFrom, Encodes, Settled, GrewBy, Region, AllClean, SafeStruct, SafeItem, IsStructJson, Yields,
      WellFormed, Reads, Norm, Ordered, Member;
    ghost var t := StructUnfolds(w.Snap(), s);
    WholeRegion(w.Snap(), rank);
    j := Serialize(w, s, orders, t, w.fields, rank);
  }
}
