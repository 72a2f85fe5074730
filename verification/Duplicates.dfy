/** `rpc_struct_found_duplicates`: grouping the keys of a struct by the object they hold, and the
    duplicates table written from the groups. */
module Duplicates {
  import opened Wrappers
  import Bits
  import opened Graph
  import opened Trees
  import opened Codec
  import opened Inflation

  // ---------- groups ----------

  /** The first key found for an object, and the other keys that hold it. */
  datatype DuplicateInfo = DuplicateInfo(original: Key, duplicates: seq<Key>)

  ghost predicate InGroup(info: DuplicateInfo, k: Key) {
    k == info.original || k in info.duplicates
  }

  /** A group of keys, all in `done`, that hold object `o`. */
  ghost predicate IsGroup(m: map<Key, Elem>, info: DuplicateInfo, done: set<Key>, o: Id) {
    && info.original !in info.duplicates
    && forall k :: InGroup(info, k) ==> k in m && k in done && m[k].Ref? && m[k].id == o
  }

  ghost predicate IsIndexed(m: map<Key, Elem>, info: DuplicateInfo, indices: map<Id, nat>, i: nat) {
    info.original in m && m[info.original].Ref? && m[info.original].id in indices && indices[m[info.original].id] == i
  }

  /** The keys in `done` that hold objects are grouped by object; `indices` is the pointer map. */
  ghost predicate Grouped(m: map<Key, Elem>, infos: seq<DuplicateInfo>, indices: map<Id, nat>, done: set<Key>) {
    && (forall o :: o in indices ==> indices[o] < |infos| && IsGroup(m, infos[indices[o]], done, o))
    && (forall i :: 0 <= i < |infos| ==> IsIndexed(m, infos[i], indices, i))
    && (forall k :: k in done && k in m && m[k].Ref? ==> m[k].id in indices && InGroup(infos[indices[m[k].id]], k))
  }

  lemma FirstOfGroup(m: map<Key, Elem>, infos: seq<DuplicateInfo>, indices: map<Id, nat>, done: set<Key>, k: Key)
    requires Grouped(m, infos, indices, done)
    requires k in m && k !in done && m[k].Ref? && m[k].id !in indices
    ensures Grouped(m, infos + [DuplicateInfo(k, [])], indices[m[k].id := |infos|], done + {k})
  {
    var infos', indices' := infos + [DuplicateInfo(k, [])], indices[m[k].id := |infos|];
    forall i | 0 <= i < |infos'|
      ensures IsIndexed(m, infos'[i], indices', i)
    {
      if i < |infos| {
        assert IsIndexed(m, infos[i], indices, i);
      }
    }
    forall o | o in indices'
      ensures indices'[o] < |infos'| && IsGroup(m, infos'[indices'[o]], done + {k}, o)
    {
      if o != m[k].id {
        assert IsGroup(m, infos[indices[o]], done, o);
      }
    }
    forall x | x in done + {k} && x in m && m[x].Ref?
      ensures m[x].id in indices' && InGroup(infos'[indices'[m[x].id]], x)
    {
      if x != k {
        assert InGroup(infos[indices[m[x].id]], x);
      }
    }
  }

  lemma JoinsGroup(m: map<Key, Elem>, infos: seq<DuplicateInfo>, indices: map<Id, nat>, done: set<Key>, k: Key)
    requires Grouped(m, infos, indices, done)
    requires k in m && k !in done && m[k].Ref? && m[k].id in indices
    ensures var i := indices[m[k].id];
            Grouped(m, infos[i := infos[i].(duplicates := infos[i].duplicates + [k])], indices, done + {k})
  {
    var n := indices[m[k].id];
    var infos' := infos[n := infos[n].(duplicates := infos[n].duplicates + [k])];
    forall i | 0 <= i < |infos|
      ensures IsIndexed(m, infos'[i], indices, i)
    {
      assert IsIndexed(m, infos[i], indices, i);
    }
    forall o | o in indices
      ensures IsGroup(m, infos'[indices[o]], done + {k}, o)
    {
      assert IsGroup(m, infos[indices[o]], done, o);
      if indices[o] == n {
        assert IsGroup(m, infos[n], done, m[k].id);
        assert InGroup(infos[n], infos[n].original);
      }
    }
    forall x | x in done + {k} && x in m && m[x].Ref?
      ensures m[x].id in indices && InGroup(infos'[indices[m[x].id]], x)
    {
      if x != k {
        assert InGroup(infos[indices[m[x].id]], x);
      }
    }
  }

  lemma SkipsKey(m: map<Key, Elem>, infos: seq<DuplicateInfo>, indices: map<Id, nat>, done: set<Key>, k: Key)
    requires Grouped(m, infos, indices, done) && k in m && !m[k].Ref?
    ensures Grouped(m, infos, indices, done + {k})
  {
    forall o | o in indices
      ensures IsGroup(m, infos[indices[o]], done + {k}, o)
    {
      assert IsGroup(m, infos[indices[o]], done, o);
    }
    forall x | x in done + {k} && x in m && m[x].Ref?
      ensures m[x].id in indices && InGroup(infos[indices[m[x].id]], x)
    {
    }
  }

  lemma NoGroups(m: map<Key, Elem>)
    ensures Grouped(m, [], map[], {})
  {
  }

  // ---------- the duplicates table ----------

  /** The table written for the groups: every duplicate names its original. */
  function TableOf(infos: seq<DuplicateInfo>): map<string, Json> {
    if infos == [] then map[]
    else
      var last := infos[|infos| - 1];
      TableOf(infos[..|infos| - 1]) + map d | d in last.duplicates :: JStr(last.original)
  }

  /** The entries for the first `j` duplicates of a group. */
  function Entries(info: DuplicateInfo, j: nat): map<string, Json>
    requires j <= |info.duplicates|
  {
    map d | d in info.duplicates[..j] :: JStr(info.original)
  }

  lemma OneEntry(table: map<string, Json>, info: DuplicateInfo, j: nat)
    requires j < |info.duplicates|
    ensures (table + Entries(info, j))[info.duplicates[j] := JStr(info.original)] == table + Entries(info, j + 1)
  {
    assert info.duplicates[..j + 1] == info.duplicates[..j] + [info.duplicates[j]];
  }

  method DuplicatesTable(infos: seq<DuplicateInfo>) returns (table: map<string, Json>)
    ensures table == TableOf(infos)
  {
    hide TableOf, Entries;
    table := map[];
    NoEntries(infos);
    var i := 0;
    while i < |infos|
      invariant 0 <= i <= |infos| && table == TableOf(infos[..i])
    {
      var info := infos[i];
      var j := 0;
      TableStep(infos, i);
      while j < |info.duplicates|
        invariant 0 <= j <= |info.duplicates|
        invariant table == TableOf(infos[..i]) + Entries(info, j)
      {
        OneEntry(TableOf(infos[..i]), info, j);
        table := table[info.duplicates[j] := JStr(info.original)];
        j := j + 1;
      }
      i := i + 1;
    }
    assert infos[..i] == infos;
  }

  lemma NoEntries(infos: seq<DuplicateInfo>)
    ensures TableOf(infos[..0]) == map[]
  {
  }

  lemma TableStep(infos: seq<DuplicateInfo>, i: nat)
    requires i < |infos|
    ensures TableOf(infos[..i]) + Entries(infos[i], 0) == TableOf(infos[..i])
    ensures TableOf(infos[..i + 1]) == TableOf(infos[..i]) + Entries(infos[i], |infos[i].duplicates|)
  {
    assert infos[..i + 1][..i] == infos[..i];
    assert infos[i].duplicates[..|infos[i].duplicates|] == infos[i].duplicates;
  }

  lemma {:induction false} TableKey(infos: seq<DuplicateInfo>, k: Key) returns (i: nat)
    requires k in TableOf(infos)
    ensures i < |infos| && k in infos[i].duplicates && TableOf(infos)[k] == JStr(infos[i].original)
  {
    var n := |infos| - 1;
    if k in infos[n].duplicates {
      i := n;
    } else {
      i := TableKey(infos[..n], k);
    }
  }

  lemma {:induction false} TableHas(infos: seq<DuplicateInfo>, i: nat, k: Key)
    requires i < |infos| && k in infos[i].duplicates
    ensures k in TableOf(infos)
  {
    if i < |infos| - 1 {
      TableHas(infos[..|infos| - 1], i, k);
    }
  }

  /** One kind per object, as in every valid heap. */
  ghost predicate OneElem(m: map<Key, Elem>) {
    forall a, b :: a in m && b in m && m[a].Ref? && m[b].Ref? && m[a].id == m[b].id ==> m[a] == m[b]
  }

  /** Duplicates name a key that is none and holds the same object; no two keys that are not
      duplicates hold the same object. */
  ghost predicate NamesOriginals(m: map<Key, Elem>, table: map<string, Json>) {
    && (forall k :: k in table ==>
          && k in m && m[k].Ref?
          && table[k].JStr? && table[k].s in m && table[k].s !in table && m[table[k].s] == m[k])
    && (forall a, b :: a in m && b in m && a !in table && b !in table && m[a].Ref? && m[a] == m[b] ==> a == b)
  }

  /** The object whose group has index `i`. */
  lemma GroupAt(m: map<Key, Elem>, infos: seq<DuplicateInfo>, indices: map<Id, nat>, i: nat) returns (o: Id)
    requires Grouped(m, infos, indices, m.Keys) && i < |infos|
    ensures o in indices && indices[o] == i && IsGroup(m, infos[i], m.Keys, o)
  {
    assert IsIndexed(m, infos[i], indices, i);
    o := m[infos[i].original].id;
  }

  lemma OneGroup(m: map<Key, Elem>, infos: seq<DuplicateInfo>, indices: map<Id, nat>, i: nat, j: nat, k: Key)
    requires Grouped(m, infos, indices, m.Keys) && i < |infos| && j < |infos| && InGroup(infos[i], k) && InGroup(infos[j], k)
    ensures i == j && infos[i].original !in infos[i].duplicates
  {
    hide Grouped;
    var o := GroupAt(m, infos, indices, i);
    var o' := GroupAt(m, infos, indices, j);
    assert o == m[k].id == o';
  }

  lemma OriginalUnlisted(m: map<Key, Elem>, infos: seq<DuplicateInfo>, indices: map<Id, nat>, i: nat)
    requires Grouped(m, infos, indices, m.Keys) && i < |infos|
    ensures infos[i].original !in TableOf(infos)
  {
    hide Grouped, TableOf;
    if infos[i].original in TableOf(infos) {
      var j := TableKey(infos, infos[i].original);
      OneGroup(m, infos, indices, i, j, infos[i].original);
    }
  }

  lemma UnlistedIsOriginal(m: map<Key, Elem>, infos: seq<DuplicateInfo>, indices: map<Id, nat>, k: Key)
    requires Grouped(m, infos, indices, m.Keys) && k in m && m[k].Ref? && k !in TableOf(infos)
    ensures m[k].id in indices && indices[m[k].id] < |infos| && k == infos[indices[m[k].id]].original
  {
    hide TableOf, IsGroup;
    var i := indices[m[k].id];
    assert InGroup(infos[i], k);
    if k in infos[i].duplicates {
      TableHas(infos, i, k);
    }
  }

  lemma TableNamesOriginals(m: map<Key, Elem>, infos: seq<DuplicateInfo>, indices: map<Id, nat>)
    requires Grouped(m, infos, indices, m.Keys) && OneElem(m)
    ensures NamesOriginals(m, TableOf(infos))
  {
    hide TableOf, Grouped;
    var table := TableOf(infos);
    forall k | k in table
      ensures && k in m && m[k].Ref?
              && table[k].JStr? && table[k].s in m && table[k].s !in table && m[table[k].s] == m[k]
    {
      var i := TableKey(infos, k);
      var o := GroupAt(m, infos, indices, i);
      assert InGroup(infos[i], k) && InGroup(infos[i], infos[i].original);
      OriginalUnlisted(m, infos, indices, i);
    }
    forall a, b | a in m && b in m && a !in table && b !in table && m[a].Ref? && m[a] == m[b]
      ensures a == b
    {
      UnlistedIsOriginal(m, infos, indices, a);
      UnlistedIsOriginal(m, infos, indices, b);
    }
  }

  // ---------- the search ----------

  /** The capacity of the first block of results; a full block is replaced by one twice as large. */
  const INITIAL_CAPACITY := 16

  /** A pointer to a result: its index and the capacity of the block it points into. Once the block
      has been replaced the pointer dangles. */
  datatype Pointer = Pointer(index: nat, block: nat)

  /** The results so far, the pointer map and the capacity of the current block. */
  datatype Search = Search(infos: seq<DuplicateInfo>, pointers: map<Id, Pointer>, capacity: nat)

  /** The block a new result goes to. */
  function Room(capacity: nat, count: nat): nat {
    if count == capacity then capacity * 2 else capacity
  }

  /** Visiting one key. A duplicate recorded through a dangling pointer is lost with the old block. */
  function Visit(m: map<Key, Elem>, st: Search, k: Key): Search
    requires k in m
  {
    if !m[k].Ref? then st
    else if m[k].id !in st.pointers then
      var capacity := Room(st.capacity, |st.infos|);
      Search(st.infos + [DuplicateInfo(k, [])], st.pointers[m[k].id := Pointer(|st.infos|, capacity)], capacity)
    else
      var p := st.pointers[m[k].id];
      if p.block != st.capacity || p.index >= |st.infos| then st
      else
        var info := st.infos[p.index];
        st.(infos := st.infos[p.index := info.(duplicates := info.duplicates + [k])])
  }

  /** Visiting keys in order. */
  function Searched(m: map<Key, Elem>, order: seq<Key>): Search
    requires forall k :: k in order ==> k in m
  {
    if order == [] then Search([], map[], INITIAL_CAPACITY)
    else
      var n := |order| - 1;
      Visit(m, Searched(m, order[..n]), order[n])
  }

  /** `rpc_struct_found_duplicates`, for the order in which the map yields its keys. */
  method FoundDuplicates(m: map<Key, Elem>, order: seq<Key>) returns (infos: seq<DuplicateInfo>)
    requires Enumerates(order, m.Keys)
    ensures infos == Searched(m, order).infos
    ensures RightGroups(m, infos) <==> Clean(m, order)
    ensures |Objects(m)| <= 16 || HeldOnce(m) ==> RightGroups(m, infos)
  {
    hide RightGroups, Clean, Objects, HeldOnce;
    infos := [];
    var pointers: map<Id, Pointer> := map[];
    var capacity: nat := INITIAL_CAPACITY;
    var i := 0;
    while i < |order|
      invariant 0 <= i <= |order|
      invariant Searched(m, order[..i]) == Search(infos, pointers, capacity)
    {
      assert order[..i + 1][..i] == order[..i];
      var k := order[i];
      if m[k].Ref? {
        if m[k].id !in pointers {
          if |infos| == capacity {
            capacity := capacity * 2;
          }
          pointers := pointers[m[k].id := Pointer(|infos|, capacity)];
          infos := infos + [DuplicateInfo(k, [])];
        } else {
          var p := pointers[m[k].id];
          if p.block == capacity && p.index < |infos| {
            var info := infos[p.index];
            infos := infos[p.index := info.(duplicates := info.duplicates + [k])];
          }
        }
      }
      i := i + 1;
    }
    assert order[..i] == order;
    RightForOrderIff(m, order);
    if |Objects(m)| <= 16 || HeldOnce(m) {
      GroupableIsOrderly(m, order);
    }
  }

  // ---------- when the groups are right ----------

  ghost function Objects(m: map<Key, Elem>): set<Id> {
    set k | k in m && m[k].Ref? :: m[k].id
  }

  /** Every key that holds an object is in the group of that object. */
  ghost predicate RightGroups(m: map<Key, Elem>, infos: seq<DuplicateInfo>) {
    exists indices :: Grouped(m, infos, indices, m.Keys)
  }

  /** The visit of the `n`-th key finds a dangling pointer. */
  ghost predicate Dangles(m: map<Key, Elem>, order: seq<Key>, n: nat)
    requires n < |order| && forall k :: k in order ==> k in m
  {
    var st := Searched(m, order[..n]);
    m[order[n]].Ref? && m[order[n]].id in st.pointers && st.pointers[m[order[n]].id].block != st.capacity
  }

  ghost function Indices(pointers: map<Id, Pointer>): map<Id, nat> {
    map o | o in pointers :: pointers[o].index
  }

  ghost function Keys(order: seq<Key>): set<Key> {
    set k | k in order
  }

  /** What holds of every search, dangling pointers or not. */
  ghost predicate Sound(m: map<Key, Elem>, order: seq<Key>, st: Search) {
    && |st.pointers| == |st.infos| <= st.capacity
    && INITIAL_CAPACITY <= st.capacity && (st.capacity == INITIAL_CAPACITY <==> |st.infos| <= INITIAL_CAPACITY)
    && (forall o :: o in st.pointers ==> st.pointers[o].index < |st.infos|)
    && (forall k :: k in order && k in m && m[k].Ref? ==> m[k].id in st.pointers)
    && (forall o :: o in st.pointers ==> exists k :: k in order && k in m && m[k].Ref? && m[k].id == o)
    && (forall i, k :: 0 <= i < |st.infos| && InGroup(st.infos[i], k) ==> k in order)
  }

  lemma VisitSound(m: map<Key, Elem>, order: seq<Key>, st: Search, k: Key)
    requires Sound(m, order, st) && k in m
    ensures Sound(m, order + [k], Visit(m, st, k))
  {
    var st' := Visit(m, st, k);
    forall o | o in st'.pointers
      ensures exists j :: j in order + [k] && j in m && m[j].Ref? && m[j].id == o
    {
      if o in st.pointers {
        var j :| j in order && j in m && m[j].Ref? && m[j].id == o;
        assert j in order + [k];
      } else {
        assert k in order + [k];
      }
    }
    forall i, j | 0 <= i < |st'.infos| && InGroup(st'.infos[i], j)
      ensures j in order + [k]
    {
      if i < |st.infos| && j != k {
        assert InGroup(st.infos[i], j);
      }
    }
  }

  lemma {:induction false} SearchSound(m: map<Key, Elem>, order: seq<Key>)
    requires forall k :: k in order ==> k in m
    ensures Sound(m, order, Searched(m, order))
  {
    hide Sound, Visit;
    if order == [] {
      NothingSound(m);
    } else {
      var n := |order| - 1;
      SearchSound(m, order[..n]);
      VisitSound(m, order[..n], Searched(m, order[..n]), order[n]);
      assert order[..n] + [order[n]] == order;
    }
  }

  lemma NothingSound(m: map<Key, Elem>)
    ensures Sound(m, [], Search([], map[], INITIAL_CAPACITY))
  {
  }

  /** One visit through a live pointer, or of a new object, keeps the groups right. */
  lemma VisitGroups(m: map<Key, Elem>, st: Search, done: set<Key>, k: Key)
    requires Grouped(m, st.infos, Indices(st.pointers), done) && k in m && k !in done
    requires m[k].Ref? && m[k].id in st.pointers ==> st.pointers[m[k].id].block == st.capacity
    ensures var st' := Visit(m, st, k); Grouped(m, st'.infos, Indices(st'.pointers), done + {k})
  {
    hide Grouped;
    if !m[k].Ref? {
      SkipsKey(m, st.infos, Indices(st.pointers), done, k);
    } else if m[k].id !in st.pointers {
      FirstOfGroup(m, st.infos, Indices(st.pointers), done, k);
      var st' := Visit(m, st, k);
      assert Indices(st'.pointers) == Indices(st.pointers)[m[k].id := |st.infos|];
    } else {
      GroupInRange(m, st, done, m[k].id);
      JoinsGroup(m, st.infos, Indices(st.pointers), done, k);
    }
  }

  lemma GroupInRange(m: map<Key, Elem>, st: Search, done: set<Key>, o: Id)
    requires Grouped(m, st.infos, Indices(st.pointers), done) && o in st.pointers
    ensures st.pointers[o].index < |st.infos|
  {
    assert Indices(st.pointers)[o] < |st.infos|;
  }

  lemma DanglesInPrefix(m: map<Key, Elem>, order: seq<Key>, n: nat, i: nat)
    requires i < n <= |order| && (forall k :: k in order ==> k in m)
    ensures forall k :: k in order[..n] ==> k in m
    ensures Dangles(m, order[..n], i) <==> Dangles(m, order, i)
  {
    assert order[..n][..i] == order[..i];
  }

  /** With no dangling pointer the search groups the keys visited. */
  lemma {:induction false} LiveGroups(m: map<Key, Elem>, order: seq<Key>)
    requires (forall k :: k in order ==> k in m) && forall i, j :: 0 <= i < j < |order| ==> order[i] != order[j]
    requires forall n: nat :: n < |order| ==> !Dangles(m, order, n)
    ensures var st := Searched(m, order); Grouped(m, st.infos, Indices(st.pointers), Keys(order))
  {
    hide Grouped, Visit, Dangles;
    if order == [] {
      NoGroups(m);
      assert Indices(map[]) == map[] && Keys(order) == {};
    } else {
      var n := |order| - 1;
      forall i: nat | i < n
        ensures !Dangles(m, order[..n], i)
      {
        DanglesInPrefix(m, order, n, i);
      }
      LiveGroups(m, order[..n]);
      assert !Dangles(m, order, n);
      LastIsLive(m, order, n);
      VisitGroups(m, Searched(m, order[..n]), Keys(order[..n]), order[n]);
      assert Keys(order[..n]) + {order[n]} == Keys(order);
    }
  }

  lemma LastIsLive(m: map<Key, Elem>, order: seq<Key>, n: nat)
    requires n < |order| && (forall k :: k in order ==> k in m) && !Dangles(m, order, n)
    ensures var st := Searched(m, order[..n]);
            m[order[n]].Ref? && m[order[n]].id in st.pointers ==> st.pointers[m[order[n]].id].block == st.capacity
  {
  }

  /** A key visited through a dangling pointer is in no group when the search ends. */
  lemma {:induction false} DanglingIsLost(m: map<Key, Elem>, order: seq<Key>, n: nat)
    requires (forall k :: k in order ==> k in m) && forall i, j :: 0 <= i < j < |order| ==> order[i] != order[j]
    requires n < |order| && Dangles(m, order, n)
    ensures forall i :: 0 <= i < |Searched(m, order).infos| ==> !InGroup(Searched(m, order).infos[i], order[n])
    decreases |order|
  {
    var last := |order| - 1;
    var st := Searched(m, order[..last]);
    if n == last {
      SearchSound(m, order[..last]);
      assert order[n] !in order[..last];
    } else {
      DanglesInPrefix(m, order, last, n);
      DanglingIsLost(m, order[..last], n);
      OthersStay(m, st, order[last], order[n]);
    }
  }

  lemma OthersStay(m: map<Key, Elem>, st: Search, k: Key, b: Key)
    requires k in m && b != k && forall i :: 0 <= i < |st.infos| ==> !InGroup(st.infos[i], b)
    ensures var st' := Visit(m, st, k); forall i :: 0 <= i < |st'.infos| ==> !InGroup(st'.infos[i], b)
  {
  }

  /** For a given order the groups are right exactly when no visit finds a dangling pointer, ... */
  lemma LiveOrderIff(m: map<Key, Elem>, order: seq<Key>)
    requires Enumerates(order, m.Keys)
    ensures RightGroups(m, Searched(m, order).infos) <==> forall n: nat :: n < |order| ==> !Dangles(m, order, n)
  {
    hide Grouped, Searched, Dangles;
    if forall n: nat :: n < |order| ==> !Dangles(m, order, n) {
      LiveGroups(m, order);
      assert Keys(order) == m.Keys;
    } else {
      var n: nat :| n < |order| && Dangles(m, order, n);
      DanglingIsLost(m, order, n);
      assert order[n] in order;
      DanglingIsObject(m, order, n);
      LostIsWrong(m, Searched(m, order).infos, order[n]);
    }
  }

  lemma DanglingIsObject(m: map<Key, Elem>, order: seq<Key>, n: nat)
    requires n < |order| && (forall k :: k in order ==> k in m) && Dangles(m, order, n)
    ensures m[order[n]].Ref?
  {
  }

  lemma LostIsWrong(m: map<Key, Elem>, infos: seq<DuplicateInfo>, b: Key)
    requires b in m && m[b].Ref? && forall i :: 0 <= i < |infos| ==> !InGroup(infos[i], b)
    ensures !RightGroups(m, infos)
  {
  }

  // ---------- dangling in terms of the order ----------

  /** The distinct objects met, in the order of their first visits. */
  ghost function MetObjects(m: map<Key, Elem>, order: seq<Key>): seq<Id>
    requires forall k :: k in order ==> k in m
  {
    if order == [] then []
    else
      var n := |order| - 1;
      var met := MetObjects(m, order[..n]);
      if m[order[n]].Ref? && m[order[n]].id !in met then met + [m[order[n]].id] else met
  }

  /** The capacity of the block once `count` objects have been met. */
  ghost function Capacity(count: nat): nat {
    if count == 0 then INITIAL_CAPACITY else Room(Capacity(count - 1), count - 1)
  }

  /** The search keeps, for the object met as number `r`, a pointer into the block of that time. */
  lemma {:induction false} SearchMet(m: map<Key, Elem>, order: seq<Key>)
    requires forall k :: k in order ==> k in m
    ensures var st, met := Searched(m, order), MetObjects(m, order);
            && |st.infos| == |met| && st.capacity == Capacity(|met|)
            && (forall o :: o in st.pointers <==> o in met)
            && (forall i, j :: 0 <= i < j < |met| ==> met[i] != met[j])
            && (forall i :: 0 <= i < |met| ==> st.pointers[met[i]] == Pointer(i, Capacity(i + 1)))
  {
    hide Capacity;
    NoneMet();
    if order != [] {
      var n := |order| - 1;
      SearchMet(m, order[..n]);
      NextCapacity(|MetObjects(m, order[..n])|);
    }
  }

  lemma NoneMet()
    ensures Capacity(0) == INITIAL_CAPACITY
  {
  }

  lemma NextCapacity(count: nat)
    ensures Capacity(count + 1) == Room(Capacity(count), count)
  {
  }

  /** The block is the smallest of 16, 32, 64, ... that takes all objects met. */
  lemma {:induction false} CapacityIsLeast(count: nat) returns (i: nat)
    ensures count <= Capacity(count) == 16 * Bits.Pow2(i)
    ensures forall j: nat :: count <= 16 * Bits.Pow2(j) ==> Capacity(count) <= 16 * Bits.Pow2(j)
  {
    if count == 0 {
      i := 0;
      assert Bits.Pow2(0) == 1;
    } else {
      i := CapacityIsLeast(count - 1);
      if count - 1 == Capacity(count - 1) {
        var i0 := i;
        forall j: nat | count <= 16 * Bits.Pow2(j)
          ensures Bits.Pow2(i0 + 1) <= Bits.Pow2(j)
        {
          Bits.Pow2Strict(i0, j);
          Bits.Pow2Monotone(i0 + 1, j);
        }
        i := i + 1;
        assert Bits.Pow2(i) == 2 * Bits.Pow2(i0);
      }
    }
  }

  /** A block of 16 * 2^`i` takes object number `r`, counted from 0, but not `count` objects. */
  ghost predicate Outgrown(r: nat, i: nat, count: nat) {
    r + 1 <= 16 * Bits.Pow2(i) < count
  }

  /** The block that took object number `r` has been replaced exactly when some block is outgrown. */
  lemma CapacityGrewIff(r: nat, count: nat)
    requires r < count
    ensures Capacity(r + 1) != Capacity(count) <==> exists i: nat :: Outgrown(r, i, count)
  {
    hide Capacity;
    var i := CapacityIsLeast(r + 1);
    var j := CapacityIsLeast(count);
    if k: nat :| Outgrown(r, k, count) {
      assert Capacity(r + 1) <= 16 * Bits.Pow2(k) < count <= Capacity(count);
    } else {
      assert !Outgrown(r, i, count);
      assert count <= 16 * Bits.Pow2(i);
      assert r + 1 <= 16 * Bits.Pow2(j);
    }
  }

  /** The object was met before, as number `r`, and a block of 16, 32, 64, ... that took it has been
      outgrown since. */
  ghost predicate Late(m: map<Key, Elem>, order: seq<Key>, n: nat)
    requires n < |order| && forall k :: k in order ==> k in m
  {
    var met := MetObjects(m, order[..n]);
    m[order[n]].Ref? && exists r: nat, i: nat ::
      r < |met| && met[r] == m[order[n]].id && Outgrown(r, i, |met|)
  }

  /** Such visits and no others find a dangling pointer. */
  lemma DanglesIff(m: map<Key, Elem>, order: seq<Key>, n: nat)
    requires n < |order| && forall k :: k in order ==> k in m
    ensures Dangles(m, order, n) <==> Late(m, order, n)
  {
    hide Searched, MetObjects, Capacity, Outgrown;
    var met := MetObjects(m, order[..n]);
    SearchMet(m, order[..n]);
    if m[order[n]].Ref? && m[order[n]].id in met {
      var r: nat :| r < |met| && met[r] == m[order[n]].id;
      assert forall x: nat :: x < |met| && met[x] == met[r] ==> x == r;
      CapacityGrewIff(r, |met|);
    } else {
      assert forall x: nat :: x < |met| && m[order[n]].Ref? ==> met[x] != m[order[n]].id;
    }
  }

  /** No visit comes late. */
  ghost predicate Clean(m: map<Key, Elem>, order: seq<Key>)
    requires forall k :: k in order ==> k in m
  {
    forall n: nat :: n < |order| ==> !Late(m, order, n)
  }

  lemma CleanIff(m: map<Key, Elem>, order: seq<Key>)
    requires forall k :: k in order ==> k in m
    ensures Clean(m, order) <==> forall n: nat :: n < |order| ==> !Dangles(m, order, n)
  {
    hide Late, Dangles;
    forall n: nat | n < |order|
      ensures Dangles(m, order, n) <==> Late(m, order, n)
    {
      DanglesIff(m, order, n);
    }
  }

  /** ... that is, exactly when no visit comes late. */
  lemma RightForOrderIff(m: map<Key, Elem>, order: seq<Key>)
    requires Enumerates(order, m.Keys)
    ensures RightGroups(m, Searched(m, order).infos) <==> Clean(m, order)
  {
    hide Searched, Dangles, Clean, RightGroups;
    LiveOrderIff(m, order);
    CleanIff(m, order);
  }

  /** At most 16 objects, or no object under two keys. */
  ghost predicate Groupable(m: map<Key, Elem>) {
    |Objects(m)| <= 16 || HeldOnce(m)
  }

  lemma PointersAreObjects(m: map<Key, Elem>, order: seq<Key>, st: Search)
    requires Sound(m, order, st)
    ensures st.pointers.Keys <= Objects(m) && |st.infos| <= |Objects(m)|
  {
    SubsetSize(st.pointers.Keys, Objects(m));
    assert |st.pointers.Keys| == |st.pointers|;
  }

  /** All pointers into the first block carry its capacity. */
  lemma {:induction false} FirstBlock(m: map<Key, Elem>, order: seq<Key>)
    requires (forall k :: k in order ==> k in m) && |Objects(m)| <= INITIAL_CAPACITY
    ensures var st := Searched(m, order);
            st.capacity == INITIAL_CAPACITY && forall o :: o in st.pointers ==> st.pointers[o].block == INITIAL_CAPACITY
  {
    SearchSound(m, order);
    PointersAreObjects(m, order, Searched(m, order));
    if order != [] {
      FirstBlock(m, order[..|order| - 1]);
    }
  }

  lemma GroupableIsLive(m: map<Key, Elem>, order: seq<Key>, n: nat)
    requires Enumerates(order, m.Keys) && Groupable(m) && n < |order|
    ensures !Dangles(m, order, n)
  {
    hide Searched, Sound;
    assert order[n] in order;
    if |Objects(m)| <= INITIAL_CAPACITY {
      FirstBlock(m, order[..n]);
    } else {
      SearchSound(m, order[..n]);
      NotMetBefore(m, order, n);
    }
  }

  lemma NotMetBefore(m: map<Key, Elem>, order: seq<Key>, n: nat)
    requires Enumerates(order, m.Keys) && HeldOnce(m) && n < |order|
    requires Sound(m, order[..n], Searched(m, order[..n]))
    ensures m[order[n]].Ref? ==> m[order[n]].id !in Searched(m, order[..n]).pointers
  {
    hide Searched;
    assert forall k :: k in order[..n] && k in m && m[k].Ref? && m[order[n]].Ref? ==> m[k].id != m[order[n]].id;
  }

  /** The block of the first object visited stays the first block. */
  lemma {:induction false} FirstPointer(m: map<Key, Elem>, order: seq<Key>)
    requires (forall k :: k in order ==> k in m) && order != [] && m[order[0]].Ref?
    ensures var st := Searched(m, order);
            m[order[0]].id in st.pointers && st.pointers[m[order[0]].id].block == INITIAL_CAPACITY
  {
    if |order| > 1 {
      FirstPointer(m, order[..|order| - 1]);
    } else {
      assert order[..0] == [];
    }
  }

  /** More than one block of objects, and the object met first met again at the very end. */
  lemma LateAliasDangles(m: map<Key, Elem>, order: seq<Key>)
    requires Enumerates(order, m.Keys) && |Objects(m)| > INITIAL_CAPACITY && |order| >= 2
    requires var a, b := order[0], order[|order| - 1]; m[a].Ref? && m[b].Ref? && m[a].id == m[b].id
    ensures Dangles(m, order, |order| - 1)
  {
    hide Searched;
    var n := |order| - 1;
    var before := order[..n];
    var st := Searched(m, before);
    SearchSound(m, before);
    FirstPointer(m, before);
    forall o | o in Objects(m)
      ensures o in st.pointers.Keys
    {
      var k :| k in m && m[k].Ref? && m[k].id == o;
      var i :| 0 <= i < |order| && order[i] == k;
      if i == n {
        assert order[0] in before;
      } else {
        assert before[i] == k;
      }
    }
    SubsetSize(Objects(m), st.pointers.Keys);
    assert |st.pointers.Keys| == |st.pointers|;
  }

  /** Listing an alias first and last makes its second visit late. */
  lemma LateOrder(m: map<Key, Elem>) returns (order: seq<Key>)
    requires !Groupable(m)
    ensures Enumerates(order, m.Keys) && !Clean(m, order)
  {
    hide Clean, Dangles, Objects;
    var a, b :| a in m && b in m && m[a].Ref? && m[b].Ref? && m[a].id == m[b].id && a != b;
    order := Around(m.Keys, a, b);
    LateAliasDangles(m, order);
    CleanIff(m, order);
  }

  lemma Around(keys: set<Key>, a: Key, b: Key) returns (order: seq<Key>)
    requires a in keys && b in keys && a != b
    ensures Enumerates(order, keys) && |order| >= 2 && order[0] == a && order[|order| - 1] == b
  {
    var rest := Listing(keys - {a, b});
    order := [a] + rest + [b];
    forall k
      ensures k in order <==> k in keys
    {
      assert k in order <==> k == a || k in rest || k == b;
    }
  }

  lemma GroupableIsOrderly(m: map<Key, Elem>, order: seq<Key>)
    requires Enumerates(order, m.Keys) && Groupable(m)
    ensures Clean(m, order)
  {
    hide Clean, Dangles, Groupable;
    CleanIff(m, order);
    forall n: nat | n < |order|
      ensures !Dangles(m, order, n)
    {
      GroupableIsLive(m, order, n);
    }
  }

  /** Every order of the keys is clean exactly when the struct holds at most 16 objects or none twice. */
  lemma EveryOrderCleanIff(m: map<Key, Elem>)
    ensures (forall order :: Enumerates(order, m.Keys) ==> Clean(m, order)) <==> Groupable(m)
  {
    hide Clean, Groupable;
    if Groupable(m) {
      forall order | Enumerates(order, m.Keys)
        ensures Clean(m, order)
      {
        GroupableIsOrderly(m, order);
      }
    } else {
      var order := LateOrder(m);
      assert !Clean(m, order);
    }
  }

  /** So the groups come out right whatever the order exactly in that case. */
  lemma GroupsRightIff(m: map<Key, Elem>)
    ensures (forall order :: Enumerates(order, m.Keys) ==> RightGroups(m, Searched(m, order).infos))
              <==> |Objects(m)| <= 16 || HeldOnce(m)
  {
    hide Searched, RightGroups, Clean, Objects, HeldOnce;
    forall order | Enumerates(order, m.Keys)
      ensures RightGroups(m, Searched(m, order).infos) <==> Clean(m, order)
    {
      RightForOrderIff(m, order);
    }
    EveryOrderCleanIff(m);
  }

  /** A lost key neither is listed as a duplicate nor stands for one. */
  lemma LostIsUnlisted(infos: seq<DuplicateInfo>, b: Key)
    requires forall i :: 0 <= i < |infos| ==> !InGroup(infos[i], b)
    ensures b !in TableOf(infos)
    ensures forall k :: k in TableOf(infos) ==> TableOf(infos)[k] != JStr(b)
  {
    hide TableOf;
    if b in TableOf(infos) {
      var i := TableKey(infos, b);
    }
    forall k | k in TableOf(infos)
      ensures TableOf(infos)[k] != JStr(b)
    {
      var i := TableKey(infos, k);
      assert InGroup(infos[i], infos[i].original);
    }
  }

  /** What goes through a dangling pointer is the alias of a key visited before. */
  lemma DanglingAlias(m: map<Key, Elem>, order: seq<Key>, n: nat) returns (a: Key)
    requires Enumerates(order, m.Keys) && OneElem(m) && n < |order| && Dangles(m, order, n)
    ensures a in m && order[n] in m && m[a].Ref? && m[a] == m[order[n]] && a != order[n]
  {
    hide Searched;
    assert order[n] in order;
    SearchSound(m, order[..n]);
    a :| a in order[..n] && a in m && m[a].Ref? && m[a].id == m[order[n]].id;
  }

  /** For a given order the table names originals exactly when no visit comes late. */
  lemma TableRightIff(m: map<Key, Elem>, order: seq<Key>)
    requires Enumerates(order, m.Keys) && OneElem(m)
    ensures NamesOriginals(m, TableOf(Searched(m, order).infos)) <==> Clean(m, order)
  {
    hide Searched, Dangles, TableOf, RightGroups, Grouped, Clean;
    var infos := Searched(m, order).infos;
    CleanIff(m, order);
    if n: nat :| n < |order| && Dangles(m, order, n) {
      var a := DanglingAlias(m, order, n);
      DanglingIsLost(m, order, n);
      LostIsUnlisted(infos, order[n]);
    } else {
      LiveOrderIff(m, order);
      RightIsGrouped(m, infos);
    }
  }

  lemma RightIsGrouped(m: map<Key, Elem>, infos: seq<DuplicateInfo>)
    requires RightGroups(m, infos) && OneElem(m)
    ensures NamesOriginals(m, TableOf(infos))
  {
    hide Grouped, TableOf, NamesOriginals, OneElem;
    var indices :| Grouped(m, infos, indices, m.Keys);
    TableNamesOriginals(m, infos, indices);
  }

  /** A late visit loses an alias: two keys hold the same object, yet the table makes them stand for
      different items. */
  lemma LateLosesAlias(m: map<Key, Elem>, order: seq<Key>) returns (a: Key, b: Key)
    requires Enumerates(order, m.Keys) && OneElem(m) && !Clean(m, order)
    ensures (a, b) in Aliases(m) && Rep(TableOf(Searched(m, order).infos), a) != Rep(TableOf(Searched(m, order).infos), b)
  {
    hide Searched, Dangles, TableOf, Clean;
    CleanIff(m, order);
    var n: nat :| n < |order| && Dangles(m, order, n);
    b := order[n];
    a := DanglingAlias(m, order, n);
    DanglingIsLost(m, order, n);
    LostIsUnlisted(Searched(m, order).infos, b);
  }

  // ---------- what holds of the table for every order ----------

  /** Groups never mix objects, and no original is a duplicate. */
  ghost predicate Truthful(m: map<Key, Elem>, st: Search) {
    && (forall i :: 0 <= i < |st.infos| ==> st.infos[i].original in m && m[st.infos[i].original].Ref?)
    && (forall i, k :: 0 <= i < |st.infos| && k in st.infos[i].duplicates ==>
          k in m && m[k].Ref? && m[k].id == m[st.infos[i].original].id)
    && (forall i, j :: 0 <= i < |st.infos| && 0 <= j < |st.infos| ==> st.infos[i].original !in st.infos[j].duplicates)
    && (forall o :: o in st.pointers ==>
          st.pointers[o].index < |st.infos| && m[st.infos[st.pointers[o].index].original].id == o)
  }

  lemma VisitTruthful(m: map<Key, Elem>, order: seq<Key>, st: Search, k: Key)
    requires Sound(m, order, st) && Truthful(m, st) && k in m && k !in order
    ensures Truthful(m, Visit(m, st, k))
  {
    hide Truthful, Sound;
    NotYetListed(m, order, st, k);
    if m[k].Ref? && m[k].id !in st.pointers {
      NewTruthful(m, st, k);
    } else if m[k].Ref? {
      JoinTruthful(m, st, k);
    }
  }

  lemma NotYetListed(m: map<Key, Elem>, order: seq<Key>, st: Search, k: Key)
    requires Sound(m, order, st) && k !in order
    ensures forall i :: 0 <= i < |st.infos| ==> !InGroup(st.infos[i], k)
  {
  }

  lemma NewTruthful(m: map<Key, Elem>, st: Search, k: Key)
    requires Truthful(m, st) && k in m && m[k].Ref? && m[k].id !in st.pointers
    requires forall i :: 0 <= i < |st.infos| ==> !InGroup(st.infos[i], k)
    ensures Truthful(m, Visit(m, st, k))
  {
    var st' := Visit(m, st, k);
    assert st'.infos == st.infos + [DuplicateInfo(k, [])];
    forall i, j | 0 <= i < |st'.infos| && 0 <= j < |st'.infos|
      ensures st'.infos[i].original !in st'.infos[j].duplicates
    {
      assert j < |st.infos| ==> !InGroup(st.infos[j], k);
    }
  }

  lemma JoinTruthful(m: map<Key, Elem>, st: Search, k: Key)
    requires Truthful(m, st) && k in m && m[k].Ref? && m[k].id in st.pointers
    requires forall i :: 0 <= i < |st.infos| ==> !InGroup(st.infos[i], k)
    ensures Truthful(m, Visit(m, st, k))
  {
    var st' := Visit(m, st, k);
    forall i | 0 <= i < |st.infos|
      ensures st'.infos[i].original == st.infos[i].original
      ensures forall x :: x in st'.infos[i].duplicates ==>
                x in st.infos[i].duplicates || (x == k && i == st.pointers[m[k].id].index)
    {
    }
    forall i, j | 0 <= i < |st'.infos| && 0 <= j < |st'.infos|
      ensures st'.infos[i].original !in st'.infos[j].duplicates
    {
      assert !InGroup(st.infos[i], k);
    }
  }

  lemma {:induction false} SearchTruthful(m: map<Key, Elem>, order: seq<Key>)
    requires (forall k :: k in order ==> k in m) && forall i, j :: 0 <= i < j < |order| ==> order[i] != order[j]
    ensures Truthful(m, Searched(m, order))
  {
    hide Truthful, Visit, Sound;
    if order == [] {
      NothingTruthful(m);
    } else {
      var n := |order| - 1;
      SearchTruthful(m, order[..n]);
      SearchSound(m, order[..n]);
      VisitTruthful(m, order[..n], Searched(m, order[..n]), order[n]);
    }
  }

  lemma NothingTruthful(m: map<Key, Elem>)
    ensures Truthful(m, Search([], map[], INITIAL_CAPACITY))
  {
  }

  /** Every duplicate names a key that is none and holds the same object. */
  ghost predicate NamesItems(m: map<Key, Elem>, table: map<string, Json>) {
    forall k :: k in table ==>
      && k in m && m[k].Ref?
      && table[k].JStr? && table[k].s in m && table[k].s !in table && m[table[k].s].Ref? && m[table[k].s].id == m[k].id
  }

  lemma TableNamesItems(m: map<Key, Elem>, order: seq<Key>)
    requires Enumerates(order, m.Keys)
    ensures NamesItems(m, TableOf(Searched(m, order).infos))
  {
    hide Searched, TableOf;
    SearchTruthful(m, order);
    var infos := Searched(m, order).infos;
    forall k | k in TableOf(infos)
      ensures k in m && m[k].Ref? && TableOf(infos)[k].JStr?
      ensures var o := TableOf(infos)[k].s; o in m && o !in TableOf(infos) && m[o].Ref? && m[o].id == m[k].id
    {
      var i := TableKey(infos, k);
      if infos[i].original in TableOf(infos) {
        var j := TableKey(infos, infos[i].original);
      }
    }
  }

  // ---------- sixteen or seventeen leaves and one alias ----------

  function Letter(i: nat): Key
    requires i < 26
  {
    [('a' as int + i) as char]
  }

  /** The first `n` + 1 letters. */
  function Letters(n: nat): (order: seq<Key>)
    requires n < 26
    ensures |order| == n + 1
  {
    seq(n + 1, i requires 0 <= i <= n => Letter(i))
  }

  /** The first `n` letters hold the leaves 0 to `n` - 1, and the next holds leaf 0. */
  function LateAlias(n: nat): map<Key, Elem>
    requires n < 26
  {
    map k | k in Letters(n) :: Ref(BufKind, if |k| != 1 || k[0] < 'a' || k == Letter(n) then 0 else k[0] as int - 'a' as int)
  }

  lemma LateAliasAt(n: nat, i: nat)
    requires i <= n < 26
    ensures Letters(n)[i] == Letter(i) && Letter(i) in LateAlias(n)
    ensures LateAlias(n)[Letter(i)] == Ref(BufKind, if i == n then 0 else i)
  {
    assert Letters(n)[i] == Letter(i);
  }

  lemma LettersDiffer(i: nat, j: nat)
    requires i < j < 26
    ensures Letter(i) != Letter(j)
  {
  }

  ghost function Numbers(n: nat): (s: set<Id>)
    ensures |s| == n && forall i :: i in s <==> 0 <= i < n
  {
    if n == 0 then {} else Numbers(n - 1) + {n - 1}
  }

  lemma LateAliasKeys(n: nat)
    requires n < 26
    ensures forall k :: k in LateAlias(n) <==> k in Letters(n)
  {
  }

  lemma LateAliasOrder(n: nat)
    requires 0 < n < 26
    ensures var m, order := LateAlias(n), Letters(n);
            && Enumerates(order, m.Keys) && OneElem(m) && Objects(m) == Numbers(n)
            && order[0] in m && order[n] in m && m[order[0]] == m[order[n]] == Ref(BufKind, 0) && order[0] != order[n]
  {
    hide Letter, Letters, LateAlias;
    var m, order := LateAlias(n), Letters(n);
    forall i: nat | i <= n
      ensures order[i] == Letter(i) && order[i] in m && m[order[i]] == Ref(BufKind, if i == n then 0 else i)
    {
      LateAliasAt(n, i);
    }
    LateAliasKeys(n);
    forall i, j | 0 <= i < j < |order|
      ensures order[i] != order[j]
    {
      LettersDiffer(i, j);
    }
    assert Enumerates(order, m.Keys);
    forall o
      ensures o in Objects(m) <==> o in Numbers(n)
    {
      if o in Numbers(n) {
        assert m[order[o]].id == o;
      }
    }
  }

  /** Keys a to q hold distinct leaves and r holds the leaf of a. Visited in this order, r is lost: it
      is in no group, so it is written a second time as an item of its own. */
  lemma SeventeenAndAlias()
    ensures var m, order := LateAlias(17), Letters(17);
            && Enumerates(order, m.Keys) && Late(m, order, 17) && !RightGroups(m, Searched(m, order).infos)
            && order[0] !in TableOf(Searched(m, order).infos) && order[17] !in TableOf(Searched(m, order).infos)
  {
    hide Searched, Late, RightGroups, TableOf, Letter, Letters, LateAlias, OneElem;
    LateAliasOrder(17);
    LastIsLost(LateAlias(17), Letters(17));
  }

  lemma LastIsLost(m: map<Key, Elem>, order: seq<Key>)
    requires Enumerates(order, m.Keys) && |Objects(m)| > 16 && |order| >= 2
    requires var a, b := order[0], order[|order| - 1]; m[a].Ref? && m[b].Ref? && m[a].id == m[b].id
    ensures Late(m, order, |order| - 1) && !RightGroups(m, Searched(m, order).infos)
    ensures var table := TableOf(Searched(m, order).infos); order[0] !in table && order[|order| - 1] !in table
  {
    hide Searched, Dangles, Late, RightGroups, TableOf, Objects;
    var n := |order| - 1;
    LateAliasDangles(m, order);
    DanglesIff(m, order, n);
    LiveOrderIff(m, order);
    DanglingIsLost(m, order, n);
    LostIsUnlisted(Searched(m, order).infos, order[n]);
    FirstIsOriginal(m, order);
  }

  /** With one leaf fewer the last key is listed as a duplicate of the first. */
  lemma SixteenAndAlias()
    ensures var m, order := LateAlias(16), Letters(16);
            && Enumerates(order, m.Keys) && RightGroups(m, Searched(m, order).infos)
            && order[16] in TableOf(Searched(m, order).infos)
            && TableOf(Searched(m, order).infos)[order[16]] == JStr(order[0])
  {
    hide Searched, RightGroups, TableOf, Letter, Letters, LateAlias, OneElem, Clean;
    var m, order := LateAlias(16), Letters(16);
    LateAliasOrder(16);
    GroupableIsOrderly(m, order);
    RightForOrderIff(m, order);
    TableRightIff(m, order);
    FirstIsOriginal(m, order);
  }

  /** The key visited first is nobody's duplicate. */
  lemma {:induction false} FirstNoDuplicate(m: map<Key, Elem>, order: seq<Key>)
    requires (forall k :: k in order ==> k in m) && forall i, j :: 0 <= i < j < |order| ==> order[i] != order[j]
    requires order != []
    ensures forall i :: 0 <= i < |Searched(m, order).infos| ==> order[0] !in Searched(m, order).infos[i].duplicates
  {
    if |order| > 1 {
      FirstNoDuplicate(m, order[..|order| - 1]);
    } else {
      assert order[..0] == [];
    }
  }

  lemma FirstIsOriginal(m: map<Key, Elem>, order: seq<Key>)
    requires Enumerates(order, m.Keys) && order != []
    ensures order[0] !in TableOf(Searched(m, order).infos)
  {
    hide Searched, TableOf;
    FirstNoDuplicate(m, order);
    if order[0] in TableOf(Searched(m, order).infos) {
      var i := TableKey(Searched(m, order).infos, order[0]);
    }
  }
}
