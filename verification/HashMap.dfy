/** The open-addressing hash map: linear probing, power-of-two tables and backward-shift deletion. */
module HashMap {
  import opened Wrappers
  import opened Bits
  import opened ProbeTable

  const SIZE_MIN := 32
  const SIZE_DEFAULT := 128

  /** The largest element count plus a third whose table size the C expression `1 << bits` can
      represent in an `int`. */
  const CAPACITY_LIMIT := 0x4000_0000

  const EINVAL := 22
  const EEXIST := 17
  const EADDRNOTAVAIL := 99

  /** The table size for `size` elements at a load of at most 3/4. */
  function CalcTableSize(init: nat, size: nat): (t: nat)
    requires size + size / 3 <= CAPACITY_LIMIT
  {
    if size + size / 3 < init then init else Pow2(BitLength(WrapSub(size + size / 3, 1)))
  }

  /** No growth is asked for. */
  ghost predicate LargeEnough(init: nat, size: nat, length: nat) {
    size + size / 3 <= CAPACITY_LIMIT && CalcTableSize(init, size) <= length
  }

  ghost predicate InitOk(init: nat) {
    IsPow2(init) && SIZE_MIN <= init <= CAPACITY_LIMIT
  }

  lemma LeastPow2(v: nat, k: nat)
    requires v < Pow2(k)
    ensures Pow2(BitLength(v)) <= Pow2(k)
  {
    BitLengthBrackets(v);
    if v > 0 {
      Pow2Strict(BitLength(v) - 1, k);
      Pow2Monotone(BitLength(v), k);
    } else {
      Pow2Monotone(0, k);
    }
  }

  /** 1 << BitLength(t - 1) is the least power of two at or above t. */
  lemma RoundUp(t: nat)
    requires 32 <= t <= CAPACITY_LIMIT
    ensures WrapSub(t, 1) == t - 1
    ensures t <= Pow2(BitLength(t - 1)) <= CAPACITY_LIMIT
    ensures forall p: nat :: IsPow2(p) && t <= p ==> Pow2(BitLength(t - 1)) <= p
  {
    hide Pow2, BitLength;
    BitLengthBrackets(t - 1);
    Pow2At64();
    LeastPow2(t - 1, 30);
    forall p: nat | IsPow2(p) && t <= p
      ensures Pow2(BitLength(t - 1)) <= p
    {
      var k: nat :| p == Pow2(k);
      LeastPow2(t - 1, k);
    }
  }

  /** The chosen size is a power of two, has room for a third more than `size`, and leaves at least
      one slot empty after one more element is stored. */
  lemma TableSizeFits(init: nat, size: nat)
    requires InitOk(init) && size + size / 3 <= CAPACITY_LIMIT
    ensures InitOk(CalcTableSize(init, size))
    ensures size + size / 3 <= CalcTableSize(init, size)
    ensures size + 1 < CalcTableSize(init, size)
    ensures init <= CalcTableSize(init, size)
  {
    var t := size + size / 3;
    if t >= init {
      RoundUp(t);
      Pow2Covers(init, t);
    }
  }

  /** Rounding up reaches every power of two that is not larger. */
  lemma Pow2Covers(init: nat, t: nat)
    requires InitOk(init) && init <= t <= CAPACITY_LIMIT
    ensures init <= Pow2(BitLength(t - 1))
  {
    RoundUp(t);
  }

  /** Nothing smaller is a power of two of sufficient size. */
  lemma TableSizeLeast(init: nat, size: nat, p: nat)
    requires InitOk(init) && size + size / 3 <= CAPACITY_LIMIT
    requires IsPow2(p) && init <= p && size + size / 3 <= p
    ensures CalcTableSize(init, size) <= p
  {
    if size + size / 3 >= init {
      RoundUp(size + size / 3);
    }
  }

  lemma TableSizeMonotone(init: nat, a: nat, b: nat)
    requires InitOk(init) && a <= b && b + b / 3 <= CAPACITY_LIMIT
    ensures CalcTableSize(init, a) <= CalcTableSize(init, b)
  {
    TableSizeFits(init, b);
    TableSizeLeast(init, a, CalcTableSize(init, b));
  }

  /** After `reserve(c)` the initial size is large enough that no count up to `c` asks for more. */
  lemma ReserveSuffices(c: nat, size: nat)
    requires c + c / 3 <= CAPACITY_LIMIT && size <= c
    ensures CalcTableSize(CalcTableSize(SIZE_MIN, c), size) == CalcTableSize(SIZE_MIN, c)
  {
    assert InitOk(SIZE_MIN) by {
      Pow2At64();
    }
    TableSizeFits(SIZE_MIN, c);
    var init := CalcTableSize(SIZE_MIN, c);
    TableSizeFits(init, size);
    TableSizeLeast(init, size, init);
  }

  class HashMap<K(==), C(==, !new), V(==)> {
    var tableSizeInit: nat
    var size: nat
    var table: array<Slot<K, V>>
    const kg: Keying<K, C>

    /** The entries stored, by key class. */
    ghost var M: map<C, Entry<K, V>>

    ghost predicate SizeOk()
      reads this, table
    {
      && InitOk(tableSizeInit)
      && (table.Length != 0 ==> IsPow2(table.Length) && table.Length <= CAPACITY_LIMIT)
    }

    /** The table represents `M`; it may have no empty slot. */
    ghost predicate Sound()
      reads this, table
    {
      SizeOk() && Inv(kg, table[..], M)
    }

    /** The object invariant between operations: an allocated table has an empty slot. */
    ghost predicate Valid()
      reads this, table
    {
      Sound() && size == |M| && (table.Length != 0 ==> size < table.Length)
    }

    constructor (kg: Keying<K, C>)
      ensures Valid() && M == map[] && fresh(table) && this.kg == kg
      ensures table.Length == 0 && tableSizeInit == 128
    {
      this.kg := kg;
      tableSizeInit := SIZE_DEFAULT;
      size := 0;
      table := new Slot<K, V>[0];
      M := map[];
      new;
      assert IsPow2(SIZE_DEFAULT) by {
        assert Pow2(7) == 128;
      }
      EmptyTable(kg, table[..]);
    }

    /** The slot where probing for a key starts. */
    method CalcIndex(key: K) returns (h: nat)
      requires SizeOk() && table.Length > 0
      ensures h == HomeOf(kg, kg.norm(key), table.Length)
    {
      h := Mask(kg.hash(kg.norm(key)), table.Length);
      MaskIsMod(kg.hash(kg.norm(key)), table.Length);
    }

    /** HASHMAP_PROBE_NEXT: the slot after `index`, wrapping at the end of the table. */
    method ProbeNext(index: nat) returns (x: nat)
      requires SizeOk() && index < table.Length
      ensures x == Next(index, table.Length)
    {
      x := Mask(index + 1, table.Length);
      MaskIsNext(index, table.Length);
    }

    /** HASHMAP_SIZE_MOD of a `size_t` difference: how far `to` lies beyond `from`. */
    method ProbeDistance(from: nat, to: nat) returns (d: nat)
      requires SizeOk() && from < table.Length && to < table.Length
      ensures d == Dist(from, to, table.Length)
    {
      d := Mask(WrapSub(to, from), table.Length);
      MaskIsDist(from, to, table.Length);
    }

    /** The slot of a key, or with `findEmpty` the slot where it could be stored. */
    method EntryFind(key: K, findEmpty: bool) returns (r: Option<nat>)
      requires Sound()
      ensures r.Some? ==> r.value < table.Length
      ensures kg.norm(key) in M ==> r.Some? && Holds(kg, table[..], r.value, kg.norm(key))
      ensures kg.norm(key) !in M && !findEmpty ==> r == None
      ensures kg.norm(key) !in M && findEmpty ==> (r.Some? <==> |M| < table.Length)
      ensures kg.norm(key) !in M && r.Some? ==>
                !Occ(table[..], r.value) && PathFull(table[..], HomeOf(kg, kg.norm(key), table.Length), r.value)
    {
      if table.Length == 0 {
        return None;
      }
      var index := CalcIndex(key);
      var i := 0;
      ghost var c, s, h := kg.norm(key), table[..], index;
      while i < table.Length
        invariant 0 <= i <= table.Length
        invariant i < table.Length ==> index == At(h, i, table.Length)
        invariant Missed(kg, s, c, h, i)
      {
        var entry := table[index];
        if entry.key == None {
          EmptySlotMeansAbsent(kg, s, M, c, h, i);
          EmptySlotLeavesRoom(s, index);
          return if findEmpty then Some(index) else None;
        }
        if kg.norm(entry.key.value) == kg.norm(key) {
          assert Holds(kg, s, index, c);
          return Some(index);
        }
        MissOne(kg, s, c, h, i);
        index := ProbeNext(index);
        i := i + 1;
      }
      AllMissedMeansAbsent(kg, s, M, c);
      r := None;
    }

    /** Clears a slot and shifts the rest of its cluster back. */
    method EntryRemove(removed: nat)
      requires Valid() && Occ(table[..], removed)
      modifies this`size, this`M, table
      ensures Valid()
      ensures M == old(M) - {old(ClassAt(kg, table[..], removed))}
      ensures ClassesBelow(kg, table[..], removed) <= old(ClassesBelow(kg, table[..], removed))
    {
      hide Inv, Removing, ClassesBelow, RunFull, SameOccupancy, AfterStep, InitOk, IsPow2, HomeOf, Dist, At, Next;
      var n := table.Length;
      ghost var s := table[..];
      OccupiedMeansPresent(kg, s, M, removed);
      size := size - 1;
      StartRemoval(kg, s, M, removed);
      M := M - {ClassAt(kg, s, removed)};
      ghost var t := s[removed := Slot(None, None)];

      RunStarts(s, removed);
      AtStart(removed, n);

      var r := removed;
      var index := ProbeNext(r);
      var i := 0;
      while i < size
        invariant 0 <= i <= size == |M| && size + 1 < n
        invariant size == old(size) - 1 && M == old(M) - {ClassAt(kg, s, removed)}
        invariant r < n && index == At(removed, i + 1, n) && Dist(removed, r, n) <= i
        invariant t == table[..][r := Slot(None, None)]
        invariant Removing(kg, t, M, r, index)
        invariant SameOccupancy(table[..], s)
        invariant RunFull(s, removed, i + 1)
        invariant ClassesBelow(kg, t, removed) <= ClassesBelow(kg, s, removed)
      {
        var entry := table[index];
        if entry.key == None {
          break;
        }
        assert t[index] == entry;
        ExtendRun(s, table[..], removed, i + 1);
        RemovalStep(kg, t, table[..], M, r, index, removed, i + 1);
        t := AfterStep(kg, t, r, index);
        var home := CalcIndex(entry.key.value);
        var fromHome := ProbeDistance(home, index);
        var holeFromHome := ProbeDistance(home, r);
        if fromHome > holeFromHome {
          ghost var a := table[..];
          FillKeepsOccupancy(a, s, r, entry);
          table[r] := entry;
          assert table[..] == a[r := entry];
          r := index;
        }
        NextOfAt(removed, i + 1, n);
        index := ProbeNext(index);
        i := i + 1;
      }
      if i == size {
        ClusterEnds(kg, s, table[..], old(M), removed);
      }
      FinishRemoval(kg, t, M, r, index);
      table[r] := Slot(None, None);
      assert table[..] == t;
    }

    /** Stores the entry in slot `e` of the old table `s`, if any, in the new table. The lookup there
        never comes back empty-handed. */
    method CopyEntry(entry: Slot<K, V>, ghost s: seq<Slot<K, V>>, ghost full: map<C, Entry<K, V>>, ghost e: nat)
      requires Sound() && Inv(kg, s, full) && |full| <= table.Length
      requires e < |s| && s[e] == entry && Copied(kg, s, full, M, e)
      modifies this`M, table
      ensures Sound() && Copied(kg, s, full, M, e + 1)
    {
      hide Inv, InitOk, IsPow2, HomeOf, PathFull, Copied;
      if entry.key.Some? {
        CopyOne(kg, s, full, M, e);
        var slot := EntryFind(entry.key.value, true);
        assert slot.Some?;
        AddEntry(kg, table[..], M, slot.value, entry.key.value, entry.data.value);
        StoreAt(slot.value, entry);
        M := M[kg.norm(entry.key.value) := Entry(entry.key.value, entry.data.value)];
      } else {
        SkipOne(kg, s, full, M, e);
      }
    }

    /** Moves every entry into a new table. */
    method Rehash(tableSize: nat)
      requires Sound() && IsPow2(tableSize) && |M| <= tableSize <= CAPACITY_LIMIT
      modifies this`table, this`M
      ensures Sound() && M == old(M) && fresh(table) && table.Length == tableSize
    {
      hide Inv, Copied, InitOk, IsPow2;
      ghost var full, s := M, table[..];
      var oldTable := table;
      table := new Slot<K, V>[tableSize](_ => Slot(None, None));
      M := map[];
      EmptyTable(kg, table[..]);
      CopyStarts(kg, s, full);
      var e := 0;
      while e < oldTable.Length
        invariant 0 <= e <= oldTable.Length
        invariant fresh(table) && table.Length == tableSize && Sound()
        invariant oldTable[..] == s
        invariant Copied(kg, s, full, M, e)
      {
        CopyEntry(oldTable[e], s, full, e);
        e := e + 1;
      }
      CopiedAll(kg, s, full, M);
    }

    /** Grows the table if it is too small for the entries it holds. */
    method EnsureCapacity()
      requires Valid() && size + size / 3 <= CAPACITY_LIMIT
      modifies this`table, this`M
      ensures Valid() && M == old(M) && size + 1 < table.Length
      ensures table == old(table) || fresh(table)
      ensures CalcTableSize(tableSizeInit, size) <= old(table.Length) ==> table == old(table)
      ensures table.Length == if CalcTableSize(tableSizeInit, size) > old(table.Length)
                              then CalcTableSize(tableSizeInit, size) else old(table.Length)
      ensures size + size / 3 <= table.Length
    {
      hide Inv, InitOk, IsPow2;
      var tableSize := CalcTableSize(tableSizeInit, size);
      TableSizeFits(tableSizeInit, size);
      InitIsPow2(tableSize);
      if tableSize > table.Length {
        Rehash(tableSize);
      }
    }

    /** Adds an entry; a key already present is refused. */
    method Put(key: Option<K>, data: Option<V>) returns (r: int)
      requires Valid() && size + size / 3 <= CAPACITY_LIMIT
      modifies this, table
      ensures Valid() && tableSizeInit == old(tableSizeInit)
      ensures table == old(table) || fresh(table)
      ensures CalcTableSize(tableSizeInit, old(size)) <= old(table.Length) ==> table == old(table)
      ensures key.Some? && data.Some? ==>
                old(size) + old(size) / 3 <= table.Length && CalcTableSize(tableSizeInit, old(size)) <= table.Length
      ensures key == None || data == None ==> r == -EINVAL && M == old(M)
      ensures key.Some? && data.Some? && kg.norm(key.value) in old(M) ==> r == -EEXIST && M == old(M)
      ensures key.Some? && data.Some? && kg.norm(key.value) !in old(M) ==>
                r == 0 && M == old(M)[kg.norm(key.value) := Entry(key.value, data.value)]
    {
      hide Inv, InitOk, IsPow2, HomeOf, PathFull;
      if key == None || data == None {
        return -EINVAL;
      }
      EnsureCapacity();
      var slot := EntryFind(key.value, true);
      if slot == None {
        return -EADDRNOTAVAIL;
      }
      if table[slot.value].key.Some? {
        return -EEXIST;
      }
      AddEntry(kg, table[..], M, slot.value, key.value, data.value);
      StoreAt(slot.value, Slot(key, data));
      size := size + 1;
      M := M[kg.norm(key.value) := Entry(key.value, data.value)];
      return 0;
    }

    method StoreAt(i: nat, e: Slot<K, V>)
      requires i < table.Length
      modifies table
      ensures table[..] == old(table[..])[i := e]
    {
      table[i] := e;
    }

    /** Adds an entry or replaces the data of one already present, whose stored key is kept. */
    method Insert(key: Option<K>, data: Option<V>) returns (r: int, oldData: Option<V>)
      requires Valid() && size + size / 3 <= CAPACITY_LIMIT
      modifies this, table
      ensures Valid() && tableSizeInit == old(tableSizeInit)
      ensures table == old(table) || fresh(table)
      ensures CalcTableSize(tableSizeInit, old(size)) <= old(table.Length) ==> table == old(table)
      ensures key.Some? && data.Some? ==>
                old(size) + old(size) / 3 <= table.Length && CalcTableSize(tableSizeInit, old(size)) <= table.Length
      ensures key == None || data == None ==> r == -EINVAL && M == old(M) && oldData == None
      ensures key.Some? && data.Some? && kg.norm(key.value) in old(M) ==>
                var was := old(M)[kg.norm(key.value)];
                && r == 0
                && oldData == (if data.value == was.data then None else Some(was.data))
                && M == old(M)[kg.norm(key.value) := Entry(was.key, data.value)]
      ensures key.Some? && data.Some? && kg.norm(key.value) !in old(M) ==>
                && r == 1
                && oldData == None
                && M == old(M)[kg.norm(key.value) := Entry(key.value, data.value)]
    {
      hide Inv, InitOk, IsPow2, HomeOf, PathFull;
      if key == None || data == None {
        return -EINVAL, None;
      }
      EnsureCapacity();
      var slot := EntryFind(key.value, true);
      if slot == None {
        return -EADDRNOTAVAIL, None;
      }
      var entry := table[slot.value];
      r := 0;
      SlotData(kg, table[..], M, slot.value);
      if entry.key == None {
        AddEntry(kg, table[..], M, slot.value, key.value, data.value);
        M := M[kg.norm(key.value) := Entry(key.value, data.value)];
        entry := entry.(key := key);
        size := size + 1;
        r := 1;
      } else {
        ReplaceData(kg, table[..], M, slot.value, data.value);
        M := M[kg.norm(key.value) := Entry(entry.key.value, data.value)];
      }
      oldData := if data == entry.data then None else entry.data;
      StoreAt(slot.value, entry.(data := data));
    }

    method Get(key: Option<K>) returns (data: Option<V>)
      requires Valid()
      ensures data == if key.Some? && kg.norm(key.value) in M then Some(M[kg.norm(key.value)].data) else None
    {
      hide Inv, HomeOf, PathFull;
      if key == None {
        return None;
      }
      var slot := EntryFind(key.value, false);
      if slot == None {
        return None;
      }
      SlotData(kg, table[..], M, slot.value);
      data := table[slot.value].data;
    }

    method Remove(key: Option<K>) returns (data: Option<V>)
      requires Valid()
      modifies this`size, this`M, table
      ensures Valid()
      ensures key.Some? && kg.norm(key.value) in old(M) ==>
                data == Some(old(M)[kg.norm(key.value)].data) && M == old(M) - {kg.norm(key.value)}
      ensures !(key.Some? && kg.norm(key.value) in old(M)) ==> data == None && M == old(M)
      ensures forall i :: key.Some? && old(Holds(kg, table[..], i, kg.norm(key.value))) ==>
                ClassesBelow(kg, table[..], i) <= old(ClassesBelow(kg, table[..], i))
    {
      hide Inv, HomeOf, PathFull, ClassesBelow;
      if key == None {
        return None;
      }
      var slot := EntryFind(key.value, false);
      if slot == None {
        return None;
      }
      SlotData(kg, table[..], M, slot.value);
      data := table[slot.value].data;
      HoldsOnce(kg, table[..], M, slot.value);
      EntryRemove(slot.value);
    }

    /** Prepares the table for `capacity` entries. */
    method Reserve(capacity: nat)
      requires Valid() && capacity + capacity / 3 <= CAPACITY_LIMIT
      modifies this`tableSizeInit, this`table, this`M
      ensures Valid() && M == old(M)
      ensures table == old(table) || fresh(table)
      ensures tableSizeInit == CalcTableSize(32, capacity) <= table.Length
    {
      hide Inv;
      assert InitOk(SIZE_MIN) by {
        Pow2At64();
      }
      tableSizeInit := SIZE_MIN;
      tableSizeInit := CalcTableSize(tableSizeInit, capacity);
      TableSizeFits(SIZE_MIN, capacity);
      CountBound(kg, table[..], M);
      if tableSizeInit > table.Length {
        Rehash(tableSizeInit);
      }
    }

    method ZeroTable()
      modifies table
      ensures forall i :: 0 <= i < table.Length ==> table[i] == Slot(None, None)
    {
      forall i | 0 <= i < table.Length {
        table[i] := Slot(None, None);
      }
    }

    method Clear()
      requires Valid()
      modifies this`size, this`M, table
      ensures Valid() && M == map[]
    {
      size := 0;
      M := map[];
      ZeroTable();
      EmptyTable(kg, table[..]);
    }

    /** Empties the map and returns the table to its initial size. */
    method Reset()
      requires Valid()
      modifies this`size, this`M, this`table, table
      ensures Valid() && M == map[] && table.Length == tableSizeInit
      ensures table == old(table) || fresh(table)
    {
      size := 0;
      M := map[];
      if table.Length != tableSizeInit {
        table := new Slot<K, V>[tableSizeInit](_ => Slot(None, None));
      }
      ZeroTable();
      EmptyTable(kg, table[..]);
    }

    /** How many slots a lookup of a stored key passes before it finds the key. */
    method Collisions(key: Option<K>) returns (count: nat)
      requires Valid()
      ensures key.Some? && kg.norm(key.value) in M ==>
                exists i :: Holds(kg, table[..], i, kg.norm(key.value))
                            && count == Dist(HomeOf(kg, kg.norm(key.value), table.Length), i, table.Length)
      ensures !(key.Some? && kg.norm(key.value) in M) ==> count == 0
    {
      if key == None || table.Length == 0 {
        return 0;
      }
      var index := CalcIndex(key.value);
      var i := 0;
      ghost var c, s, h := kg.norm(key.value), table[..], index;
      while i < table.Length
        invariant 0 <= i <= table.Length
        invariant i < table.Length ==> index == At(h, i, table.Length)
        invariant Missed(kg, s, c, h, i)
      {
        var entry := table[index];
        if entry.key == None {
          EmptySlotMeansAbsent(kg, s, M, c, h, i);
          return 0;
        }
        if kg.norm(key.value) == kg.norm(entry.key.value) {
          assert Holds(kg, s, index, c);
          SlotData(kg, s, M, index);
          break;
        }
        MissOne(kg, s, c, h, i);
        index := ProbeNext(index);
        i := i + 1;
      }
      if i == table.Length {
        AllMissedMeansAbsent(kg, s, M, c);
      }
      return i;
    }

    /** The first populated slot at or after `pos`. */
    method EntryGetPopulated(pos: nat) returns (r: Option<nat>)
      requires Valid()
      ensures r.Some? ==> pos <= r.value && Occ(table[..], r.value)
      ensures forall j :: pos <= j < (if r.Some? then r.value else table.Length) ==> !Occ(table[..], j)
    {
      hide Inv, SizeOk;
      if size > 0 {
        var e := pos;
        while e < table.Length
          invariant pos <= e
          invariant forall j :: pos <= j < e ==> !Occ(table[..], j)
        {
          if table[e].key.Some? {
            return Some(e);
          }
          e := e + 1;
        }
      } else {
        EmptyMapEmptyTable(kg, table[..], M);
      }
      r := None;
    }

    /** A `foreach_safe` loop whose body removes the current entry if its key is `chosen`.
        Returns the keys in the order the loop visits them. */
    method ForeachSafeRemove(chosen: C -> bool) returns (visits: seq<K>)
      requires Valid()
      modifies this`size, this`M, table
      ensures Valid()
      ensures M == map c | c in old(M) && !chosen(c) :: old(M)[c]
      ensures forall c :: c in old(M) ==> c in Classes(kg, visits)
      ensures forall c :: c in Classes(kg, visits) ==> c in old(M)
      ensures ChosenOnce(kg, visits, chosen)
    {
      hide Inv, SizeOk, HomeOf, PathFull, ClassesBelow, ChosenOnce, Classes;
      visits := [];
      NoneVisited(kg, chosen);
      var it := EntryGetPopulated(0);
      NoneBelow(kg, table[..]);
      BelowFirst(kg, table[..], 0, if it.Some? then it.value else table.Length);
      while it.Some?
        invariant Valid()
        invariant it.Some? ==> Occ(table[..], it.value)
        invariant ClassesBelow(kg, table[..], if it.Some? then it.value else table.Length) <= Classes(kg, visits)
        invariant forall c :: c in M ==> c in old(M) && M[c] == old(M)[c]
        invariant forall c :: c in old(M) && c !in M ==> chosen(c) && c in Classes(kg, visits)
        invariant forall c :: c in Classes(kg, visits) ==> c in old(M) && (chosen(c) ==> c !in M)
        invariant ChosenOnce(kg, visits, chosen)
        decreases (if it.Some? then table.Length - it.value else 0) + size
      {
        var pos := it.value;
        var key := table[pos].key.value;
        var c := kg.norm(key);
        SlotData(kg, table[..], M, pos);
        ClassesAppend(kg, visits, key);
        ChosenOnceAppend(kg, visits, chosen, key);
        visits := visits + [key];
        ghost var t := table[..];
        if chosen(c) {
          var _ := Remove(Some(key));
        }
        SlotData(kg, table[..], M, pos);
        if table[pos].key == Some(key) {
          BelowNext(kg, t, pos);
          it := EntryGetPopulated(pos + 1);
          BelowFirst(kg, table[..], pos + 1, if it.Some? then it.value else table.Length);
        } else {
          it := EntryGetPopulated(pos);
          BelowFirst(kg, table[..], pos, if it.Some? then it.value else table.Length);
        }
      }
      AllBelow(kg, table[..], M);
    }

    lemma InitIsPow2(n: nat)
      requires InitOk(n)
      ensures IsPow2(n) && n <= CAPACITY_LIMIT
    {
    }
  }
}
