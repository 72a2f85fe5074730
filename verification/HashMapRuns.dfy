/** Whole runs of hash-map operations against a mathematical map. */
module HashMapRuns {
  import opened Wrappers
  import opened ProbeTable
  import HM = HashMap

  datatype Op<K, V> =
    | Put(key: Option<K>, data: Option<V>)
    | Insert(key: Option<K>, data: Option<V>)
    | Get(key: Option<K>)
    | Remove(key: Option<K>)
    | Reserve(capacity: nat)
    | Clear
    | Reset

  datatype Reply<V> =
    | Code(code: int)
    | Updated(code: int, oldData: Option<V>)
    | Data(data: Option<V>)
    | Done

  /** What one operation does to a map from key classes to entries. */
  function Step<K(==), C(==), V(==)>(kg: Keying<K, C>, m: map<C, Entry<K, V>>, op: Op<K, V>)
    : (map<C, Entry<K, V>>, Reply<V>)
  {
    match op
    case Put(key, data) =>
      if key == None || data == None then (m, Code(-HM.EINVAL))
      else if kg.norm(key.value) in m then (m, Code(-HM.EEXIST))
      else (m[kg.norm(key.value) := Entry(key.value, data.value)], Code(0))
    case Insert(key, data) =>
      if key == None || data == None then (m, Updated(-HM.EINVAL, None))
      else if kg.norm(key.value) in m then
        var was := m[kg.norm(key.value)];
        (m[kg.norm(key.value) := was.(data := data.value)],
         Updated(0, if was.data == data.value then None else Some(was.data)))
      else (m[kg.norm(key.value) := Entry(key.value, data.value)], Updated(1, None))
    case Get(key) =>
      (m, Data(if key.Some? && kg.norm(key.value) in m then Some(m[kg.norm(key.value)].data) else None))
    case Remove(key) =>
      if key.Some? && kg.norm(key.value) in m then
        (m - {kg.norm(key.value)}, Data(Some(m[kg.norm(key.value)].data)))
      else (m, Data(None))
    case Reserve(_) => (m, Done)
    case Clear => (map[], Done)
    case Reset => (map[], Done)
  }

  ghost function After<K, C, V>(kg: Keying<K, C>, m: map<C, Entry<K, V>>, ops: seq<Op<K, V>>): map<C, Entry<K, V>> {
    if ops == [] then m else Step(kg, After(kg, m, ops[..|ops| - 1]), ops[|ops| - 1]).0
  }

  ghost function Replies<K, C, V>(kg: Keying<K, C>, m: map<C, Entry<K, V>>, ops: seq<Op<K, V>>): seq<Reply<V>> {
    if ops == [] then [] else
      Replies(kg, m, ops[..|ops| - 1]) + [Step(kg, After(kg, m, ops[..|ops| - 1]), ops[|ops| - 1]).1]
  }

  /** An operation fits if the table-size computation it triggers stays in range. */
  ghost predicate Fits<K, V>(count: nat, op: Op<K, V>) {
    match op
    case Put(_, _) => count + count / 3 <= HM.CAPACITY_LIMIT
    case Insert(_, _) => count + count / 3 <= HM.CAPACITY_LIMIT
    case Reserve(capacity) => capacity + capacity / 3 <= HM.CAPACITY_LIMIT
    case _ => true
  }

  /** Every operation fits the count it meets; the run may be of any length. */
  ghost predicate AllFit<K, C, V>(kg: Keying<K, C>, m: map<C, Entry<K, V>>, ops: seq<Op<K, V>>) {
    forall i :: 0 <= i < |ops| ==> Fits(|After(kg, m, ops[..i])|, ops[i])
  }

  method Perform<K(==), C(==, !new), V(==)>(h: HM.HashMap<K, C, V>, op: Op<K, V>) returns (reply: Reply<V>)
    requires h.Valid() && Fits(|h.M|, op)
    modifies h, h.table
    ensures h.Valid() && (h.table == old(h.table) || fresh(h.table))
    ensures (h.M, reply) == Step(h.kg, old(h.M), op)
    ensures !op.Reserve? ==> h.tableSizeInit == old(h.tableSizeInit)
    ensures !op.Reserve? && !op.Reset? && HM.LargeEnough(h.tableSizeInit, old(h.size), old(h.table.Length)) ==>
              h.table == old(h.table)
  {
    hide h.Sound, HM.InitOk;
    match op {
      case Put(key, data) =>
        var r := h.Put(key, data);
        reply := Code(r);
      case Insert(key, data) =>
        var r, oldData := h.Insert(key, data);
        reply := Updated(r, oldData);
      case Get(key) =>
        var data := h.Get(key);
        reply := Data(data);
      case Remove(key) =>
        var data := h.Remove(key);
        reply := Data(data);
      case Reserve(capacity) =>
        h.Reserve(capacity);
        reply := Done;
      case Clear =>
        h.Clear();
        reply := Done;
      case Reset =>
        h.Reset();
        reply := Done;
    }
  }

  /** Any sequence of operations gives the contents and the replies the mathematical map gives. */
  method Run<K(==), C(==, !new), V(==)>(h: HM.HashMap<K, C, V>, ops: seq<Op<K, V>>) returns (replies: seq<Reply<V>>)
    requires h.Valid() && AllFit(h.kg, h.M, ops)
    modifies h, h.table
    ensures h.Valid()
    ensures h.M == After(h.kg, old(h.M), ops)
    ensures replies == Replies(h.kg, old(h.M), ops)
  {
    hide h.Sound, Step, Fits;
    replies := [];
    var i := 0;
    while i < |ops|
      invariant 0 <= i <= |ops|
      invariant h.Valid() && (h.table == old(h.table) || fresh(h.table))
      invariant h.M == After(h.kg, old(h.M), ops[..i])
      invariant replies == Replies(h.kg, old(h.M), ops[..i])
    {
      assert ops[..i + 1][..i] == ops[..i];
      var reply := Perform(h, ops[i]);
      replies := replies + [reply];
      i := i + 1;
    }
    assert ops[..|ops|] == ops;
  }

  /** Puts, inserts, gets and removes that keep the count within `capacity`. */
  ghost predicate Within<K, C, V>(kg: Keying<K, C>, m: map<C, Entry<K, V>>, ops: seq<Op<K, V>>, capacity: nat) {
    && (forall op :: op in ops ==> !op.Reserve? && !op.Clear? && !op.Reset?)
    && forall i :: 0 <= i < |ops| ==> |After(kg, m, ops[..i])| <= capacity
  }

  /** After `reserve(capacity)` the table is never reallocated while the map stays within `capacity`
      entries, whatever is put, inserted, read and removed. */
  method ReserveThenRun<K(==), C(==, !new), V(==)>(h: HM.HashMap<K, C, V>, capacity: nat, ops: seq<Op<K, V>>)
    returns (reserved: array<Slot<K, V>>, replies: seq<Reply<V>>)
    requires h.Valid() && capacity + capacity / 3 <= HM.CAPACITY_LIMIT && Within(h.kg, h.M, ops, capacity)
    modifies h, h.table
    ensures h.Valid() && h.table == reserved
    ensures h.M == After(h.kg, old(h.M), ops) && replies == Replies(h.kg, old(h.M), ops)
  {
    hide h.Sound, HM.CalcTableSize, HM.InitOk, Step;
    h.Reserve(capacity);
    reserved := h.table;
    replies := [];
    var i := 0;
    while i < |ops|
      invariant 0 <= i <= |ops|
      invariant h.Valid() && h.table == reserved && (reserved == old(h.table) || fresh(reserved))
      invariant h.tableSizeInit == HM.CalcTableSize(HM.SIZE_MIN, capacity) <= reserved.Length
      invariant h.M == After(h.kg, old(h.M), ops[..i])
      invariant replies == Replies(h.kg, old(h.M), ops[..i])
    {
      assert ops[..i + 1][..i] == ops[..i];
      HM.ReserveSuffices(capacity, h.size);
      assert ops[i] in ops;
      var reply := Perform(h, ops[i]);
      replies := replies + [reply];
      i := i + 1;
    }
    assert ops[..|ops|] == ops;
  }

  /** Destroying a struct removes every key inside a safe iteration: the map ends empty and each
      key was visited exactly once. */
  method RemoveAllKeys<K(==), C(==, !new), V(==)>(h: HM.HashMap<K, C, V>) returns (visits: seq<K>)
    requires h.Valid()
    modifies h, h.table
    ensures h.Valid() && h.M == map[]
    ensures Classes(h.kg, visits) == old(h.M).Keys
    ensures forall i, j :: 0 <= i < j < |visits| ==> h.kg.norm(visits[i]) != h.kg.norm(visits[j])
  {
    hide h.Sound;
    visits := h.ForeachSafeRemove(_ => true);
    assert Classes(h.kg, visits) == old(h.M).Keys;
  }
}
