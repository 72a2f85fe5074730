/** The JSON forms of leaves and scalars, and what a struct's JSON must look like. */
module Codec {
  import opened Wrappers
  import opened Graph
  import opened Ownership
  import opened Trees

  const RANGE64: int := 0x1_0000_0000_0000_0000
  const RANGE32: int := 0x1_0000_0000

  // ---------- integers ----------

  /** An unsigned 64-bit pattern read as the signed 64-bit integer JSON carries, and back. */
  function ToSigned(bits: nat): int {
    var b := bits % RANGE64;
    if b < RANGE64 / 2 then b else b - RANGE64
  }

  function FromSigned(v: int): nat {
    v % RANGE64
  }

  lemma SignedRoundTrip(bits: nat)
    ensures FromSigned(ToSigned(bits)) == bits % RANGE64
  {
  }

  /** What is written is a signed 64-bit integer: the number itself below 2^63, else less by 2^64. */
  lemma SignedValue(bits: nat)
    requires bits < 0x1_0000_0000_0000_0000
    ensures -0x8000_0000_0000_0000 <= ToSigned(bits) < 0x8000_0000_0000_0000
    ensures ToSigned(bits) == if bits < 0x8000_0000_0000_0000 then bits else bits - 0x1_0000_0000_0000_0000
    ensures FromSigned(ToSigned(bits)) == bits
  {
  }

  /** A byte as a C `char`, which is signed, and back. */
  function SignedByte(b: nat): int {
    var c := b % 256;
    if c < 128 then c else c - 256
  }

  lemma SignedByteValue(b: nat)
    requires b < 256
    ensures -128 <= SignedByte(b) < 128 && SignedByte(b) == if b < 128 then b else b - 256
    ensures SignedByte(b) % 256 == b
  {
  }

  /** The number a slot of `length` bytes holds, widened to 64 bits; other lengths read as 0. */
  function Widened(length: nat, bits: nat): nat {
    if length == 1 then bits % 256
    else if length == 2 then bits % 0x1_0000
    else if length == 4 then bits % RANGE32
    else if length == 8 then bits % RANGE64
    else 0
  }

  function WidenedReal(length: nat, value: real): real {
    if length == 4 || length == 8 then value else 0.0
  }

  // ---------- leaves ----------

  function IntOf(j: Json): int {
    if j.JInt? then j.v else 0
  }

  function Member(j: Json, name: string): Option<Json> {
    if j.JObj? && name in j.fields then Some(j.fields[name]) else None
  }

  function BufJson(bytes: seq<nat>): Json {
    JObj(map["type" := JStr("RPC_sizedbuf"),
             "serialised" := JArr(seq(|bytes|, i requires 0 <= i < |bytes| => JInt(SignedByte(bytes[i]))))])
  }

  /** The array under a name; anything else counts as an empty array. */
  function ItemsOf(j: Json, name: string): seq<Json> {
    match Member(j, name)
    case Some(JArr(items)) => items
    case _ => []
  }

  function BytesOf(j: Json): seq<nat> {
    var items := ItemsOf(j, "serialised");
    seq(|items|, i requires 0 <= i < |items| => IntOf(items[i]) % 256)
  }

  function TypesOf(items: seq<Json>): seq<nat> {
    seq(|items|, i requires 0 <= i < |items| => IntOf(items[i]) % RANGE32)
  }

  function FunJson(prototype: seq<nat>, returnType: nat): Json {
    var m := map["type" := JStr("RPC_function"), "return_type" := JInt(returnType % RANGE32)];
    if |prototype| > 0 then
      JObj(m["prototype" := JArr(seq(|prototype|, i requires 0 <= i < |prototype| => JInt(prototype[i] % RANGE32)))])
    else JObj(m)
  }

  function ReturnTypeOf(j: Json): nat {
    match Member(j, "return_type")
    case Some(v) => IntOf(v) % RANGE32
    case None => 0
  }

  /** `rpc_sizedbuf_serialize`. */
  method BufSerialize(bytes: seq<nat>) returns (j: Json)
    ensures j == BufJson(bytes)
  {
    var values := [];
    var i := 0;
    while i < |bytes|
      invariant 0 <= i <= |bytes|
      invariant |values| == i && forall k :: 0 <= k < i ==> values[k] == JInt(SignedByte(bytes[k]))
    {
      values := values + [JInt(SignedByte(bytes[i]))];
      i := i + 1;
    }
    assert values == seq(|bytes|, k requires 0 <= k < |bytes| => JInt(SignedByte(bytes[k])));
    j := JObj(map["type" := JStr("RPC_sizedbuf"), "serialised" := JArr(values)]);
  }

  /** `rpc_sizedbuf_deserialize`. `defined` is false where the source frees the buffer pointer of an
      object it has just allocated and not yet filled in. */
  method BufDeserialize(j: Json) returns (defined: bool, r: Leaf)
    ensures defined <==> Member(j, "type") == Some(JStr("RPC_sizedbuf"))
    ensures defined ==> r == Buf(BytesOf(j))
  {
    if Member(j, "type") != Some(JStr("RPC_sizedbuf")) {
      return false, Buf([]);
    }
    var items := ItemsOf(j, "serialised");
    var buf := [];
    var i := 0;
    while i < |items|
      invariant 0 <= i <= |items|
      invariant |buf| == i && forall k :: 0 <= k < i ==> buf[k] == IntOf(items[k]) % 256
    {
      buf := buf + [IntOf(items[i]) % 256];
      i := i + 1;
    }
    assert buf == BytesOf(j);
    defined, r := true, Buf(buf);
  }

  /** `rpc_function_serialize`: the function pointer is not written. */
  method FunSerialize(prototype: seq<nat>, returnType: nat) returns (j: Json)
    ensures j == FunJson(prototype, returnType)
  {
    var m := map["type" := JStr("RPC_function"), "return_type" := JInt(returnType % RANGE32)];
    if |prototype| > 0 {
      var values := [];
      var i := 0;
      while i < |prototype|
        invariant 0 <= i <= |prototype|
        invariant |values| == i && forall k :: 0 <= k < i ==> values[k] == JInt(prototype[k] % RANGE32)
      {
        values := values + [JInt(prototype[i] % RANGE32)];
        i := i + 1;
      }
      assert values == seq(|prototype|, k requires 0 <= k < |prototype| => JInt(prototype[k] % RANGE32));
      m := m["prototype" := JArr(values)];
    }
    j := JObj(m);
  }

  /** `rpc_function_deserialize`: the function pointer comes back NULL. */
  method FunDeserialize(j: Json) returns (r: Option<Leaf>)
    ensures r == if Member(j, "type") == Some(JStr("RPC_function"))
                 then Some(Fun(TypesOf(ItemsOf(j, "prototype")), ReturnTypeOf(j), 0)) else None
  {
    if Member(j, "type") != Some(JStr("RPC_function")) {
      return None;
    }
    var items := ItemsOf(j, "prototype");
    var prototype := [];
    var i := 0;
    while i < |items|
      invariant 0 <= i <= |items|
      invariant |prototype| == i && forall k :: 0 <= k < i ==> prototype[k] == IntOf(items[k]) % RANGE32
    {
      prototype := prototype + [IntOf(items[i]) % RANGE32];
      i := i + 1;
    }
    assert prototype == TypesOf(items);
    r := Some(Fun(prototype, ReturnTypeOf(j), 0));
  }

  // ---------- what comes back ----------

  /** Members that are written; raw pointers and RPC_none slots are dropped. */
  predicate Kept(t: Tree) {
    !t.TOpaque? && !t.TVoid?
  }

  /** A tree as a round trip returns it: numbers and reals widened to 64 bits, bytes and types
      reduced to their width, unwritten members dropped and function pointers NULL. */
  ghost function Norm(t: Tree): Tree
    decreases t
  {
    match t
    case TNum(length, bits) => TNum(8, Widened(length, bits))
    case TReal(length, value) => TReal(8, WidenedReal(length, value))
    case TBuf(bytes) => TBuf(seq(|bytes|, i requires 0 <= i < |bytes| => bytes[i] % 256))
    case TFun(prototype, returnType, _) =>
      TFun(seq(|prototype|, i requires 0 <= i < |prototype| => prototype[i] % RANGE32), returnType % RANGE32, 0)
    case TStruct(id, members, aliases) =>
      TStruct(id, map k | k in members && Kept(members[k]) :: Norm(members[k]), aliases)
    case _ => t
  }

  /** Normalising twice changes nothing more. */
  lemma {:induction false} NormIdempotent(t: Tree)
    ensures Norm(Norm(t)) == Norm(t)
    ensures Kept(Norm(t)) <==> Kept(t)
    decreases t
  {
    match t {
      case TNum(length, bits) =>
      case TReal(length, value) =>
      case TBuf(bytes) =>
        assert Norm(Norm(t)).bytes == Norm(t).bytes;
      case TFun(prototype, returnType, _) =>
        assert Norm(Norm(t)).prototype == Norm(t).prototype;
      case TStruct(id, members, aliases) =>
        forall k | k in members
          ensures Norm(Norm(members[k])) == Norm(members[k])
          ensures Kept(Norm(members[k])) <==> Kept(members[k])
        {
          NormIdempotent(members[k]);
        }
        assert Norm(Norm(t)).members == Norm(t).members;
      case _ =>
    }
  }

  /** The numbers that fit `length` bytes. */
  ghost predicate InWidth(length: nat, bits: nat) {
    || (length == 1 && bits < 0x100)
    || (length == 2 && bits < 0x1_0000)
    || (length == 4 && bits < 0x1_0000_0000)
    || (length == 8 && bits < 0x1_0000_0000_0000_0000)
  }

  /** Numbers that fit their slots and reals keep their value; texts come back as they are. */
  lemma ScalarsComeBack(length: nat, bits: nat, size: nat, value: real, text: string)
    ensures InWidth(length, bits) ==> Norm(TNum(length, bits)) == TNum(8, bits)
    ensures size == 4 || size == 8 ==> Norm(TReal(size, value)) == TReal(8, value)
    ensures Norm(TText(text)) == TText(text)
  {
  }

  /** So do bytes and types that fit their width; function pointers come back NULL. */
  lemma LeavesComeBack(bytes: seq<nat>, prototype: seq<nat>, returnType: nat, pointer: nat)
    ensures (forall i :: 0 <= i < |bytes| ==> bytes[i] < 256) ==> Norm(TBuf(bytes)) == TBuf(bytes)
    ensures (forall i :: 0 <= i < |prototype| ==> prototype[i] < 0x1_0000_0000) && returnType < 0x1_0000_0000 ==>
              Norm(TFun(prototype, returnType, pointer)) == TFun(prototype, returnType, 0)
  {
    if forall i :: 0 <= i < |bytes| ==> bytes[i] < 256 {
      assert Norm(TBuf(bytes)).bytes == bytes;
    }
    if forall i :: 0 <= i < |prototype| ==> prototype[i] < 0x1_0000_0000 {
      assert Norm(TFun(prototype, returnType, pointer)).prototype == prototype;
    }
  }

  /** Of a struct's members only raw pointers and RPC_none are dropped; ID and aliases are kept. */
  lemma MembersComeBack(t: Tree)
    requires t.TStruct?
    ensures Norm(t).TStruct? && Norm(t).id == t.id && Norm(t).aliases == t.aliases
    ensures forall k :: k in Norm(t).members <==> k in t.members && !t.members[k].TOpaque? && !t.members[k].TVoid?
    ensures forall k :: k in Norm(t).members ==> Norm(t).members[k] == Norm(t.members[k])
  {
  }

  /** Every number is 64 bits wide, bytes and types fit, function pointers are NULL, and no member is a raw
      pointer or RPC_none. */
  ghost predicate Exact(t: Tree) {
    match t
    case TNum(length, bits) => length == 8 && bits < 0x1_0000_0000_0000_0000
    case TReal(length, value) => length == 8
    case TBuf(bytes) => forall i :: 0 <= i < |bytes| ==> bytes[i] < 256
    case TFun(prototype, returnType, pointer) =>
      (forall i :: 0 <= i < |prototype| ==> prototype[i] < 0x1_0000_0000) && returnType < 0x1_0000_0000 && pointer == 0
    case TStruct(id, members, aliases) =>
      forall k :: k in members ==> !members[k].TOpaque? && !members[k].TVoid? && Exact(members[k])
    case _ => true
  }

  /** A value comes back unchanged exactly when it is of that kind. */
  lemma {:induction false} UnchangedIff(t: Tree)
    ensures Norm(t) == t <==> Exact(t)
    decreases t
  {
    match t {
      case TStruct(id, members, aliases) =>
        MembersComeBack(t);
        forall k | k in members
          ensures Norm(members[k]) == members[k] <==> Exact(members[k])
        {
          UnchangedIff(members[k]);
        }
        if Exact(t) {
          assert Norm(t).members == members;
        }
        if Norm(t) == t {
          forall k | k in members
            ensures !members[k].TOpaque? && !members[k].TVoid? && Exact(members[k])
          {
            assert k in Norm(t).members;
          }
        }
      case TBuf(bytes) =>
        LeavesComeBack(bytes, [], 0, 0);
        if Norm(t) == t {
          assert forall i :: 0 <= i < |bytes| ==> bytes[i] == bytes[i] % 256;
        }
      case TFun(prototype, returnType, pointer) =>
        LeavesComeBack([], prototype, returnType, pointer);
        if Norm(t) == t {
          assert forall i :: 0 <= i < |prototype| ==> prototype[i] == prototype[i] % 0x1_0000_0000;
        }
      case _ =>
    }
  }

  lemma BufRoundTrip(bytes: seq<nat>)
    ensures TBuf(BytesOf(BufJson(bytes))) == Norm(TBuf(bytes))
  {
    assert BytesOf(BufJson(bytes)) == Norm(TBuf(bytes)).bytes;
  }

  lemma FunRoundTrip(prototype: seq<nat>, returnType: nat, pointer: nat)
    ensures var j := FunJson(prototype, returnType);
            TFun(TypesOf(ItemsOf(j, "prototype")), ReturnTypeOf(j), 0) == Norm(TFun(prototype, returnType, pointer))
  {
    var j := FunJson(prototype, returnType);
    assert TypesOf(ItemsOf(j, "prototype")) == Norm(TFun(prototype, returnType, pointer)).prototype;
  }

  // ---------- what is written ----------

  predicate IsObject(t: Tree) {
    t.TStruct? || t.TBuf? || t.TFun?
  }

  /** The key whose item stands for key `k`: itself, or the original a duplicate names. */
  function Rep(dup: map<string, Json>, k: Key): Key {
    if k in dup && dup[k].JStr? then dup[k].s else k
  }

  ghost predicate IsStructJson(j: Json) {
    Member(j, "type") == Some(JStr("RPC_struct")) && Member(j, "serialised").Some?
  }

  /** `j` is a JSON form of `t`. One key of every group of aliases is written under "serialised", the
      others name it under "duplicates". */
  ghost predicate Encodes(t: Tree, j: Json)
    decreases t
  {
    match t
    case TNum(length, bits) => j == JInt(ToSigned(Widened(length, bits)))
    case TReal(length, value) => j == JReal(WidenedReal(length, value))
    case TText(text) => j == JStr(text)
    case TBuf(bytes) => j == BufJson(bytes)
    case TFun(prototype, returnType, _) => j == FunJson(prototype, returnType)
    case TStruct(id, members, aliases) =>
      && |id| == ID_LENGTH && j.JObj? && j.fields.Keys == {"ID", "type", "serialised", "duplicates"}
      && j.fields["ID"] == JStr(id) && j.fields["type"] == JStr("RPC_struct")
      && j.fields["serialised"].JObj? && j.fields["duplicates"].JObj?
      && Divides(members, aliases, j.fields["serialised"].fields, j.fields["duplicates"].fields)
      && var ser := j.fields["serialised"].fields;
         forall k :: k in ser && k in members ==> Encodes(members[k], ser[k])
    case _ => false
  }

  /** `ser` and `dup` divide the written members between them as `aliases` asks. */
  ghost predicate Divides(members: map<Key, Tree>, aliases: set<(Key, Key)>, ser: map<string, Json>, dup: map<string, Json>) {
    && (forall k :: k in ser || k in dup <==> k in members && Kept(members[k]))
    && (forall k :: k in dup ==>
          k !in ser && dup[k].JStr? && dup[k].s in ser && members[k] == members[dup[k].s] && IsObject(members[k]))
    && (forall a, b :: (a, b) in aliases <==>
          a in members && b in members && IsObject(members[a]) && IsObject(members[b]) && Rep(dup, a) == Rep(dup, b))
  }
}
