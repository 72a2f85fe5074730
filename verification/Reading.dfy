/** What the JSON that `rpc_struct_deserialize` accepts stands for. */
module Reading {
  import opened Wrappers
  import opened Graph
  import opened Ownership
  import opened Trees
  import opened Codec

  /** The type names differ. */
  lemma TypeNames()
    ensures "RPC_struct" != "RPC_function" && "RPC_struct" != "RPC_sizedbuf" && "RPC_function" != "RPC_sizedbuf"
  {
    assert |"RPC_struct"| == 10 && |"RPC_function"| == 12 && |"RPC_sizedbuf"| == 12;
    assert "RPC_function"[4] != "RPC_sizedbuf"[4];
  }

  // ---------- what the parser requires of its input ----------

  /** The parser compares type names and copies IDs without checking that they are strings, or that
      an ID fits: other input has no defined outcome. */
  ghost predicate SafeStruct(j: Json)
    decreases j, 0
  {
    j.JObj? ==>
      && ("ID" in j.fields ==> j.fields["ID"].JStr? && |j.fields["ID"].s| <= ID_LENGTH)
      && ("type" in j.fields ==> j.fields["type"].JStr?)
      && ("type" in j.fields && j.fields["type"].s == "RPC_struct" && "serialised" in j.fields
          && j.fields["serialised"].JObj? ==>
            forall k :: k in j.fields["serialised"].fields ==> SafeItem(j.fields["serialised"].fields[k]))
  }

  ghost predicate SafeItem(j: Json)
    decreases j, 1
  {
    match j
    case JArr(items) => forall i :: 0 <= i < |items| ==> SafeItem(items[i])
    case JObj(fields) =>
      "type" in fields && fields["type"].JStr? && (fields["type"].s == "RPC_struct" ==> SafeStruct(j))
    case _ => true
  }

  // ---------- what input stands for ----------

  /** The children of a named object; anything else has none. */
  function ChildrenOf(j: Json, name: string): map<string, Json> {
    match Member(j, name)
    case Some(JObj(fields)) => fields
    case _ => map[]
  }

  /** Items that store an element: null, booleans and objects of unknown type store none. */
  ghost predicate Yields(j: Json) {
    match j
    case JInt(_) => true
    case JReal(_) => true
    case JStr(_) => true
    case JArr(_) => true
    case JObj(_) =>
      Member(j, "type") == Some(JStr("RPC_function")) || Member(j, "type") == Some(JStr("RPC_sizedbuf")) || IsStructJson(j)
    case _ => false
  }

  /** Duplicates use keys that no item stores under, and name items that store an element. */
  ghost predicate ProperTable(ser: map<string, Json>, dup: map<string, Json>) {
    forall k :: k in dup ==> (k in ser ==> !Yields(ser[k])) && dup[k].JStr? && dup[k].s in ser && Yields(ser[dup[k].s])
  }

  /** Every duplicates table in the input is proper. */
  ghost predicate WellFormed(j: Json)
    decreases j
  {
    match j
    case JArr(items) => forall i :: 0 <= i < |items| ==> WellFormed(items[i])
    case JObj(fields) =>
      IsStructJson(j) ==>
        && ProperTable(ChildrenOf(j, "serialised"), ChildrenOf(j, "duplicates"))
        && ("serialised" in fields && fields["serialised"].JObj? ==>
              forall k :: k in fields["serialised"].fields ==> WellFormed(fields["serialised"].fields[k]))
    case _ => true
  }

  /** The decimal form of an array index. */
  function Decimal(n: nat): (s: string)
    ensures |s| > 0
  {
    if n < 10 then ["0123456789"[n]] else Decimal(n / 10) + ["0123456789"[n % 10]]
  }

  /** The members a struct has once its duplicates are added to its items. */
  ghost function Completed(members: map<Key, Tree>, dup: map<string, Json>): map<Key, Tree> {
    members + map k | k in dup && dup[k].JStr? && dup[k].s in members :: members[dup[k].s]
  }

  /** The aliases a duplicates table makes. */
  ghost function AliasesBy(members: map<Key, Tree>, dup: map<string, Json>): set<(Key, Key)> {
    set a, b |
      && a in members && b in members && IsObject(members[a]) && IsObject(members[b])
      && Rep(dup, a) == Rep(dup, b) :: (a, b)
  }

  /** An ID given in the input replaces the front of the random one. */
  ghost predicate IdRead(j: Json, id: string) {
    |id| == ID_LENGTH && match Member(j, "ID") { case Some(JStr(given)) => given <= id case _ => true }
  }

  /** Reading `j` gives a value that unfolds to `t`. IDs the input does not give are random. */
  ghost predicate Reads(j: Json, t: Tree)
    decreases j
  {
    match j
    case JInt(v) => t == TNum(8, FromSigned(v))
    case JReal(r) => t == TReal(8, r)
    case JStr(s) => t == TText(s)
    case JArr(items) =>
      && t.TStruct? && |t.id| == ID_LENGTH && t.aliases == AliasesBy(t.members, map[])
      && (forall k :: k in t.members ==> exists i :: 0 <= i < |items| && k == Decimal(i))
      && forall i :: 0 <= i < |items| ==>
           (Decimal(i) in t.members <==> Yields(items[i])) && (Yields(items[i]) ==> Reads(items[i], t.members[Decimal(i)]))
    case JObj(fields) =>
      if Member(j, "type") == Some(JStr("RPC_function")) then
        t == TFun(TypesOf(ItemsOf(j, "prototype")), ReturnTypeOf(j), 0)
      else if Member(j, "type") == Some(JStr("RPC_sizedbuf")) then t == TBuf(BytesOf(j))
      else
        && IsStructJson(j) && t.TStruct? && IdRead(j, t.id)
        && ReadTable(ChildrenOf(j, "serialised"), ChildrenOf(j, "duplicates"), t)
        && ("serialised" in fields && fields["serialised"].JObj? ==>
              forall k :: k in fields["serialised"].fields && k in t.members && Yields(fields["serialised"].fields[k]) ==>
                Reads(fields["serialised"].fields[k], t.members[k]))
    case _ => false
  }

  /** The struct `t` has a member for every item that stores one and for every duplicate. */
  ghost predicate ReadTable(ser: map<string, Json>, dup: map<string, Json>, t: Tree) {
    && t.TStruct? && t.aliases == AliasesBy(t.members, dup)
    && (forall k :: k in t.members <==> (k in ser && Yields(ser[k])) || k in dup)
    && (forall k :: k in dup ==> dup[k].JStr? && dup[k].s in t.members && t.members[k] == t.members[dup[k].s])
  }

  lemma {:induction false} DecimalInjective(m: nat, n: nat)
    requires Decimal(m) == Decimal(n)
    ensures m == n
    decreases m
  {
    var s := Decimal(m);
    DigitInjective(m % 10, n % 10);
    if m < 10 || n < 10 {
    } else {
      assert Decimal(m / 10) == s[..|s| - 1] == Decimal(n / 10);
      DecimalInjective(m / 10, n / 10);
    }
  }

  lemma DigitInjective(a: nat, b: nat)
    requires a < 10 && b < 10
    ensures "0123456789"[a] == "0123456789"[b] ==> a == b
  {
  }

  /** The number a string of digits denotes. */
  ghost function Value(s: string): int {
    if s == "" then 0 else 10 * Value(s[..|s| - 1]) + (s[|s| - 1] as int - '0' as int)
  }

  /** Decimal digits without leading zeros. */
  ghost predicate Numeral(s: string) {
    s != "" && (forall i :: 0 <= i < |s| ==> '0' <= s[i] <= '9') && (s[0] == '0' ==> |s| == 1)
  }

  /** An index is printed as the one numeral that denotes it. */
  lemma {:induction false} DecimalIff(n: nat, s: string)
    ensures s == Decimal(n) <==> Numeral(s) && Value(s) == n
  {
    DecimalDenotes(n);
    if Numeral(s) && Value(s) == n {
      OneNumeral(s, Decimal(n));
    }
  }

  lemma {:induction false} DecimalDenotes(n: nat)
    ensures Numeral(Decimal(n)) && Value(Decimal(n)) == n && (Decimal(n)[0] == '0' ==> n == 0)
  {
    DigitValue(n % 10);
    if n >= 10 {
      DecimalDenotes(n / 10);
      var s := Decimal(n);
      assert s[..|s| - 1] == Decimal(n / 10);
    } else {
      assert Decimal(n)[..0] == "";
    }
  }

  lemma DigitValue(d: nat)
    requires d < 10
    ensures '0' <= "0123456789"[d] <= '9' && "0123456789"[d] as int - '0' as int == d
  {
  }

  lemma {:induction false} ValueBound(s: string)
    requires Numeral(s)
    ensures Value(s) >= 0 && (s[0] != '0' ==> Value(s) > 0) && (|s| > 1 ==> Value(s) >= 10)
  {
    if |s| > 1 {
      ValueBound(s[..|s| - 1]);
    }
  }

  lemma {:induction false} OneNumeral(s: string, s': string)
    requires Numeral(s) && Numeral(s') && Value(s) == Value(s')
    ensures s == s'
  {
    ValueBound(s);
    ValueBound(s');
    if |s| == 1 || |s'| == 1 {
    } else {
      var a, b := s[..|s| - 1], s'[..|s'| - 1];
      OneNumeral(a, b);
      assert s == a + [s[|s| - 1]] && s' == b + [s'[|s'| - 1]];
    }
  }

  /** No object in the input lists duplicates. */
  ghost predicate NoTables(j: Json)
    decreases j
  {
    match j
    case JArr(items) => forall i :: 0 <= i < |items| ==> NoTables(items[i])
    case JObj(fields) => "duplicates" !in fields && forall k :: k in fields ==> NoTables(fields[k])
    case _ => true
  }

  /** Such input is well formed, whatever else it holds. */
  lemma {:induction false} NoTablesWellFormed(j: Json)
    requires NoTables(j)
    ensures WellFormed(j)
    decreases j
  {
    match j {
      case JArr(items) =>
        forall i | 0 <= i < |items|
          ensures WellFormed(items[i])
        {
          NoTablesWellFormed(items[i]);
        }
      case JObj(fields) =>
        if "serialised" in fields && fields["serialised"].JObj? {
          var ser := fields["serialised"];
          assert NoTables(ser);
          forall k | k in ser.fields
            ensures WellFormed(ser.fields[k])
          {
            NoTablesWellFormed(ser.fields[k]);
          }
        }
      case _ =>
    }
  }

  // ---------- what input stands for, item by item ----------

  ghost predicate HasType(j: Json, name: string) {
    j.JObj? && "type" in j.fields && j.fields["type"] == JStr(name)
  }

  /** The numbers listed under a name, each reduced to its range; entries that are no integers count as 0,
      and no array as an empty one. */
  ghost predicate NumbersUnder(item: Json, name: string, range: nat, numbers: seq<nat>)
    requires item.JObj? && range > 0
  {
    if name in item.fields && item.fields[name].JArr? then
      var items := item.fields[name].items;
      && |numbers| == |items|
      && forall i :: 0 <= i < |items| ==> numbers[i] == if items[i].JInt? then items[i].v % range else 0
    else numbers == []
  }

  /** What an item gives its struct under key `k`: numbers, reals, texts, arrays, and objects of the three
      types are stored; null, booleans and other objects are not. */
  ghost predicate Gives(item: Json, members: map<Key, Tree>, k: Key) {
    match item
    case JInt(v) => k in members && members[k] == TNum(8, v % 0x1_0000_0000_0000_0000)
    case JReal(r) => k in members && members[k] == TReal(8, r)
    case JStr(s) => k in members && members[k] == TText(s)
    case JArr(_) => k in members && members[k].TStruct?
    case JObj(fields) =>
      if HasType(item, "RPC_sizedbuf") then
        k in members && members[k].TBuf? && NumbersUnder(item, "serialised", 0x100, members[k].bytes)
      else if HasType(item, "RPC_function") then
        && k in members && members[k].TFun? && members[k].pointer == 0
        && NumbersUnder(item, "prototype", 0x1_0000_0000, members[k].prototype)
        && members[k].returnType == if "return_type" in fields && fields["return_type"].JInt?
                                    then fields["return_type"].v % 0x1_0000_0000 else 0
      else if HasType(item, "RPC_struct") && "serialised" in fields then k in members && members[k].TStruct?
      else k !in members
    case _ => k !in members
  }

  lemma ItemGives(item: Json, members: map<Key, Tree>, k: Key)
    requires k in members <==> Yields(item)
    requires Yields(item) ==> Reads(item, members[k])
    ensures Gives(item, members, k)
  {
    hide ReadTable;
    TypeNames();
  }

  /** An array stands for the struct that has every item that gives one under the numeral of its index,
      and nothing else. */
  lemma ArrayStands(items: seq<Json>, t: Tree)
    requires Reads(JArr(items), t)
    ensures t.TStruct?
    ensures forall k :: k in t.members ==> Numeral(k) && 0 <= Value(k) < |items|
    ensures forall k :: Numeral(k) && 0 <= Value(k) < |items| ==> Gives(items[Value(k)], t.members, k)
  {
    hide Yields, Gives, Numeral, Value;
    forall k | k in t.members
      ensures Numeral(k) && 0 <= Value(k) < |items|
    {
      var i :| 0 <= i < |items| && k == Decimal(i);
      DecimalIff(i, k);
    }
    forall k | Numeral(k) && 0 <= Value(k) < |items|
      ensures Gives(items[Value(k)], t.members, k)
    {
      DecimalIff(Value(k), k);
      ItemGives(items[Value(k)], t.members, k);
    }
  }

  /** A struct's items give it their values under their own keys. */
  lemma ItemsStand(j: Json, t: Tree, k: Key)
    requires Reads(j, t) && HasType(j, "RPC_struct") && "serialised" in j.fields && j.fields["serialised"].JObj?
    requires k in j.fields["serialised"].fields && k !in ChildrenOf(j, "duplicates")
    ensures t.TStruct? && Gives(j.fields["serialised"].fields[k], t.members, k)
  {
    hide Yields, Gives, AliasesBy;
    TypeNames();
    ItemGives(j.fields["serialised"].fields[k], t.members, k);
  }
}
