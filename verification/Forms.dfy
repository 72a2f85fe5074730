/** What the JSON form of a tree is good for: it is safe to read, its tables are proper, and it stands for
    the tree, normalised, and for nothing else. */
module Forms {
  import opened Graph
  import opened Trees
  import opened Codec
  import opened Reading

  /** The type names tell the three kinds of object apart. */
  lemma KindByType(t: Tree, j: Json)
    requires Encodes(t, j) && j.JObj?
    ensures "type" in j.fields && j.fields["type"].JStr?
    ensures t.TStruct? <==> j.fields["type"].s == "RPC_struct"
    ensures t.TFun? <==> j.fields["type"].s == "RPC_function"
    ensures t.TBuf? <==> j.fields["type"].s == "RPC_sizedbuf"
    ensures t.TFun? || t.TBuf? || t.TStruct?
  {
    TypeNames();
  }

  lemma SerialisedIsMember(t: Tree, j: Json, k: Key)
    requires t.TStruct? && Encodes(t, j) && k in j.fields["serialised"].fields
    ensures k in t.members && Encodes(t.members[k], j.fields["serialised"].fields[k])
  {
  }

  /** What is written can be read: the JSON form of any tree is safe input that stores an element. */
  lemma {:induction false} EncodesSafe(t: Tree, j: Json)
    requires Encodes(t, j)
    ensures SafeItem(j) && Yields(j) && (t.TStruct? ==> SafeStruct(j) && IsStructJson(j))
    decreases t
  {
    hide Divides;
    if t.TStruct? {
      var ser := j.fields["serialised"].fields;
      forall k | k in ser
        ensures SafeItem(ser[k])
      {
        SerialisedIsMember(t, j, k);
        EncodesSafe(t.members[k], ser[k]);
      }
    } else if j.JObj? {
      KindByType(t, j);
    }
  }

  /** The tables written are proper. */
  lemma {:induction false} EncodesWellFormed(t: Tree, j: Json)
    requires Encodes(t, j)
    ensures WellFormed(j)
    decreases t
  {
    hide SafeItem, SafeStruct;
    if t.TStruct? {
      var ser := j.fields["serialised"].fields;
      forall k | k in ser
        ensures WellFormed(ser[k]) && Yields(ser[k])
      {
        SerialisedIsMember(t, j, k);
        EncodesWellFormed(t.members[k], ser[k]);
        EncodesSafe(t.members[k], ser[k]);
      }
    } else if j.JObj? {
      KindByType(t, j);
      TypeNames();
    }
  }

  lemma ScalarRead(t: Tree, j: Json, t': Tree)
    requires Encodes(t, j) && Reads(j, t') && !t.TStruct?
    ensures t' == Norm(t)
  {
    TypeNames();
    match t {
      case TNum(length, bits) => SignedRoundTrip(Widened(length, bits));
      case TBuf(bytes) => BufRoundTrip(bytes);
      case TFun(prototype, returnType, pointer) => FunRoundTrip(prototype, returnType, pointer);
      case _ =>
    }
  }

  /** The parts of a struct's JSON form and what they are read as. */
  lemma StructParts(t: Tree, j: Json, t': Tree)
    requires t.TStruct? && Encodes(t, j) && Reads(j, t')
    ensures t'.TStruct? && t'.id == t.id
    ensures j.JObj? && "serialised" in j.fields && j.fields["serialised"].JObj?
    ensures var ser, dup := j.fields["serialised"].fields, ChildrenOf(j, "duplicates");
            && Divides(t.members, t.aliases, ser, dup) && ReadTable(ser, dup, t')
            && forall k :: k in ser && k in t'.members && Yields(ser[k]) ==> Reads(ser[k], t'.members[k])
  {
    hide Divides, ReadTable, Yields;
    TypeNames();
  }

  /** What the JSON form of a tree stands for is the tree, normalised. */
  lemma {:induction false} EncodesReads(t: Tree, j: Json, t': Tree)
    requires Encodes(t, j) && Reads(j, t')
    ensures t' == Norm(t)
    decreases t
  {
    if !t.TStruct? {
      ScalarRead(t, j, t');
    } else {
      StructParts(t, j, t');
      var ser, dup := j.fields["serialised"].fields, ChildrenOf(j, "duplicates");
      forall k | k in ser
        ensures k in t.members && Yields(ser[k]) && (k in t'.members ==> t'.members[k] == Norm(t.members[k]))
      {
        SerialisedIsMember(t, j, k);
        EncodesSafe(t.members[k], ser[k]);
        if k in t'.members {
          EncodesReads(t.members[k], ser[k], t'.members[k]);
        }
      }
      SameMembers(t, ser, dup, t');
      NormAliases(t, ser, dup);
    }
  }

  lemma SameMembers(t: Tree, ser: map<string, Json>, dup: map<string, Json>, t': Tree)
    requires t.TStruct? && Divides(t.members, t.aliases, ser, dup) && ReadTable(ser, dup, t')
    requires forall k :: k in ser ==>
               k in t.members && Yields(ser[k]) && (k in t'.members ==> t'.members[k] == Norm(t.members[k]))
    ensures t'.members == Norm(t).members
  {
    hide Yields, AliasesBy, IsObject;
    var n := Norm(t);
    forall k | k in n.members
      ensures k in t'.members && t'.members[k] == n.members[k]
    {
    }
  }

  /** The table makes the aliases it was written for. */
  lemma NormAliases(t: Tree, ser: map<string, Json>, dup: map<string, Json>)
    requires t.TStruct? && Divides(t.members, t.aliases, ser, dup)
    ensures AliasesBy(Norm(t).members, dup) == t.aliases
  {
    hide Rep;
    var members := Norm(t).members;
    forall k | k in t.members && IsObject(t.members[k])
      ensures k in members
    {
    }
    forall k | k in members
      ensures k in t.members && (IsObject(members[k]) <==> IsObject(t.members[k]))
    {
      assert members[k] == Norm(t.members[k]);
    }
    forall x: (Key, Key)
      ensures x in AliasesBy(members, dup) <==> x in t.aliases
    {
      var (a, b) := x;
    }
  }

  /** ... and it does stand for it. */
  lemma {:induction false} EncodesStands(t: Tree, j: Json)
    requires Encodes(t, j)
    ensures Reads(j, Norm(t))
    decreases t
  {
    hide Divides;
    if !t.TStruct? {
      ScalarStands(t, j);
    } else {
      var ser, dup := j.fields["serialised"].fields, ChildrenOf(j, "duplicates");
      forall k | k in ser
        ensures k in t.members && Yields(ser[k]) && Reads(ser[k], Norm(t.members[k]))
      {
        SerialisedIsMember(t, j, k);
        EncodesSafe(t.members[k], ser[k]);
        EncodesStands(t.members[k], ser[k]);
      }
      TableStands(t, ser, dup);
      StructStands(t, j);
    }
  }

  lemma ScalarStands(t: Tree, j: Json)
    requires Encodes(t, j) && !t.TStruct?
    ensures Reads(j, Norm(t))
  {
    TypeNames();
    match t {
      case TNum(length, bits) => SignedRoundTrip(Widened(length, bits));
      case TBuf(bytes) => BufRoundTrip(bytes);
      case TFun(prototype, returnType, pointer) => FunRoundTrip(prototype, returnType, pointer);
      case _ =>
    }
  }

  lemma TableStands(t: Tree, ser: map<string, Json>, dup: map<string, Json>)
    requires t.TStruct? && Divides(t.members, t.aliases, ser, dup) && forall k :: k in ser ==> Yields(ser[k])
    ensures ReadTable(ser, dup, Norm(t))
  {
    hide Yields, AliasesBy, Divides, Norm;
    NormAliases(t, ser, dup);
    MembersComeBack(t);
    KeysDivided(t, ser, dup);
    DuplicatesStand(t, ser, dup, Norm(t));
  }

  lemma DuplicatesStand(t: Tree, ser: map<string, Json>, dup: map<string, Json>, n: Tree)
    requires t.TStruct? && n.TStruct? && forall k :: k in n.members ==> k in t.members && n.members[k] == Norm(t.members[k])
    requires forall k :: k in ser || k in dup <==> k in n.members
    requires forall k :: k in dup ==>
               dup[k].JStr? && dup[k].s in ser && k in t.members && dup[k].s in t.members && t.members[k] == t.members[dup[k].s]
    ensures forall k :: k in dup ==> dup[k].JStr? && dup[k].s in n.members && n.members[k] == n.members[dup[k].s]
  {
    hide Norm;
  }

  lemma KeysDivided(t: Tree, ser: map<string, Json>, dup: map<string, Json>)
    requires t.TStruct? && Divides(t.members, t.aliases, ser, dup)
    ensures forall k :: k in ser || k in dup <==> k in t.members && !t.members[k].TOpaque? && !t.members[k].TVoid?
    ensures forall k :: k in dup ==>
              dup[k].JStr? && dup[k].s in ser && k in t.members && dup[k].s in t.members && t.members[k] == t.members[dup[k].s]
  {
    hide IsObject, Rep;
  }

  lemma StructStands(t: Tree, j: Json)
    requires t.TStruct? && Encodes(t, j)
    requires var ser, dup := j.fields["serialised"].fields, ChildrenOf(j, "duplicates");
             ReadTable(ser, dup, Norm(t)) && forall k :: k in ser ==> k in t.members && Reads(ser[k], Norm(t.members[k]))
    ensures Reads(j, Norm(t))
  {
    hide Divides, ReadTable;
    TypeNames();
  }

  /** What is written for scalars that fit their slots: the number as a signed 64-bit integer. */
  lemma ScalarWritten(t: Tree, j: Json)
    requires Encodes(t, j)
    ensures t.TNum? && InWidth(t.length, t.bits) ==>
              j == JInt(if t.bits < 0x8000_0000_0000_0000 then t.bits as int else t.bits as int - 0x1_0000_0000_0000_0000)
    ensures t.TReal? && (t.length == 4 || t.length == 8) ==> j == JReal(t.value)
    ensures t.TText? ==> j == JStr(t.text)
  {
    if t.TNum? && InWidth(t.length, t.bits) {
      ScalarsComeBack(t.length, t.bits, 0, 0.0, "");
      SignedValue(t.bits);
    }
  }

  /** What is written for leaves: bytes as signed chars, types as they are. */
  lemma LeafWritten(t: Tree, j: Json)
    requires Encodes(t, j)
    ensures t.TBuf? ==>
              && HasType(j, "RPC_sizedbuf") && "serialised" in j.fields && j.fields["serialised"].JArr?
              && var items := j.fields["serialised"].items;
                 && |items| == |t.bytes|
                 && (forall i :: 0 <= i < |items| && t.bytes[i] < 128 ==> items[i] == JInt(t.bytes[i]))
                 && forall i :: 0 <= i < |items| && 128 <= t.bytes[i] < 256 ==> items[i] == JInt(t.bytes[i] as int - 256)
    ensures t.TFun? ==> HasType(j, "RPC_function") && "return_type" in j.fields
    ensures t.TFun? && t.returnType < 0x1_0000_0000 ==> j.fields["return_type"] == JInt(t.returnType)
    ensures t.TFun? ==>
              && ("prototype" in j.fields <==> t.prototype != [])
              && ("prototype" in j.fields ==>
                    && j.fields["prototype"].JArr?
                    && var items := j.fields["prototype"].items;
                       && |items| == |t.prototype|
                       && forall i :: 0 <= i < |items| && t.prototype[i] < 0x1_0000_0000 ==> items[i] == JInt(t.prototype[i]))
  {
    TypeNames();
    assert "type" != "return_type" && "type" != "prototype" && "type" != "serialised" && "return_type" != "prototype" by {
      assert |"type"| == 4 && |"return_type"| == 11 && |"prototype"| == 9 && |"serialised"| == 10;
    }
  }
}
