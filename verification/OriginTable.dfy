/** The table of containers ("origins") that hold one object under one key name, with its list of
    reusable indices. First as values, then as the array and ring queue of the C code. */
module OriginTable {
  import opened Wrappers
  import RQ = RingQueue

  /** `slots` are the entries below `o_index`; `free` lists indices whose entry was nulled. */
  datatype Origins<T> = Origins(slots: seq<Option<T>>, free: seq<nat>)

  function EmptyOrigins<T>(): Origins<T> {
    Origins([], [])
  }

  ghost function Recorded<T>(t: Origins<T>): set<T> {
    set i | 0 <= i < |t.slots| && t.slots[i].Some? :: t.slots[i].value
  }

  ghost predicate Distinct(s: seq<nat>) {
    forall i, j :: 0 <= i < j < |s| ==> s[i] != s[j]
  }

  /** The free list holds exactly the nulled indices, each once. */
  ghost predicate FreeOk<T>(t: Origins<T>) {
    && Distinct(t.free)
    && (forall f :: f in t.free ==> f < |t.slots| && t.slots[f] == None)
    && (forall i :: 0 <= i < |t.slots| && t.slots[i] == None ==> i in t.free)
  }

  /** Recording an origin reuses the oldest free index or takes a new one. */
  function AddOrigin<T>(t: Origins<T>, o: T): Origins<T>
    requires forall f :: f in t.free ==> f < |t.slots|
  {
    if t.free == [] then Origins(t.slots + [Some(o)], [])
    else assert t.free[0] in t.free; Origins(t.slots[t.free[0] := Some(o)], t.free[1..])
  }

  /** Dropping an origin from index `i` on: the last entry shortens the table, others are nulled. */
  function DropFrom<T(==)>(t: Origins<T>, o: T, i: nat): Origins<T>
    requires i <= |t.slots|
    decreases |t.slots| - i
  {
    if i == |t.slots| then t
    else if t.slots[i] != Some(o) then DropFrom(t, o, i + 1)
    else if i == |t.slots| - 1 then Origins(t.slots[..i], t.free)
    else DropFrom(Origins(t.slots[i := None], t.free + [i]), o, i + 1)
  }

  lemma AddRecords<T>(t: Origins<T>, o: T)
    requires FreeOk(t)
    ensures FreeOk(AddOrigin(t, o))
    ensures Recorded(AddOrigin(t, o)) == Recorded(t) + {o}
  {
    var t' := AddOrigin(t, o);
    if t.free == [] {
      assert t'.slots[|t.slots|] == Some(o);
      assert forall i :: 0 <= i < |t.slots| ==> t'.slots[i] == t.slots[i];
    } else {
      var f := t.free[0];
      assert f in t.free && t.slots[f] == None && t'.slots[f] == Some(o);
      assert forall i :: 0 <= i < |t.slots| && i != f ==> t'.slots[i] == t.slots[i];
      assert forall g :: g in t.free[1..] ==> g in t.free && g != f;
      assert forall g :: g in t.free && g != f ==> g in t.free[1..];
    }
    forall x
      ensures x in Recorded(t') <==> x in Recorded(t) + {o}
    {
      if x in Recorded(t) {
        var i :| 0 <= i < |t.slots| && t.slots[i] == Some(x);
        assert t'.slots[i] == Some(x);
      }
    }
  }

  lemma NullOne<T>(t: Origins<T>, o: T, i: nat)
    requires FreeOk(t) && i + 1 < |t.slots| && t.slots[i] == Some(o)
    ensures var t' := Origins(t.slots[i := None], t.free + [i]);
            && FreeOk(t')
            && (forall j :: 0 <= j < |t.slots| && j != i ==> t'.slots[j] == t.slots[j])
  {
    var t' := Origins(t.slots[i := None], t.free + [i]);
    assert i !in t.free;
    assert forall f :: f in t'.free <==> f in t.free || f == i;
    assert i in t'.free by {
      assert t'.free[|t.free|] == i;
    }
  }

  /** Dropping removes the origin wherever it is recorded and nothing else. */
  lemma {:induction false} DropForgets<T>(t: Origins<T>, o: T, i: nat)
    requires FreeOk(t) && i <= |t.slots|
    requires forall j :: 0 <= j < i ==> t.slots[j] != Some(o)
    ensures FreeOk(DropFrom(t, o, i))
    ensures Recorded(DropFrom(t, o, i)) == Recorded(t) - {o}
    decreases |t.slots| - i
  {
    if i == |t.slots| {
    } else if t.slots[i] != Some(o) {
      DropForgets(t, o, i + 1);
    } else if i == |t.slots| - 1 {
      DropLast(t, o);
    } else {
      var t' := Origins(t.slots[i := None], t.free + [i]);
      NullOne(t, o, i);
      DropForgets(t', o, i + 1);
      forall x
        ensures x in Recorded(t') - {o} <==> x in Recorded(t) - {o}
      {
        if x in Recorded(t) - {o} {
          var j :| 0 <= j < |t.slots| && t.slots[j] == Some(x);
          assert t'.slots[j] == Some(x);
        }
      }
    }
  }

  lemma DropLast<T>(t: Origins<T>, o: T)
    requires FreeOk(t) && t.slots != [] && t.slots[|t.slots| - 1] == Some(o)
    requires forall j :: 0 <= j < |t.slots| - 1 ==> t.slots[j] != Some(o)
    ensures FreeOk(Origins(t.slots[..|t.slots| - 1], t.free))
    ensures Recorded(Origins(t.slots[..|t.slots| - 1], t.free)) == Recorded(t) - {o}
  {
    var t' := Origins(t.slots[..|t.slots| - 1], t.free);
    forall x
      ensures x in Recorded(t') <==> x in Recorded(t) - {o}
    {
      if x in Recorded(t) - {o} {
        var j :| 0 <= j < |t.slots| && t.slots[j] == Some(x);
        assert t'.slots[j] == Some(x);
      }
    }
  }

  /** Dropping gives back the last index, if that held the origin, and no other. */
  lemma {:induction false} DropLength<T>(t: Origins<T>, o: T, i: nat)
    requires i <= |t.slots|
    ensures var shrinks := i < |t.slots| && t.slots[|t.slots| - 1] == Some(o);
            |DropFrom(t, o, i).slots| == if shrinks then |t.slots| - 1 else |t.slots|
    decreases |t.slots| - i
  {
    if i == |t.slots| {
    } else if t.slots[i] != Some(o) {
      DropLength(t, o, i + 1);
    } else if i < |t.slots| - 1 {
      DropLength(Origins(t.slots[i := None], t.free + [i]), o, i + 1);
    }
  }

  /** The table is released by a drop exactly when the dropped origin was its only index. */
  lemma ReleasedIff<T>(t: Origins<T>, o: T)
    ensures DropFrom(t, o, 0).slots == [] <==> t.slots == [] || t.slots == [Some(o)]
  {
    DropLength(t, o, 0);
  }

  /** So a table may record nothing and still be kept: drop the first of two origins, then the second. */
  lemma EmptiedTableKept<T>(a: T, b: T)
    requires a != b
    ensures var t := AddOrigin(AddOrigin(EmptyOrigins(), a), b);
            var t' := DropFrom(DropFrom(t, a, 0), b, 0);
            Recorded(t') == {} && t'.slots != []
  {
    var t1 := AddOrigin(EmptyOrigins(), a);
    var t := AddOrigin(t1, b);
    AddRecords(EmptyOrigins(), a);
    AddRecords(t1, b);
    DropForgets(t, a, 0);
    DropForgets(DropFrom(t, a, 0), b, 0);
    assert Recorded<T>(EmptyOrigins()) == {};
    DropLength(t, a, 0);
    ReleasedIff(DropFrom(t, a, 0), b);
  }

  lemma {:induction false} DropNone<T>(t: Origins<T>, o: T, i: nat)
    requires i <= |t.slots| && forall j :: i <= j < |t.slots| ==> t.slots[j] != Some(o)
    ensures DropFrom(t, o, i) == t
    decreases |t.slots| - i
  {
    if i < |t.slots| {
      DropNone(t, o, i + 1);
    }
  }

  /** An origin recorded once, and not last, leaves its index to be reused. */
  lemma {:induction false} DropOnce<T>(t: Origins<T>, o: T, i: nat, k: nat)
    requires i <= k && k + 1 < |t.slots| && forall j :: i <= j < |t.slots| ==> (t.slots[j] == Some(o) <==> j == k)
    ensures DropFrom(t, o, i) == Origins(t.slots[k := None], t.free + [k])
    decreases k - i
  {
    if i < k {
      DropOnce(t, o, i + 1, k);
    } else {
      DropNone(Origins(t.slots[k := None], t.free + [k]), o, k + 1);
    }
  }

  /** Freed indices are reused oldest first: of two origins dropped, the new one takes the place of the
      one dropped first. */
  lemma OldestReused<T>(t: Origins<T>, a: T, b: T, c: T, i: nat, j: nat)
    requires t.free == [] && a != b && i + 1 < |t.slots| && j + 1 < |t.slots|
    requires forall x :: 0 <= x < |t.slots| ==> (t.slots[x] == Some(a) <==> x == i) && (t.slots[x] == Some(b) <==> x == j)
    ensures var dropped := DropFrom(DropFrom(t, a, 0), b, 0);
            && (forall f :: f in dropped.free ==> f < |dropped.slots|)
            && AddOrigin(dropped, c) == Origins(t.slots[i := Some(c)][j := None], [j])
  {
    assert t.slots[i] == Some(a) && t.slots[j] == Some(b);
    DropOnce(t, a, 0, i);
    DropOnce(DropFrom(t, a, 0), b, 0, j);
    assert t.slots[i := None][j := None][i := Some(c)] == t.slots[i := Some(c)][j := None];
  }

  /** Distinct indices below `n` are at most `n`. */
  lemma {:induction false} DistinctBelow(s: seq<nat>, n: nat)
    requires Distinct(s) && forall x :: x in s ==> x < n
    ensures |s| <= n
  {
    if n == 0 {
      assert forall i :: 0 <= i < |s| ==> s[i] in s;
    } else if n - 1 in s {
      var k :| 0 <= k < |s| && s[k] == n - 1;
      var s' := s[..k] + s[k + 1..];
      forall x | x in s'
        ensures x < n - 1
      {
        var j :| 0 <= j < |s'| && s'[j] == x;
        var j' := if j < k then j else j + 1;
        assert x == s[j'] && s[j'] in s && j' != k;
      }
      DistinctBelow(s', n - 1);
    } else {
      DistinctBelow(s, n - 1);
    }
  }

  const DEFAULT_SIZE := 16

  /** Indices and the array's size are C ints. */
  const INT_LIMIT := 0x7FFF_FFFF

  class Table<T(==)> {
    var origins: array<Option<T>>
    var oIndex: nat
    var oSize: nat
    const emptyOrigins: RQ.RingQueue<nat>

    ghost predicate Valid()
      reads this, origins, emptyOrigins, emptyOrigins.elems
    {
      && origins.Length == oSize && oIndex < oSize
      && origins as object != emptyOrigins.elems
      && emptyOrigins.Valid() && !emptyOrigins.oom
      && FreeOk(View())
    }

    ghost function View(): Origins<T>
      requires origins.Length == oSize && oIndex <= oSize && emptyOrigins.Valid()
      reads this, origins, emptyOrigins, emptyOrigins.elems
    {
      Origins(origins[..oIndex], emptyOrigins.Contents())
    }

    constructor ()
      ensures Valid() && View() == EmptyOrigins()
      ensures fresh(origins) && fresh(emptyOrigins) && fresh(emptyOrigins.elems)
    {
      oIndex := 0;
      oSize := DEFAULT_SIZE;
      origins := new Option<T>[DEFAULT_SIZE](_ => None);
      emptyOrigins := new RQ.RingQueue<nat>(0);
    }

    /** The increment callback's part: take an index, growing the array when it is the last one. */
    method Add(o: T)
      requires Valid() && oSize + DEFAULT_SIZE <= INT_LIMIT
      modifies this, origins, emptyOrigins, emptyOrigins.elems
      ensures Valid() && View() == AddOrigin(old(View()), o)
      ensures origins == old(origins) || fresh(origins)
      ensures emptyOrigins.elems == old(emptyOrigins.elems)
    {
      hide RQ.Window, FreeOk;
      ghost var was := View();
      AddRecords(was, o);
      FreeInRange(was);
      var n := emptyOrigins.Size();
      var index;
      if n == 0 {
        index := oIndex;
        oIndex := oIndex + 1;
      } else {
        index := emptyOrigins.DelFirst();
        assert was.free == [index] + emptyOrigins.Contents();
        assert was.free[0] == index && was.free[0] in was.free;
      }
      if index == oSize - 1 {
        Grow();
      }
      origins[index] := Some(o);
      assert View() == AddOrigin(was, o);
    }

    /** realloc of the origins array by another block. */
    method Grow()
      requires origins.Length == oSize
      modifies this`origins, this`oSize
      ensures fresh(origins) && origins.Length == oSize == old(oSize) + DEFAULT_SIZE
      ensures origins[..old(oSize)] == old(origins[..])
    {
      var bigger := new Option<T>[oSize + DEFAULT_SIZE](_ => None);
      forall i | 0 <= i < oSize {
        bigger[i] := origins[i];
      }
      oSize := oSize + DEFAULT_SIZE;
      origins := bigger;
    }

    /** The decrement callback's loop. When it returns with `oIndex == 0` the table is released. */
    method Drop(o: T)
      requires Valid() && oSize <= INT_LIMIT
      modifies this, origins, emptyOrigins, emptyOrigins.elems
      ensures Valid() && View() == DropFrom(old(View()), o, 0)
      ensures origins == old(origins)
      ensures emptyOrigins.elems == old(emptyOrigins.elems) || fresh(emptyOrigins.elems)
    {
      hide RQ.Window, FreeOk;
      ghost var was := View();
      var i := 0;
      while i < oIndex
        invariant Valid() && oSize <= INT_LIMIT
        invariant origins == old(origins)
        invariant emptyOrigins.elems == old(emptyOrigins.elems) || fresh(emptyOrigins.elems)
        invariant i <= oIndex
        invariant DropFrom(View(), o, i) == DropFrom(was, o, 0)
        decreases oIndex - i
      {
        ghost var t := View();
        if origins[i] == Some(o) {
          origins[i] := None;
          if i == oIndex - 1 {
            oIndex := oIndex - 1;
            TruncateKeepsFree(t, i);
            assert View() == Origins(t.slots[..i], t.free);
            return;
          } else {
            FreeInRange(t);
            emptyOrigins.AddLast(i, true);
            NullOne(t, o, i);
            assert View() == Origins(t.slots[i := None], t.free + [i]);
          }
        }
        i := i + 1;
      }
    }
  }

  lemma FreeInRange<T>(t: Origins<T>)
    requires FreeOk(t)
    ensures forall f :: f in t.free ==> f < |t.slots| && t.slots[f] == None
    ensures |t.free| <= |t.slots|
  {
    DistinctBelow(t.free, |t.slots|);
  }

  lemma TruncateKeepsFree<T>(t: Origins<T>, i: nat)
    requires FreeOk(t) && i == |t.slots| - 1 && t.slots[i].Some?
    ensures FreeOk(Origins(t.slots[..i], t.free))
  {
  }
}
