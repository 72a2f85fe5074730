/** The growing ring queue behind the `sc_queue_*` macros. */
module RingQueue {
  import opened Bits

  /** SC_QUEUE_MAX: the largest `size_t`. */
  const QUEUE_MAX := SIZE_RANGE - 1
  const INITIAL_CAP := 8

  /** The elements from slot `first` up to slot `last` around a ring. */
  ghost function Window<T>(buf: seq<T>, first: nat, last: nat): (s: seq<T>)
    requires first < |buf| && last < |buf|
    ensures |s| == Dist(first, last, |buf|)
  {
    seq(Dist(first, last, |buf|), i requires 0 <= i < Dist(first, last, |buf|) => buf[At(first, i, |buf|)])
  }

  lemma WindowEmpty<T>(buf: seq<T>, first: nat, last: nat)
    requires first < |buf| && last < |buf|
    ensures Window(buf, first, last) == [] <==> first == last
  {
  }

  lemma WindowAppend<T>(buf: seq<T>, first: nat, last: nat, x: T)
    requires first < |buf| && last < |buf| && Next(last, |buf|) != first
    ensures Window(buf[last := x], first, Next(last, |buf|)) == Window(buf, first, last) + [x]
  {
  }

  lemma WindowPrepend<T>(buf: seq<T>, first: nat, last: nat, x: T)
    requires first < |buf| && last < |buf| && Next(last, |buf|) != first
    ensures Window(buf[Previous(first, |buf|) := x], Previous(first, |buf|), last) == [x] + Window(buf, first, last)
  {
  }

  lemma WindowDropFirst<T>(buf: seq<T>, first: nat, last: nat)
    requires first < |buf| && last < |buf| && first != last
    ensures [buf[first]] + Window(buf, Next(first, |buf|), last) == Window(buf, first, last)
  {
  }

  lemma WindowDropLast<T>(buf: seq<T>, first: nat, last: nat)
    requires first < |buf| && last < |buf| && first != last
    ensures var p := Previous(last, |buf|);
            Window(buf, first, p) + [buf[p]] == Window(buf, first, last)
  {
  }

  /** Copying the two parts of a full ring into a larger buffer straightens it out. */
  lemma WindowUnroll<T>(buf: seq<T>, first: nat, last: nat, dst: seq<T>)
    requires first < |buf| && last < |buf| && Next(last, |buf|) == first && |buf| < |dst|
    requires forall i :: 0 <= i < |buf| - first ==> dst[i] == buf[first + i]
    requires forall i :: 0 <= i < first ==> dst[|buf| - first + i] == buf[i]
    ensures Window(dst, 0, |buf| - 1) == Window(buf, first, last)
  {
    forall i | 0 <= i < |buf| - 1
      ensures Window(dst, 0, |buf| - 1)[i] == Window(buf, first, last)[i]
    {
      if first + i < |buf| {
        assert dst[i] == buf[first + i];
      } else {
        assert dst[|buf| - first + (first + i - |buf|)] == buf[first + i - |buf|];
      }
    }
  }

  /** The slot before `i` around a ring of `n` slots. */
  function Previous(i: nat, n: nat): (j: nat)
    requires i < n
    ensures j < n && Next(j, n) == i
  {
    if i == 0 then n - 1 else i - 1
  }

  class RingQueue<T> {
    var oom: bool
    var cap: nat
    var first: nat
    var last: nat
    var elems: array<T>
    const zero: T

    ghost predicate Valid()
      reads this
    {
      && IsPow2(cap) && 2 <= cap <= SIZE_RANGE
      && elems.Length == cap
      && first < cap && last < cap
    }

    /** The queued elements, front first. One slot of the ring always stays unused. */
    ghost function Contents(): (s: seq<T>)
      requires Valid()
      reads this, elems
      ensures |s| == Dist(first, last, cap) < cap
    {
      Window(elems[..], first, last)
    }

    ghost predicate Full()
      requires Valid()
      reads this, elems
    {
      |Contents()| == cap - 1
    }

    constructor (zero: T)
      ensures Valid() && Contents() == [] && !oom && cap == 8 && fresh(elems) && this.zero == zero
    {
      this.zero := zero;
      oom, cap, first, last := false, INITIAL_CAP, 0, 0;
      elems := new T[INITIAL_CAP](_ => zero);
      new;
      assert Pow2(3) == 8;
    }

    method Size() returns (n: nat)
      requires Valid()
      ensures n == |Contents()|
    {
      n := Mask(WrapSub(last, first), cap);
      MaskIsDist(first, last, cap);
    }

    method Empty() returns (b: bool)
      requires Valid()
      ensures b <==> Contents() == []
    {
      b := last == first;
    }

    method ElementAt(i: nat) returns (x: T)
      requires Valid() && i < |Contents()|
      ensures x == Contents()[i]
    {
      MaskIsSum(first, i, cap);
      x := elems[Mask(first + i, cap)];
    }

    /** Doubles a full ring, copying its two parts so that the front moves to slot 0.
        `memory` says whether the allocator can provide the new buffer. */
    method Expand(memory: bool)
      requires Valid()
      modifies this
      ensures Valid() && Contents() == old(Contents())
      ensures elems == old(elems) || fresh(elems)
      ensures !old(Full()) ==> oom == old(oom)
      ensures old(Full()) ==> oom == (old(cap) > QUEUE_MAX / 2 || !memory)
      ensures !oom || !old(Full()) ==> !Full()
    {
      hide Window, Mask, IsPow2;
      MaskIsNext(last, cap);
      var pos := Mask(last + 1, cap);
      if pos == first {
        if cap > QUEUE_MAX / 2 || !memory {
          oom := true;
          return;
        }
        var newCap := cap * 2;
        var dst := new T[newCap](_ => zero);
        CopyParts(dst);
        WindowUnroll(elems[..], first, last, dst[..]);
        DoubleIsPow2(cap);
        oom := false;
        last := cap - 1;
        first := 0;
        cap := newCap;
        elems := dst;
      }
    }

    /** The two `memcpy` calls: first the slots from `first` to the end, then those before it. */
    method CopyParts(dst: array<T>)
      requires Valid() && dst.Length >= cap && dst != elems
      modifies dst
      ensures forall i :: 0 <= i < cap - first ==> dst[i] == elems[first + i]
      ensures forall i :: 0 <= i < first ==> dst[cap - first + i] == elems[i]
    {
      var len, off := cap - first, first;
      forall i | 0 <= i < len {
        dst[i] := elems[off + i];
      }
      forall i | 0 <= i < off {
        dst[len + i] := elems[i];
      }
    }

    /** Appends an element unless memory for growing runs out. */
    method AddLast(x: T, memory: bool)
      requires Valid()
      modifies this, elems
      ensures Valid() && (elems == old(elems) || fresh(elems))
      ensures oom == if old(Full()) then old(cap) > QUEUE_MAX / 2 || !memory else old(oom)
      ensures Contents() == if oom then old(Contents()) else old(Contents()) + [x]
    {
      hide Window, Mask, IsPow2;
      Expand(memory);
      if oom {
        return;
      }
      WindowAppend(elems[..], first, last, x);
      ghost var buf := elems[..];
      elems[last] := x;
      assert elems[..] == buf[last := x];
      MaskIsNext(last, cap);
      last := Mask(last + 1, cap);
    }

    /** Prepends an element unless memory for growing runs out. */
    method AddFirst(x: T, memory: bool)
      requires Valid()
      modifies this, elems
      ensures Valid() && (elems == old(elems) || fresh(elems))
      ensures oom == if old(Full()) then old(cap) > QUEUE_MAX / 2 || !memory else old(oom)
      ensures Contents() == if oom then old(Contents()) else [x] + old(Contents())
    {
      hide Window, Mask, IsPow2;
      Expand(memory);
      if oom {
        return;
      }
      WindowPrepend(elems[..], first, last, x);
      ghost var buf := elems[..];
      MaskIsPrevious(first, cap);
      first := Mask(WrapSub(first, 1), cap);
      elems[first] := x;
      assert elems[..] == buf[first := x];
    }

    method DelFirst() returns (x: T)
      requires Valid() && Contents() != []
      modifies this`first
      ensures Valid()
      ensures [x] + Contents() == old(Contents())
    {
      hide Window, Mask, IsPow2;
      WindowEmpty(elems[..], first, last);
      WindowDropFirst(elems[..], first, last);
      x := elems[first];
      MaskIsNext(first, cap);
      first := Mask(first + 1, cap);
    }

    method DelLast() returns (x: T)
      requires Valid() && Contents() != []
      modifies this`last
      ensures Valid()
      ensures Contents() + [x] == old(Contents())
    {
      hide Window, Mask, IsPow2;
      WindowEmpty(elems[..], first, last);
      WindowDropLast(elems[..], first, last);
      MaskIsPrevious(last, cap);
      last := Mask(WrapSub(last, 1), cap);
      x := elems[last];
    }

    method Clear()
      requires Valid()
      modifies this
      ensures Valid() && Contents() == [] && !oom && elems == old(elems)
    {
      first, last, oom := 0, 0, false;
    }
  }

  lemma MaskIsPrevious(i: nat, n: nat)
    requires IsPow2(n) && n <= SIZE_RANGE && 2 <= n && i < n
    ensures Mask(WrapSub(i, 1), n) == Previous(i, n)
  {
    MaskIsDist(1, i, n);
  }

  lemma MaskIsSum(a: nat, d: nat, n: nat)
    requires IsPow2(n) && n <= SIZE_RANGE && a < n && d < n
    ensures Mask(a + d, n) == At(a, d, n)
  {
    MaskIsMod(a + d, n);
    if a + d < n {
      ModUnique(a + d, n, 0, a + d);
    } else {
      ModUnique(a + d, n, 1, a + d - n);
    }
  }

  lemma DoubleIsPow2(n: nat)
    requires IsPow2(n)
    ensures IsPow2(2 * n)
  {
    var k: nat :| n == Pow2(k);
    assert Pow2(k + 1) == 2 * n;
  }

  // ---------- whole runs ----------

  datatype QueueOp<T> = AddLast(x: T) | AddFirst(x: T) | DelFirst | DelLast

  ghost function After<T>(s: seq<T>, ops: seq<QueueOp<T>>): seq<T>
    requires Legal(s, ops)
    decreases |ops|
  {
    if ops == [] then s else After(StepSeq(s, ops[0]), ops[1..])
  }

  /** The operation on a sequence; deleting needs an element. */
  ghost function StepSeq<T>(s: seq<T>, op: QueueOp<T>): seq<T>
    requires Allowed(s, op)
  {
    match op
    case AddLast(x) => s + [x]
    case AddFirst(x) => [x] + s
    case DelFirst => s[1..]
    case DelLast => s[..|s| - 1]
  }

  ghost predicate Allowed<T>(s: seq<T>, op: QueueOp<T>) {
    op.DelFirst? || op.DelLast? ==> s != []
  }

  ghost predicate Legal<T>(s: seq<T>, ops: seq<QueueOp<T>>)
    decreases |ops|
  {
    ops == [] || (Allowed(s, ops[0]) && Legal(StepSeq(s, ops[0]), ops[1..]))
  }

  /** The elements a run deletes, in order. */
  ghost function Deleted<T>(s: seq<T>, ops: seq<QueueOp<T>>): seq<T>
    requires Legal(s, ops)
    decreases |ops|
  {
    if ops == [] then [] else Removed(s, ops[0]) + Deleted(StepSeq(s, ops[0]), ops[1..])
  }

  ghost function Removed<T>(s: seq<T>, op: QueueOp<T>): seq<T>
    requires Allowed(s, op)
  {
    match op
    case DelFirst => [s[0]]
    case DelLast => [s[|s| - 1]]
    case _ => []
  }

  /** An element may be added while the queue is shorter than half the address space. */
  ghost predicate HasRoom<T>(s: seq<T>, op: QueueOp<T>) {
    op.AddLast? || op.AddFirst? ==> |s| < QUEUE_MAX / 2
  }

  /** Every addition finds room; the run may be of any length. */
  ghost predicate AlwaysRoom<T>(s: seq<T>, ops: seq<QueueOp<T>>)
    requires Legal(s, ops)
    decreases |ops|
  {
    ops == [] || (HasRoom(s, ops[0]) && AlwaysRoom(StepSeq(s, ops[0]), ops[1..]))
  }

  method Perform<T>(q: RingQueue<T>, op: QueueOp<T>) returns (deleted: seq<T>)
    requires q.Valid() && !q.oom && Allowed(q.Contents(), op) && HasRoom(q.Contents(), op)
    modifies q, q.elems
    ensures q.Valid() && !q.oom && (q.elems == old(q.elems) || fresh(q.elems))
    ensures q.Contents() == StepSeq(old(q.Contents()), op)
    ensures deleted == Removed(old(q.Contents()), op)
  {
    ghost var s := q.Contents();
    match op {
      case AddLast(x) =>
        q.AddLast(x, true);
        deleted := [];
      case AddFirst(x) =>
        q.AddFirst(x, true);
        deleted := [];
      case DelFirst =>
        var x := q.DelFirst();
        deleted := [x];
        assert s[0] == x && s[1..] == q.Contents();
      case DelLast =>
        var x := q.DelLast();
        deleted := [x];
        assert s[|s| - 1] == x && s[..|s| - 1] == q.Contents();
    }
  }

  /** With memory available every legal run of the ring is the same run on a sequence. */
  method Run<T>(q: RingQueue<T>, ops: seq<QueueOp<T>>) returns (deleted: seq<T>)
    requires q.Valid() && !q.oom && Legal(q.Contents(), ops)
    requires AlwaysRoom(q.Contents(), ops)
    modifies q, q.elems
    ensures q.Valid() && !q.oom
    ensures q.Contents() == After(old(q.Contents()), ops)
    ensures deleted == Deleted(old(q.Contents()), ops)
  {
    hide StepSeq, Removed, Window, HasRoom;
    deleted := [];
    var i := 0;
    while i < |ops|
      invariant 0 <= i <= |ops|
      invariant q.Valid() && !q.oom && (q.elems == old(q.elems) || fresh(q.elems))
      invariant Legal(q.Contents(), ops[i..]) && AlwaysRoom(q.Contents(), ops[i..])
      invariant After(q.Contents(), ops[i..]) == After(old(q.Contents()), ops)
      invariant deleted + Deleted(q.Contents(), ops[i..]) == Deleted(old(q.Contents()), ops)
    {
      assert ops[i..][0] == ops[i] && ops[i..][1..] == ops[i + 1..];
      var d := Perform(q, ops[i]);
      deleted := deleted + d;
      i := i + 1;
    }
  }
}
