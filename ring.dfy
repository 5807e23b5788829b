/** The single-producer single-consumer circular queue of `ipc-queue`: a
    block of `capacity` slots with a write index and a read index. The
    slot after `read` holds the oldest element and `write` the newest, so
    a queue of capacity c holds at most c - 1 elements. Modelled
    sequentially: each index is one field. */
module IpcQueue {
  import opened Types

  /** `isize::MAX` on a 64-bit host. */
  const ISIZE_MAX: nat := 0x7FFF_FFFF_FFFF_FFFF

  /** Index arithmetic modulo `cap` for values below `2 * cap`. */
  lemma ModRange(x: int, cap: nat)
    requires 0 <= x < 2 * cap
    ensures x % cap == if x < cap then x else x - cap
  {
  }

  /** Index arithmetic modulo `cap` for values in `[-cap, 0)`. */
  lemma ModNeg(x: int, cap: nat)
    requires -(cap as int) <= x < 0
    ensures x % cap == x + cap
  {
    var y := x + cap;
    assert 0 <= y < cap;
    assert x == (-1) * cap + y;
  }

  /** Number of queued elements for indices `w` and `r`: their difference
      modulo `cap`. */
  function Count(w: nat, r: nat, cap: nat): (n: nat)
    requires w < cap && r < cap
    ensures n == if w >= r then w - r else w - r + cap
  {
    if w >= r then ModRange(w - r, cap); (w - r) % cap
    else ModNeg(w - r, cap); (w - r) % cap
  }

  /** Slot of the `i`-th queued element. */
  function Slot(r: nat, i: nat, cap: nat): (s: nat)
    requires r < cap && i < cap
    ensures s == if r + 1 + i < cap then r + 1 + i else r + 1 + i - cap
  {
    ModRange(r + 1 + i, cap);
    (r + 1 + i) % cap
  }

  /** The push test `(write + 1) % capacity == read` is the queue being
      full, that is holding `capacity - 1` elements. */
  lemma FullIff(w: nat, r: nat, cap: nat)
    requires w < cap && r < cap
    ensures (w + 1) % cap == r <==> Count(w, r, cap) == cap - 1
  {
    ModRange(w + 1, cap);
  }

  /** Advancing the write index of a queue that is not full adds one
      element in the slot after the last one and moves no other. */
  lemma PushIndices(w: nat, r: nat, cap: nat)
    requires w < cap && r < cap && (w + 1) % cap != r
    ensures Count((w + 1) % cap, r, cap) == Count(w, r, cap) + 1
    ensures Slot(r, Count(w, r, cap), cap) == (w + 1) % cap
    ensures forall i :: 0 <= i < Count(w, r, cap) ==> Slot(r, i, cap) != (w + 1) % cap
  {
    ModRange(w + 1, cap);
  }

  /** Advancing the read index of a non-empty queue drops the oldest
      element and keeps the slots of the others. */
  lemma PopIndices(w: nat, r: nat, cap: nat)
    requires w < cap && r < cap && w != r
    ensures (r + 1) % cap == Slot(r, 0, cap)
    ensures Count(w, (r + 1) % cap, cap) == Count(w, r, cap) - 1
    ensures forall i {:trigger Slot((r + 1) % cap, i, cap)} :: 0 <= i < Count(w, r, cap) - 1 ==>
      Slot((r + 1) % cap, i, cap) == Slot(r, i + 1, cap)
  {
    ModRange(r + 1, cap);
  }

  class RingBuf<T> {
    const capacity: nat
    const base: array<T>
    var write: nat
    var read: nat
    /** The queued elements, oldest first. */
    ghost var contents: seq<T>

    ghost predicate Valid()
      reads this, base
    {
      base.Length == capacity &&
      (capacity == 0 ==> write == 0 && read == 0 && contents == []) &&
      (capacity > 0 ==>
        write < capacity && read < capacity && |contents| == Count(write, read, capacity) &&
        forall i :: 0 <= i < |contents| ==> contents[i] == base[Slot(read, i, capacity)])
    }

    /** `RingBuf::new`: both indices 0, so the queue starts empty. The
        slots are the `cap` elements of `bs`. */
    constructor (bs: array<T>, cap: nat)
      requires bs.Length == cap && cap <= ISIZE_MAX
      ensures Valid()
      ensures capacity == cap && base == bs && write == 0 && read == 0 && contents == []
    {
      capacity := cap;
      base := bs;
      write := 0;
      read := 0;
      contents := [];
    }

    /** `pointers`: both indices truncated to a byte, write first. */
    function Pointers(): (p: seq<byte>)
      reads this
      ensures |p| == 2
    {
      [write % 0x100, read % 0x100]
    }

    /** `push`: rejected with "Buf full", changing nothing, when advancing
        the write index would reach the read index; otherwise the write
        index advances and the element goes into its new slot. */
    method Push(elem: T) returns (r: Result<(), string>)
      requires Valid() && capacity > 0
      modifies this`write, this`contents, base
      ensures Valid()
      ensures r.Err? <==> (old(write) + 1) % capacity == read
      ensures r.Err? <==> |old(contents)| == capacity - 1
      ensures r.Err? ==> (r.error == "Buf full" && write == old(write) &&
        contents == old(contents) && base[..] == old(base[..]))
      ensures r.Ok? ==> (write == (old(write) + 1) % capacity && base[write] == elem &&
        contents == old(contents) + [elem])
      ensures read == old(read)
    {
      FullIff(write, read, capacity);
      var curInd := (write + 1) % capacity;
      if curInd == read {
        return Err("Buf full");
      }
      PushIndices(write, read, capacity);
      write := curInd;
      base[curInd] := elem;
      contents := contents + [elem];
      r := Ok(());
    }

    /** `pop`: nothing, changing nothing, when the indices are equal;
        otherwise the read index advances and the element in its new slot
        is returned. */
    method Pop() returns (r: Option<T>)
      requires Valid()
      modifies this`read, this`contents
      ensures Valid()
      ensures r.None? <==> old(read) == write
      ensures r.None? <==> old(contents) == []
      ensures r.None? ==> read == old(read) && contents == old(contents)
      ensures r.Some? ==> (read == (old(read) + 1) % capacity && r.value == base[read] &&
        r.value == old(contents)[0] && contents == old(contents)[1..])
      ensures write == old(write)
    {
      var curInd := read;
      if curInd == write {
        return None;
      }
      PopIndices(write, read, capacity);
      curInd := (curInd + 1) % capacity;
      read := curInd;
      r := Some(base[curInd]);
      contents := contents[1..];
    }
  }

  /** A queue never holds more than `capacity - 1` elements. */
  lemma CountBound<T>(q: RingBuf<T>)
    requires q.Valid() && q.capacity > 0
    ensures |q.contents| <= q.capacity - 1
  {
  }

  /** For a capacity of at most 256 the two bytes `pointers` reports still
      determine the number of queued elements. */
  lemma PointersDetermineCount<T>(q: RingBuf<T>)
    requires q.Valid() && 0 < q.capacity <= 0x100
    ensures (q.Pointers()[0] - q.Pointers()[1]) % q.capacity == |q.contents|
  {
  }

  /** With any larger capacity two queues that report the same bytes can
      hold different numbers of elements: 256 pushes onto an empty queue
      move its write index to 256, which reads as 0, like the write index
      of a queue left empty. */
  method PointersLossy<T>(cap: nat, x: T) returns (p: RingBuf<T>, q: RingBuf<T>)
    requires 0x100 < cap <= ISIZE_MAX
    ensures p.Valid() && q.Valid() && p.capacity == cap && q.capacity == cap
    ensures p.Pointers() == q.Pointers()
    ensures |p.contents| == 0x100 && q.contents == []
  {
    var bp := new T[cap](_ => x);
    var bq := new T[cap](_ => x);
    p := new RingBuf<T>(bp, cap);
    q := new RingBuf<T>(bq, cap);
    var i := 0;
    while i < 0x100
      invariant 0 <= i <= 0x100
      invariant p.Valid() && p.capacity == cap && p.base == bp
      invariant p.write == i && p.read == 0 && |p.contents| == i
      invariant q.Valid() && q.capacity == cap && q.base == bq
      invariant q.write == 0 && q.read == 0 && q.contents == []
    {
      ModRange(i + 1, cap);
      var r := p.Push(x);
      i := i + 1;
    }
  }

  /** FIFO order: pushing `x` then `y` onto an empty queue of capacity 3
      and popping twice yields `x` then `y`. */
  method FifoExample<T>(bs: array<T>, x: T, y: T) returns (a: Option<T>, b: Option<T>)
    requires bs.Length == 3
    modifies bs
    ensures a == Some(x) && b == Some(y)
  {
    var q := new RingBuf<T>(bs, 3);
    var r1 := q.Push(x);
    var r2 := q.Push(y);
    a := q.Pop();
    b := q.Pop();
  }
}
