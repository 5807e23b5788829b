/** The packet buffer (`rte_mbuf`) as the engine's `Mbuf` wrapper sees it:
    a buffer of `buf_len` bytes whose data region starts at `data_off` and
    holds `data_len` bytes, plus the packet length `pkt_len`; and the pool
    buffers come from. Data-region editing (extend, shrink, resize,
    truncate), bounds-checked access and construction from bytes. */
module MbufApi {
  import opened Types
  import opened Apis

  /** `RTE_PKTMBUF_HEADROOM`: bytes kept free in front of the data region
      of a freshly allocated buffer. */
  const RTE_PKTMBUF_HEADROOM: nat := 128

  function Min(a: nat, b: nat): nat { if a <= b then a else b }

  /** The types `SizeOf` is implemented for. */
  datatype SizedType = Unit | U8 | U8Pair | U8x16 | Ipv6Addr

  /** `SizeOf::size_of`: `std::mem::size_of` of each type. */
  function SizeOf(t: SizedType): (r: nat)
    ensures r <= 16
    ensures (r == 0) == t.Unit?
    ensures t.U8? ==> r == 1
    ensures t.U8Pair? ==> r == 2
    ensures t.U8x16? || t.Ipv6Addr? ==> r == 16
  {
    match t
    case Unit => 0
    case U8 => 1
    case U8Pair => 2
    case U8x16 => 16
    case Ipv6Addr => 16
  }

  /** `ptr::copy` of `n` bytes from index `src` to index `dst`: the regions may
      overlap, and the result is as if the source bytes were first copied
      aside. */
  function Memmove(s: seq<byte>, src: nat, dst: nat, n: nat): (r: seq<byte>)
    requires src + n <= |s| && dst + n <= |s|
    ensures |r| == |s|
  {
    s[..dst] + s[src..src + n] + s[dst + n..]
  }

  /** Index `dst + k` of the result holds byte `src + k` of the input for
      each `k < n`; every other byte is unchanged. */
  lemma MemmoveMoves(s: seq<byte>, src: nat, dst: nat, n: nat)
    requires src + n <= |s| && dst + n <= |s|
    ensures forall i :: dst <= i < dst + n ==> Memmove(s, src, dst, n)[i] == s[src + (i - dst)]
    ensures forall i :: 0 <= i < |s| && !(dst <= i < dst + n) ==> Memmove(s, src, dst, n)[i] == s[i]
  {
  }

  method PtrCopy(a: array<byte>, src: nat, dst: nat, n: nat)
    requires src + n <= a.Length && dst + n <= a.Length
    modifies a
    ensures a[..] == Memmove(old(a[..]), src, dst, n)
  {
    forall i | dst <= i < dst + n {
      a[i] := a[src + (i - dst)];
    }
    MemmoveMoves(old(a[..]), src, dst, n);
  }

  /** `usize` subtraction as a release build computes it (wrapping). */
  function UsizeSub(a: nat, b: nat): (r: nat)
    requires a < USIZE_MODULUS && b < USIZE_MODULUS
    ensures r < USIZE_MODULUS
    ensures b <= a ==> r == a - b
    ensures a < b ==> r == USIZE_MODULUS + a - b
  {
    (a - b) % USIZE_MODULUS
  }

  /** `usize` addition as a release build computes it (wrapping). */
  function UsizeAdd(a: usize, b: usize): (r: usize)
    ensures a + b < USIZE_MODULUS ==> r == a + b
    ensures a + b >= USIZE_MODULUS ==> r == a + b - USIZE_MODULUS
  {
    (a + b) % USIZE_MODULUS
  }

  /** `usize` multiplication as a release build computes it (wrapping). */
  function UsizeMul(a: usize, b: usize): (r: usize)
    ensures a * b < USIZE_MODULUS ==> r == a * b
    ensures a * b >= USIZE_MODULUS ==> r < a * b
  {
    (a * b) % USIZE_MODULUS
  }

  /** Opening a gap of `len` bytes at `offset` of the region
      `s[off..off + dl]` keeps what lies before the gap and moves the rest
      past it. */
  lemma MemmoveOpensGap(s: seq<byte>, t: seq<byte>, off: nat, dl: nat, offset: nat, len: nat)
    requires offset <= dl && off + dl + len <= |s|
    requires t == Memmove(s, off + offset, off + offset + len, dl - offset)
    ensures t[off..off + dl + len] ==
      s[off..off + dl][..offset] + t[off..off + dl + len][offset..offset + len] + s[off..off + dl][offset..]
  {
    MemmoveMoves(s, off + offset, off + offset + len, dl - offset);
    var d := s[off..off + dl];
    var u := t[off..off + dl + len];
    var v := d[..offset] + u[offset..offset + len] + d[offset..];
    assert forall i :: 0 <= i < dl + len ==> u[i] == v[i];
  }

  /** Closing `len` bytes at `offset` of the region `s[off..off + dl]`
      leaves the bytes on either side of them, joined. */
  lemma MemmoveClosesGap(s: seq<byte>, off: nat, dl: nat, offset: nat, len: nat)
    requires offset + len <= dl && off + dl <= |s|
    ensures var t := Memmove(s, off + offset + len, off + offset, dl - offset - len);
      t[off..off + dl - len] == s[off..off + dl][..offset] + s[off..off + dl][offset + len..]
  {
    var t := Memmove(s, off + offset + len, off + offset, dl - offset - len);
    var d := s[off..off + dl];
    var u := t[off..off + dl - len];
    var v := d[..offset] + d[offset + len..];
    assert forall i :: 0 <= i < dl - len ==> u[i] == v[i];
  }

  /** A `ptr::copy` of no bytes changes nothing. */
  lemma MemmoveEmpty(s: seq<byte>, src: nat, dst: nat)
    requires src <= |s| && dst <= |s|
    ensures Memmove(s, src, dst, 0) == s
  {
    assert s[..dst] + s[dst..] == s;
  }

  /** A view of `count` elements starting at buffer index `addr`. */
  datatype SliceView = SliceView(addr: nat, count: nat)

  datatype FromBytesError = Memory(memError: MemoryError) | Buf(bufError: BufError)

  /** `read_data_slice`'s bounds test as written: the offset is counted on
      both sides of the comparison, and the left-hand sum is a `usize` that
      wraps in a release build. */
  function ReadSliceCheck(offset: usize, bytes: usize, dataLen: nat): (r: Result<(), BufError>)
    ensures offset + bytes < USIZE_MODULUS ==>
      (r.Ok? <==> offset < dataLen && 2 * offset + bytes <= dataLen)
    ensures offset + bytes >= USIZE_MODULUS ==>
      (r.Ok? <==> offset < dataLen && 2 * offset + bytes <= dataLen + USIZE_MODULUS)
    ensures offset >= dataLen ==> r == Err(BadOffset(offset, dataLen))
    ensures offset < dataLen && r.Err? ==> r == Err(OutOfBuffer(bytes, dataLen - offset))
  {
    if offset >= dataLen then Err(BadOffset(offset, dataLen))
    else if UsizeAdd(offset, bytes) > dataLen - offset then Err(OutOfBuffer(bytes, dataLen - offset))
    else Ok(())
  }

  /** The test `read_data` applies, and evidently meant here too: the view
      must start inside the data region and end within it. */
  function ReadSliceCheckIntended(offset: nat, bytes: nat, dataLen: nat): (r: Result<(), BufError>)
    ensures r.Ok? <==> offset < dataLen && offset + bytes <= dataLen
  {
    if offset >= dataLen then Err(BadOffset(offset, dataLen))
    else if offset + bytes > dataLen then Err(OutOfBuffer(bytes, dataLen - offset))
    else Ok(())
  }

  /** A 4-byte read at offset 4 of a 10-byte region lies inside the region,
      yet the test as written rejects it. */
  lemma ReadSliceCheckRejectsInBounds()
    ensures ReadSliceCheck(4, 4, 10) == Err(OutOfBuffer(4, 6))
    ensures ReadSliceCheckIntended(4, 4, 10) == Ok(())
  {
  }

  /** The sum wraps too: a byte count of 2^64 - 1 at offset 1 of a 10-byte
      region passes the test as written. */
  lemma ReadSliceCheckAcceptsWrapped()
    ensures ReadSliceCheck(1, USIZE_MODULUS - 1, 10) == Ok(())
    ensures ReadSliceCheckIntended(1, USIZE_MODULUS - 1, 10).Err?
  {
  }

  /** Short of a wrapped sum, the test as written accepts only what the
      intended one accepts, and the two agree at offset 0. */
  lemma ReadSliceChecksAgree(offset: usize, bytes: usize, dataLen: nat)
    ensures offset + bytes < USIZE_MODULUS && ReadSliceCheck(offset, bytes, dataLen).Ok? ==>
      ReadSliceCheckIntended(offset, bytes, dataLen).Ok?
    ensures offset == 0 ==> ReadSliceCheck(offset, bytes, dataLen) == ReadSliceCheckIntended(offset, bytes, dataLen)
  {
  }

  /** A pool of packet buffers. Its internals are DPDK's; the model keeps the
      number of buffers still available and the size of each buffer. */
  class Mempool {
    var avail: nat
    const bufLen: u16

    constructor (count: nat, bufLen: u16)
      ensures avail == count && this.bufLen == bufLen
    {
      avail := count;
      this.bufLen := bufLen;
    }

    /** Room after the headroom of a freshly allocated buffer. */
    function DataRoom(): nat
    {
      bufLen - Min(RTE_PKTMBUF_HEADROOM, bufLen)
    }

    /** `rte_pktmbuf_alloc`: fails when the pool is exhausted; otherwise a
        fresh buffer with an empty data region after the headroom. */
    method Alloc() returns (m: Mbuf?)
      modifies this
      ensures (m == null) == (old(avail) == 0)
      ensures m == null ==> avail == old(avail)
      ensures m != null ==> avail == old(avail) - 1 && fresh(m) && fresh(m.buf) && m.Valid()
      ensures m != null ==> (m.pool == this && m.buf.Length == bufLen &&
        m.dataOff == Min(RTE_PKTMBUF_HEADROOM, bufLen) && m.dataLen == 0 && m.pktLen == 0)
      ensures m != null ==> m.Tailroom() == DataRoom()
    {
      if avail == 0 {
        return null;
      }
      m := new Mbuf(this);
      avail := avail - 1;
    }

    /** `rte_pktmbuf_free` of a buffer of this pool. */
    method Free(m: Mbuf)
      requires m.pool == this
      modifies this
      ensures avail == old(avail) + 1
    {
      avail := avail + 1;
    }
  }

  function PoolOf(m: Mbuf): Mempool
  {
    m.pool
  }

  class Mbuf {
    var buf: array<byte>
    var dataOff: nat
    var dataLen: nat
    var pktLen: nat
    const pool: Mempool

    /** `buf_len`, `data_off` and `data_len` are 16-bit fields, `pkt_len` a
        32-bit one, and the data region lies inside the buffer. */
    ghost predicate Valid()
      reads this
    {
      dataOff + dataLen <= buf.Length < 0x1_0000 && pktLen < U32_MODULUS
    }

    constructor (pool: Mempool)
      ensures this.pool == pool && fresh(buf) && buf.Length == pool.bufLen
      ensures dataOff == Min(RTE_PKTMBUF_HEADROOM, pool.bufLen) && dataLen == 0 && pktLen == 0
      ensures Valid()
    {
      this.pool := pool;
      buf := new byte[pool.bufLen];
      dataOff := Min(RTE_PKTMBUF_HEADROOM, pool.bufLen);
      dataLen := 0;
      pktLen := 0;
    }

    /** The bytes of the data region. */
    function Data(): (d: seq<byte>)
      reads this, buf
      requires Valid()
      ensures |d| == dataLen
    {
      buf[..][dataOff..dataOff + dataLen]
    }

    /** `tailroom`: the bytes of the buffer after the data region. */
    function Tailroom(): (r: nat)
      reads this
      requires Valid()
      ensures dataOff + dataLen + r == buf.Length
    {
      buf.Length - dataOff - dataLen
    }

    predicate ExtendRejects(offset: nat, len: nat)
      reads this
      requires Valid()
    {
      len == 0 || offset > dataLen || len > Tailroom()
    }

    /** `extend`: opens a gap of `len` bytes at `offset` of the data region,
        moving the bytes from `offset` on towards the tail. */
    method Extend(offset: nat, len: nat) returns (r: Result<(), BufError>)
      requires Valid()
      modifies this`dataLen, this`pktLen, buf
      ensures Valid()
      ensures r.Err? <==> old(ExtendRejects(offset, len))
      ensures r.Err? ==> (r.error == NotResized && dataLen == old(dataLen) &&
        pktLen == old(pktLen) && buf[..] == old(buf[..]))
      ensures r.Ok? ==> dataLen == old(dataLen) + len && pktLen == (old(pktLen) + len) % U32_MODULUS
      ensures r.Ok? ==>
        buf[..] == Memmove(old(buf[..]), dataOff + offset, dataOff + offset + len, old(dataLen) - offset)
    {
      if len == 0 || offset > dataLen || len > Tailroom() {
        return Err(NotResized);
      }
      ghost var s := buf[..];
      var toCopy := dataLen - offset;
      if toCopy > 0 {
        PtrCopy(buf, dataOff + offset, dataOff + offset + len, toCopy);
      } else {
        MemmoveEmpty(s, dataOff + offset, dataOff + offset + len);
      }
      dataLen := dataLen + len;
      pktLen := (pktLen + len) % U32_MODULUS;
      r := Ok(());
    }

    /** `shrink`: removes `len` bytes at `offset` of the data region, moving
        the later bytes towards the head. */
    method Shrink(offset: nat, len: nat) returns (r: Result<(), BufError>)
      requires Valid() && offset + len < USIZE_MODULUS
      modifies this`dataLen, this`pktLen, buf
      ensures Valid()
      ensures r.Err? <==> (len == 0 || offset + len > old(dataLen))
      ensures r.Err? ==> (r.error == NotResized && dataLen == old(dataLen) &&
        pktLen == old(pktLen) && buf[..] == old(buf[..]))
      ensures r.Ok? ==> dataLen == old(dataLen) - len && pktLen == (old(pktLen) - len) % U32_MODULUS
      ensures r.Ok? ==>
        buf[..] == Memmove(old(buf[..]), dataOff + offset + len, dataOff + offset, old(dataLen) - offset - len)
    {
      if len == 0 || offset + len > dataLen {
        return Err(NotResized);
      }
      ghost var s := buf[..];
      var toCopy := dataLen - offset - len;
      if toCopy > 0 {
        PtrCopy(buf, dataOff + offset + len, dataOff + offset, toCopy);
      } else {
        MemmoveEmpty(s, dataOff + offset + len, dataOff + offset);
      }
      dataLen := dataLen - len;
      pktLen := (pktLen - len) % U32_MODULUS;
      r := Ok(());
    }

    /** `resize`: a negative `len` shrinks, any other extends; so a zero
        `len` is always rejected. */
    method Resize(offset: nat, len: int) returns (r: Result<(), BufError>)
      requires Valid() && (len < 0 ==> offset - len < USIZE_MODULUS)
      modifies this`dataLen, this`pktLen, buf
      ensures Valid()
      ensures len < 0 ==> (r.Err? <==> offset - len > old(dataLen))
      ensures len >= 0 ==> (r.Err? <==> old(ExtendRejects(offset, len)))
      ensures len == 0 ==> r.Err?
      ensures r.Err? ==> (r.error == NotResized && dataLen == old(dataLen) &&
        pktLen == old(pktLen) && buf[..] == old(buf[..]))
      ensures r.Ok? ==> dataLen == old(dataLen) + len && pktLen == (old(pktLen) + len) % U32_MODULUS
      ensures r.Ok? && len < 0 ==>
        buf[..] == Memmove(old(buf[..]), dataOff + offset - len, dataOff + offset, old(dataLen) - offset + len)
      ensures r.Ok? && len > 0 ==>
        buf[..] == Memmove(old(buf[..]), dataOff + offset, dataOff + offset + len, old(dataLen) - offset)
    {
      if len >= 0 {
        r := Extend(offset, len);
      } else {
        var n: nat := -len;
        r := Shrink(offset, n);
        assert offset + n == offset - len && dataOff + offset + n == dataOff + offset - len;
        assert old(dataLen) - offset - n == old(dataLen) - offset + len;
      }
    }

    /** `truncate`: keeps the first `toLen` bytes; moves nothing. */
    method Truncate(toLen: nat) returns (r: Result<(), BufError>)
      requires Valid()
      modifies this`dataLen, this`pktLen
      ensures Valid()
      ensures r.Err? <==> toLen >= old(dataLen)
      ensures r.Err? ==> r.error == NotResized && dataLen == old(dataLen) && pktLen == old(pktLen)
      ensures r.Ok? ==> dataLen == toLen && pktLen == toLen && Data() == old(Data())[..toLen]
    {
      if toLen >= dataLen {
        return Err(NotResized);
      }
      dataLen := toLen;
      pktLen := toLen;
      r := Ok(());
    }

    /** `read_data::<T>`: the index in `buf` where a `T` at `offset` of the
        data region starts, provided the whole `T` lies in the region. */
    function ReadData(offset: nat, t: SizedType): (r: Result<nat, BufError>)
      reads this
      requires Valid()
      ensures r.Ok? <==> offset < dataLen && offset + SizeOf(t) <= dataLen
      ensures r.Ok? ==> r.value == dataOff + offset && r.value + SizeOf(t) <= dataOff + dataLen
      ensures offset >= dataLen ==> r == Err(BadOffset(offset, dataLen))
      ensures offset < dataLen && offset + SizeOf(t) > dataLen ==>
        r == Err(OutOfBuffer(SizeOf(t), dataLen - offset))
    {
      if offset >= dataLen then Err(BadOffset(offset, dataLen))
      else if offset + SizeOf(t) > dataLen then Err(OutOfBuffer(SizeOf(t), dataLen - offset))
      else Ok(dataOff + offset)
    }

    /** `read_data_slice::<T>`: a view of `count` elements at `offset`,
        guarded by the test as written on the wrapping `usize` byte count. */
    function ReadDataSlice(offset: usize, count: usize, t: SizedType): (r: Result<SliceView, BufError>)
      reads this
      requires Valid()
      ensures r.Ok? <==> ReadSliceCheck(offset, UsizeMul(SizeOf(t), count), dataLen).Ok?
      ensures offset + SizeOf(t) * count < USIZE_MODULUS ==>
        (r.Ok? <==> offset < dataLen && 2 * offset + SizeOf(t) * count <= dataLen)
      ensures r.Ok? ==> r.value == SliceView(dataOff + offset, count)
      ensures r.Ok? && offset + SizeOf(t) * count < USIZE_MODULUS ==>
        r.value.addr + SizeOf(t) * count <= dataOff + dataLen
      ensures r.Err? ==> r.error == ReadSliceCheck(offset, UsizeMul(SizeOf(t), count), dataLen).error
    {
      match ReadSliceCheck(offset, UsizeMul(SizeOf(t), count), dataLen)
      case Err(e) => Err(e)
      case Ok(_) => Ok(SliceView(dataOff + offset, count))
    }

    /** The byte count wraps: 2^63 two-byte elements make 0 bytes, so a view
        of 2^64 bytes passes the test on any non-empty region. */
    lemma ReadDataSliceWraps()
      requires Valid() && dataLen > 0
      ensures ReadDataSlice(0, 0x8000_0000_0000_0000, U8Pair) == Ok(SliceView(dataOff, 0x8000_0000_0000_0000))
    {
      assert UsizeMul(SizeOf(U8Pair), 0x8000_0000_0000_0000) == 0;
    }

    /** `write_data_slice::<u8>`: copies `slice` to `offset` of the data
        region when it fits, then answers with `read_data_slice`, which can
        still fail for a positive offset after the bytes were written. */
    method WriteDataSlice(offset: usize, slice: seq<byte>) returns (r: Result<SliceView, BufError>)
      requires Valid() && offset + |slice| < USIZE_MODULUS
      modifies buf
      ensures Valid()
      ensures offset + |slice| > dataLen ==>
        (r == Err(OutOfBuffer(|slice|, UsizeSub(dataLen, offset))) && buf[..] == old(buf[..]))
      ensures offset + |slice| <= dataLen ==>
        Data() == old(Data())[..offset] + slice + old(Data())[offset + |slice|..]
      ensures offset + |slice| <= dataLen ==>
        buf[..] == old(buf[..])[..dataOff + offset] + slice + old(buf[..])[dataOff + offset + |slice|..]
      ensures offset + |slice| <= dataLen ==> r == ReadDataSlice(offset, |slice|, U8)
    {
      if offset + |slice| > dataLen {
        return Err(OutOfBuffer(|slice|, UsizeSub(dataLen, offset)));
      }
      WriteBytes(buf, dataOff + offset, slice);
      r := ReadDataSlice(offset, |slice|, U8);
    }

    /** `from_bytes`: a fresh buffer from `mp`, extended by `|data|` at
        offset 0 and filled with `data`. An empty `data` is rejected by
        `extend`; a buffer obtained before a failure goes back to the pool
        when it is dropped. */
    static method FromBytes(data: seq<byte>, mp: Mempool) returns (r: Result<Mbuf, FromBytesError>)
      modifies mp
      ensures r.Ok? <==> old(mp.avail) > 0 && 0 < |data| <= mp.DataRoom()
      ensures old(mp.avail) == 0 ==> r == Err(Memory(NoBuf))
      ensures old(mp.avail) > 0 && !(0 < |data| <= mp.DataRoom()) ==> r == Err(Buf(NotResized))
      ensures r.Err? ==> mp.avail == old(mp.avail)
      ensures r.Ok? ==> (fresh(r.value) && fresh(r.value.buf) && r.value.Valid() &&
        r.value.pool == mp && mp.avail == old(mp.avail) - 1)
      ensures r.Ok? ==> r.value.Data() == data && r.value.pktLen == |data|
    {
      var m := mp.Alloc();
      if m == null {
        return Err(Memory(NoBuf));
      }
      var e := m.Extend(0, |data|);
      if e.Err? {
        mp.Free(m);
        return Err(Buf(e.error));
      }
      assert m.dataLen == |data| && m.pktLen == |data|;
      ghost var d0 := m.Data();
      var w := m.WriteDataSlice(0, data);
      assert w.Ok?;
      assert d0[..0] + data + d0[|data|..] == data;
      r := Ok(m);
    }

    /** `Mbuf::mbuf_free_bulk`: returns at once on an empty list, otherwise
        batches as the `apis` module does (with the same quirk). */
    static method MbufFreeBulk(mbufs: seq<Mbuf>) returns (calls: seq<PutBulk<Mempool, Mbuf>>)
      ensures |mbufs| == 0 ==> calls == []
      ensures |mbufs| > 0 ==> FreeBulkShape(mbufs, PoolOf, calls)
    {
      if |mbufs| == 0 {
        return [];
      }
      calls := Apis.MbufFreeBulk(mbufs, PoolOf);
    }
  }
}
