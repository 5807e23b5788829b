/** Machine integer types, the failure-carrying wrappers used across the model,
    and the byte-order primitives of the host the engine runs on. */
module Types {

  type byte = x: int | 0 <= x < 0x100
  type u16 = x: int | 0 <= x < 0x1_0000
  type u32 = x: int | 0 <= x < 0x1_0000_0000
  type i32 = x: int | -0x8000_0000 <= x < 0x8000_0000

  const U32_MODULUS: int := 0x1_0000_0000
  const USIZE_MODULUS: int := 0x1_0000_0000_0000_0000

  /** `usize` on the 64-bit hosts the engine targets. */
  type usize = x: int | 0 <= x < 0x1_0000_0000_0000_0000

  datatype Option<+T> = None | Some(value: T)

  datatype Result<+R, +E> = Ok(value: R) | Err(error: E)

  datatype ByteOrder = LittleEndian | BigEndian

  /** The engine runs on x86 under DPDK: multi-byte values are stored
      least significant byte first. Every host-order load and every
      `htons`/`to_be` below is written in terms of this constant. */
  const HOST_BYTE_ORDER: ByteOrder := LittleEndian

  /** Reverses the two bytes of a 16-bit value. */
  function Swap16(x: u16): (r: u16)
    ensures r % 0x100 == x / 0x100 && r / 0x100 == x % 0x100
  {
    (x % 0x100) * 0x100 + x / 0x100
  }

  lemma Swap16Involutive(x: u16)
    ensures Swap16(Swap16(x)) == x
  {
  }

  /** Conversion of a native 16-bit value to network order on a host of
      byte order `order`. */
  function ToBe16(order: ByteOrder, x: u16): u16
  {
    if order == LittleEndian then Swap16(x) else x
  }

  /** `rte_cpu_to_be_16`, `htons` and Rust's `u16::to_be` on this host. */
  function CpuToBe16(x: u16): u16
  {
    ToBe16(HOST_BYTE_ORDER, x)
  }

  /** The 16-bit value a native load of bytes `s[off]`, `s[off+1]` yields on
      a host of byte order `order`. */
  function Load16(order: ByteOrder, s: seq<byte>, off: nat): u16
    requires off + 2 <= |s|
  {
    if order == LittleEndian then s[off] as int + 0x100 * s[off + 1] as int
    else 0x100 * s[off] as int + s[off + 1] as int
  }

  function LoadHost16(s: seq<byte>, off: nat): u16
    requires off + 2 <= |s|
  {
    Load16(HOST_BYTE_ORDER, s, off)
  }

  /** The 32-bit value a native load of bytes `s[off..off+4]` yields on a
      host of byte order `order`. */
  function Load32(order: ByteOrder, s: seq<byte>, off: nat): u32
    requires off + 4 <= |s|
  {
    if order == LittleEndian then
      s[off] as int + 0x100 * s[off + 1] as int + 0x1_0000 * s[off + 2] as int + 0x100_0000 * s[off + 3] as int
    else
      0x100_0000 * s[off] as int + 0x1_0000 * s[off + 1] as int + 0x100 * s[off + 2] as int + s[off + 3] as int
  }

  function LoadHost32(s: seq<byte>, off: nat): u32
    requires off + 4 <= |s|
  {
    Load32(HOST_BYTE_ORDER, s, off)
  }

  /** Reverses the four bytes of a 32-bit value. */
  function Swap32(x: u32): u32
  {
    var b0, x1 := x % 0x100, x / 0x100;
    var b1, x2 := x1 % 0x100, x1 / 0x100;
    var b2, b3 := x2 % 0x100, x2 / 0x100;
    ((b0 * 0x100 + b1) * 0x100 + b2) * 0x100 + b3
  }

  lemma DivMod256(q: nat, r: nat)
    requires r < 0x100
    ensures (q * 0x100 + r) / 0x100 == q && (q * 0x100 + r) % 0x100 == r
  {
  }

  lemma DivMod65536(x: int, q: int)
    requires 0 <= x - q * 0x1_0000 < 0x1_0000
    ensures x / 0x1_0000 == q && x % 0x1_0000 == x - q * 0x1_0000
  {
  }

  /** `rte_be_to_cpu_32` on this host. */
  function Be32ToCpu(x: u32): u32
  {
    if HOST_BYTE_ORDER == LittleEndian then Swap32(x) else x
  }

  /** The two bytes a native store of `x` writes on a host of byte order
      `order`. */
  function Store16(order: ByteOrder, x: u16): (r: seq<byte>)
    ensures |r| == 2 && Load16(order, r, 0) == x
  {
    if order == LittleEndian then [x % 0x100, x / 0x100] else [x / 0x100, x % 0x100]
  }

  function StoreHost16(x: u16): seq<byte>
  {
    Store16(HOST_BYTE_ORDER, x)
  }

  /** Network-order (big-endian) reads. */
  function Be16(s: seq<byte>, off: nat): u16
    requires off + 2 <= |s|
  {
    0x100 * s[off] as int + s[off + 1] as int
  }

  function Be32(s: seq<byte>, off: nat): u32
    requires off + 4 <= |s|
  {
    0x100_0000 * s[off] as int + 0x1_0000 * s[off + 1] as int + 0x100 * s[off + 2] as int + s[off + 3] as int
  }

  /** Network-order encodings. */
  function Be16Bytes(x: u16): (r: seq<byte>)
    ensures |r| == 2 && Be16(r, 0) == x
  {
    [x / 0x100, x % 0x100]
  }

  /** Converting a host-order load to network order gives the big-endian
      value of the same two bytes. */
  lemma CpuToBeOfHostLoad(s: seq<byte>, off: nat)
    requires off + 2 <= |s|
    ensures CpuToBe16(LoadHost16(s, off)) == Be16(s, off)
  {
  }

  /** Storing the network-order form of `x` writes its big-endian bytes. */
  lemma StoreHostOfCpuToBe(x: u16)
    ensures StoreHost16(CpuToBe16(x)) == Be16Bytes(x)
  {
  }

  /** Converting a host-order 32-bit load from network order gives the
      big-endian value of the same four bytes. */
  lemma Be32ToCpuOfHostLoad(s: seq<byte>, off: nat)
    requires off + 4 <= |s|
    ensures Be32ToCpu(LoadHost32(s, off)) == Be32(s, off)
  {
    var x := LoadHost32(s, off);
    var y2 := s[off + 2] as int + 0x100 * s[off + 3] as int;
    var y1 := s[off + 1] as int + 0x100 * y2;
    assert x == y1 * 0x100 + s[off];
    DivMod256(y1, s[off]);
    DivMod256(y2, s[off + 1]);
    DivMod256(s[off + 3], s[off + 2]);
  }

  /** Writes `bs` into `a` at `at` (a `memcpy` into a mapped buffer). */
  method WriteBytes(a: array<byte>, at: nat, bs: seq<byte>)
    requires at + |bs| <= a.Length
    modifies a
    ensures forall i :: 0 <= i < a.Length ==>
      a[i] == if at <= i < at + |bs| then bs[i - at] else old(a[i])
  {
    forall i | at <= i < at + |bs| {
      a[i] := bs[i - at];
    }
  }
}
