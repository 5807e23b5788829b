/** The C shim's conversions between dotted-quad text and 32-bit IPv4
    addresses in host order: `_pkt_parse_ip` (via `sscanf` and `RTE_IPV4`)
    and `_pkt_parse_char_ip` (via `snprintf` into a 16-byte buffer). Text
    is modelled as the characters before the terminating NUL. */
module ShimIpString {
  import opened Types

  predicate IsDigit(c: char)
  {
    '0' <= c <= '9'
  }

  predicate AllDigits(s: string)
  {
    forall i :: 0 <= i < |s| ==> IsDigit(s[i])
  }

  function DigitValue(c: char): nat
    requires IsDigit(c)
  {
    c as int - '0' as int
  }

  function DigitChar(d: nat): (c: char)
    requires d < 10
    ensures IsDigit(c) && DigitValue(c) == d
  {
    ('0' as int + d) as char
  }

  /** Length of the run of decimal digits that starts `s`. */
  function DigitRun(s: string): (n: nat)
    ensures n <= |s|
    ensures forall i :: 0 <= i < n ==> IsDigit(s[i])
    ensures n < |s| ==> !IsDigit(s[n])
  {
    if |s| == 0 || !IsDigit(s[0]) then 0 else 1 + DigitRun(s[1..])
  }

  /** The number a run of decimal digits denotes. */
  function DecValue(ds: string): nat
    requires AllDigits(ds)
  {
    if |ds| == 0 then 0 else 10 * DecValue(ds[..|ds| - 1]) + DigitValue(ds[|ds| - 1])
  }

  /** One `%u` conversion on input that starts with a digit: the value of
      the longest digit run and the text after it. */
  function ScanUnsigned(s: string): (r: Option<(nat, string)>)
    ensures r.Some? <==> |s| > 0 && IsDigit(s[0])
    ensures r.Some? ==> |r.value.1| < |s|
  {
    var n := DigitRun(s);
    if n == 0 then None else Some((DecValue(s[..n]), s[n..]))
  }

  /** The values `sscanf` stores for up to `k` `%u` conversions separated by
      literal dots; it stops at the first conversion or dot that does not
      match, and ignores what follows the last conversion. */
  function ScanFields(s: string, k: nat): (r: seq<nat>)
    ensures |r| <= k
    decreases k
  {
    if k == 0 then []
    else match ScanUnsigned(s)
      case None => []
      case Some((v, rest)) =>
        if k > 1 && |rest| > 0 && rest[0] == '.' then [v] + ScanFields(rest[1..], k - 1)
        else [v]
  }

  /** `sscanf(ip_str, "%u.%u.%u.%u", ...)`: the converted values; their
      number is what `sscanf` returns, or less than 4 where it returns EOF. */
  function ScanIp(s: string): (r: seq<nat>)
    ensures |r| <= 4
  {
    ScanFields(s, 4)
  }

  /** `RTE_IPV4(a, b, c, d)`: each argument masked to 8 bits, `a` in the
      high byte. */
  function RteIpv4(a: nat, b: nat, c: nat, d: nat): (r: u32)
    ensures Octet(r, 3) == a % 0x100 && Octet(r, 2) == b % 0x100
    ensures Octet(r, 1) == c % 0x100 && Octet(r, 0) == d % 0x100
  {
    OctetsOfSum(a % 0x100, b % 0x100, c % 0x100, d % 0x100);
    (a % 0x100) * 0x100_0000 + (b % 0x100) * 0x1_0000 + (c % 0x100) * 0x100 + d % 0x100
  }

  /** `(x >> 8*k) & 0xFF`. */
  function Octet(x: u32, k: nat): (r: byte)
    requires k < 4
  {
    if k == 0 then x % 0x100
    else if k == 1 then x / 0x100 % 0x100
    else if k == 2 then x / 0x100 / 0x100 % 0x100
    else x / 0x100 / 0x100 / 0x100
  }

  /** The octets of `b0 << 24 | b1 << 16 | b2 << 8 | b3`. */
  lemma OctetsOfSum(b0: byte, b1: byte, b2: byte, b3: byte)
    ensures var x: u32 := b0 as int * 0x100_0000 + b1 as int * 0x1_0000 + b2 as int * 0x100 + b3 as int;
      Octet(x, 3) == b0 && Octet(x, 2) == b1 && Octet(x, 1) == b2 && Octet(x, 0) == b3
  {
    var y2 := b0 as int * 0x100 + b1 as int;
    var y1 := y2 * 0x100 + b2 as int;
    var x := y1 * 0x100 + b3 as int;
    assert x == b0 as int * 0x100_0000 + b1 as int * 0x1_0000 + b2 as int * 0x100 + b3 as int;
    DivMod256(y1, b3);
    DivMod256(y2, b2);
    DivMod256(b0, b1);
  }

  /** The four octets put back together give the address. */
  lemma OctetsCompose(x: u32)
    ensures RteIpv4(Octet(x, 3), Octet(x, 2), Octet(x, 1), Octet(x, 0)) == x
  {
    var x1 := x / 0x100;
    var x2 := x1 / 0x100;
    var b0, b1, b2, b3 := x % 0x100, x1 % 0x100, x2 % 0x100, x2 / 0x100;
    assert x == x1 * 0x100 + b0;
    assert x1 == x2 * 0x100 + b1;
    assert x2 == b3 * 0x100 + b2;
    DivMod256(0, b0);
    DivMod256(0, b1);
    DivMod256(0, b2);
    DivMod256(0, b3);
  }

  /** `%u` output: the decimal digits of `n`, no leading zeros. */
  function Dec(n: nat): (s: string)
    ensures |s| >= 1 && AllDigits(s)
    ensures n < 10 ==> |s| == 1
    ensures n < 100 ==> |s| <= 2
    ensures n < 1000 ==> |s| <= 3
  {
    if n < 10 then [DigitChar(n)] else Dec(n / 10) + [DigitChar(n % 10)]
  }

  lemma {:induction false} DecValueOfDec(n: nat)
    ensures DecValue(Dec(n)) == n
  {
    if n >= 10 {
      var s := Dec(n);
      assert s[..|s| - 1] == Dec(n / 10);
      DecValueOfDec(n / 10);
    }
  }

  lemma {:induction false} DigitRunOfDigits(ds: string, rest: string)
    requires AllDigits(ds)
    requires |rest| == 0 || !IsDigit(rest[0])
    ensures DigitRun(ds + rest) == |ds|
  {
    if |ds| > 0 {
      assert (ds + rest)[1..] == ds[1..] + rest;
      DigitRunOfDigits(ds[1..], rest);
    }
  }

  /** A `%u` conversion reads back the decimal form of `n`. */
  lemma ScanUnsignedDec(n: nat, rest: string)
    requires |rest| == 0 || !IsDigit(rest[0])
    ensures ScanUnsigned(Dec(n) + rest) == Some((n, rest))
  {
    var s := Dec(n) + rest;
    DigitRunOfDigits(Dec(n), rest);
    assert s[..|Dec(n)|] == Dec(n);
    assert s[|Dec(n)|..] == rest;
    DecValueOfDec(n);
  }

  /** The decimal forms of `ns` joined by dots. */
  function Dotted(ns: seq<nat>): (s: string)
    requires |ns| > 0
    ensures |s| >= 2 * |ns| - 1
    ensures (forall i :: 0 <= i < |ns| ==> ns[i] < 1000) ==> |s| <= 4 * |ns| - 1
  {
    if |ns| == 1 then Dec(ns[0]) else Dec(ns[0]) + ("." + Dotted(ns[1..]))
  }

  /** `snprintf(ip_dest, 16, "%u.%u.%u.%u", ...)` of the four octets, high
      byte first. */
  function FormatIp(x: u32): (s: string)
    ensures 7 <= |s| <= 15
  {
    Dotted([Octet(x, 3), Octet(x, 2), Octet(x, 1), Octet(x, 0)])
  }

  /** A number followed by a dot: one conversion, then the remaining
      conversions on the text after the dot. */
  lemma ScanFieldsStep(n: nat, t: string, k: nat)
    requires k > 1
    ensures ScanFields(Dec(n) + ("." + t), k) == [n] + ScanFields(t, k - 1)
  {
    ScanUnsignedDec(n, "." + t);
    assert ("." + t)[1..] == t;
  }

  /** A number followed by no dot: the last conversion. */
  lemma ScanFieldsLast(n: nat, rest: string, k: nat)
    requires k >= 1
    requires |rest| == 0 || (!IsDigit(rest[0]) && (k == 1 || rest[0] != '.'))
    ensures ScanFields(Dec(n) + rest, k) == [n]
  {
    ScanUnsignedDec(n, rest);
  }

  lemma Regroup(a: string, b: string, c: string, d: string)
    ensures (a + (b + c)) + d == a + (b + (c + d))
  {
  }

  /** Up to `k` dot-separated numbers are all converted, whatever follows
      that does not continue the last one or add a further field. */
  lemma {:induction false} ScanDotted(ns: seq<nat>, tail: string, k: nat)
    requires 0 < |ns| <= k
    requires |tail| == 0 || (!IsDigit(tail[0]) && (|ns| == k || tail[0] != '.'))
    ensures ScanFields(Dotted(ns) + tail, k) == ns
  {
    if |ns| == 1 {
      ScanDottedOne(ns, tail, k);
    } else {
      ScanDotted(ns[1..], tail, k - 1);
      ScanDottedStep(ns, tail, k);
    }
  }

  lemma ScanDottedOne(ns: seq<nat>, tail: string, k: nat)
    requires |ns| == 1 <= k
    requires |tail| == 0 || (!IsDigit(tail[0]) && (k == 1 || tail[0] != '.'))
    ensures ScanFields(Dotted(ns) + tail, k) == ns
  {
    ScanFieldsLast(ns[0], tail, k);
  }

  /** The first of several dot-separated numbers, given the rest. */
  lemma ScanDottedStep(ns: seq<nat>, tail: string, k: nat)
    requires 1 < |ns| <= k
    requires ScanFields(Dotted(ns[1..]) + tail, k - 1) == ns[1..]
    ensures ScanFields(Dotted(ns) + tail, k) == ns
  {
    Regroup(Dec(ns[0]), ".", Dotted(ns[1..]), tail);
    ScanFieldsStep(ns[0], Dotted(ns[1..]) + tail, k);
    assert ns == [ns[0]] + ns[1..];
  }

  /** Four dot-separated numbers are all converted, whatever follows. */
  lemma ScanIpQuad(a: nat, b: nat, c: nat, d: nat, tail: string)
    requires |tail| == 0 || !IsDigit(tail[0])
    ensures ScanIp(Dotted([a, b, c, d]) + tail) == [a, b, c, d]
  {
    ScanDotted([a, b, c, d], tail, 4);
  }

  /** Formatting and then parsing gives back every address. */
  lemma ParseFormatRoundTrip(x: u32)
    ensures ScanIp(FormatIp(x)) == [Octet(x, 3), Octet(x, 2), Octet(x, 1), Octet(x, 0)]
    ensures RteIpv4(Octet(x, 3), Octet(x, 2), Octet(x, 1), Octet(x, 0)) == x
  {
    var ns := [Octet(x, 3) as nat, Octet(x, 2), Octet(x, 1), Octet(x, 0)];
    assert FormatIp(x) == Dotted(ns) + "";
    ScanIpQuad(ns[0], ns[1], ns[2], ns[3], "");
    OctetsCompose(x);
  }

  /** Octets above 255 are masked. */
  lemma ScanIpMasks()
    ensures ScanIp("1.2.3.300") == [1, 2, 3, 300]
  {
    assert Dec(1) == "1" && Dec(2) == "2" && Dec(3) == "3";
    assert Dec(30) == "30";
    assert Dec(300) == "300";
    assert Dotted([300]) == "300";
    assert Dotted([3, 300]) == "3.300";
    assert Dotted([2, 3, 300]) == "2.3.300";
    assert Dotted([1, 2, 3, 300]) == "1.2.3.300";
    assert "1.2.3.300" == Dotted([1, 2, 3, 300]) + "";
    ScanIpQuad(1, 2, 3, 300, "");
  }

  lemma RteIpv4Examples()
    ensures RteIpv4(1, 2, 3, 300) == 0x0102_032C
    ensures RteIpv4(10, 0, 0, 1) == 0x0A00_0001
  {
  }

  /** Text after the fourth number is ignored. */
  lemma ScanIpIgnoresTail()
    ensures ScanIp("10.0.0.1x") == [10, 0, 0, 1]
  {
    assert Dec(0) == "0" && Dec(1) == "1";
    assert Dec(10) == "10";
    assert Dotted([1]) == "1";
    assert Dotted([0, 1]) == "0.1";
    assert Dotted([0, 0, 1]) == "0.0.1";
    assert Dotted([10, 0, 0, 1]) == "10.0.0.1";
    assert "10.0.0.1x" == Dotted([10, 0, 0, 1]) + "x";
    ScanIpQuad(10, 0, 0, 1, "x");
  }

  /** Three numbers are three conversions, so the address is rejected. */
  lemma ScanIpShort(a: nat, b: nat, c: nat)
    ensures ScanIp(Dotted([a, b, c])) == [a, b, c]
  {
    assert Dotted([a, b, c]) + "" == Dotted([a, b, c]);
    ScanDotted([a, b, c], "", 4);
  }

  /** `_pkt_parse_ip`: -1 for a null argument or fewer than four
      conversions; otherwise 0, with the address stored through `dest`. */
  method ParseIp(ipStr: Option<string>, dest: array?<u32>) returns (ret: int)
    requires dest != null ==> dest.Length >= 1
    modifies dest
    ensures ret == 0 || ret == -1
    ensures ret == 0 <==> ipStr.Some? && dest != null && |ScanIp(ipStr.value)| == 4
    ensures ret == 0 ==> (var ip := ScanIp(ipStr.value);
      dest[0] == RteIpv4(ip[0], ip[1], ip[2], ip[3]))
    ensures ret == -1 && dest != null ==> dest[0] == old(dest[0])
  {
    if ipStr.None? || dest == null {
      return -1;
    }
    var ip := ScanIp(ipStr.value);
    if |ip| != 4 {
      return -1;
    }
    dest[0] := RteIpv4(ip[0], ip[1], ip[2], ip[3]);
    return 0;
  }

  /** `_pkt_parse_char_ip`: the dotted quad of `ipSrc` and its NUL
      terminator at the start of the 16-character buffer `ipDest`. */
  method ParseCharIp(ipDest: array<char>, ipSrc: u32)
    requires ipDest.Length >= 16
    modifies ipDest
    ensures var s := FormatIp(ipSrc);
      ipDest[..|s|] == s && ipDest[|s|] == '\0' && ipDest[|s| + 1..] == old(ipDest[|s| + 1..])
  {
    var s := FormatIp(ipSrc);
    forall i | 0 <= i <= |s| {
      ipDest[i] := if i < |s| then s[i] else '\0';
    }
  }
}
