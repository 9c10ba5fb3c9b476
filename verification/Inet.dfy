/** Address and port matching of src/inet.c. */
module Inet {
  import opened Bits

  type Byte = b: nat | b < 256

  /** The bytes of an address in network order. */
  type Address = a: seq<Byte> | |a| == 4 witness [0, 0, 0, 0]

  type Port = p: nat | p < 65536

  // ---------- prefixes ----------

  /** The low byte of (-1) << (8 - bits). */
  function HighBits(bits: nat): nat
    requires bits <= 8
  {
    Pow2Monotone(8 - bits, 8);
    Pow2(8) - Pow2(8 - bits)
  }

  /** compare_with_mask on byte strings of any length. */
  predicate SamePrefix(ip: seq<Byte>, net: seq<Byte>, mask: nat)
    requires |ip| == |net| && mask <= 8 * |ip|
  {
    var n := mask / 8;
    ip[..n] == net[..n] &&
    (mask % 8 == 0 || BitAnd(ip[n], HighBits(mask % 8)) == BitAnd(net[n], HighBits(mask % 8)))
  }

  predicate CompareWithMask(ip: Address, net: Address, mask: nat)
    requires mask <= 32
  {
    SamePrefix(ip, net, mask)
  }

  /** The number that a byte string denotes in network order. */
  function Value(b: seq<Byte>): nat {
    if b == [] then 0 else b[0] * Pow2(8 * (|b| - 1)) + Value(b[1..])
  }

  lemma {:induction false} ValueBound(b: seq<Byte>)
    ensures Value(b) < Pow2(8 * |b|)
  {
    if b != [] {
      var p: nat, x: nat := Pow2(8 * (|b| - 1)), b[0];
      ValueBound(b[1..]);
      Pow2Adds(8, 8 * (|b| - 1));
      Pow2Values();
      MulMonotone(x + 1, 256, p);
      assert (x + 1) * p == x * p + p;
    }
  }

  lemma HighBitsEqual(x: Byte, y: Byte, bits: nat)
    requires bits <= 8
    ensures BitAnd(x, HighBits(bits)) == BitAnd(y, HighBits(bits)) <==> x / Pow2(8 - bits) == y / Pow2(8 - bits)
  {
    assert Pow2(8) == 256 by { Pow2Values(); }
    HighMaskEqual(x, y, 8, 8 - bits);
  }

  /** Within the first byte, the top mask bits are those of the byte. */
  lemma TopBitsShort(b: seq<Byte>, mask: nat)
    requires b != [] && mask <= 8
    ensures Value(b) / Pow2(8 * |b| - mask) == b[0] / Pow2(8 - mask)
  {
    var n := 8 * (|b| - 1);
    ValueBound(b[1..]);
    Pow2Adds(8 - mask, n);
    DivHigh(b[0], Pow2(8 - mask), Pow2(n), Value(b[1..]));
  }

  /** Past the first byte, they are the byte followed by the top bits of the rest. */
  lemma TopBitsLong(b: seq<Byte>, mask: nat)
    requires b != [] && 8 <= mask <= 8 * |b|
    ensures var t := Pow2(8 * |b| - mask);
            && Value(b) / t == b[0] * Pow2(mask - 8) + Value(b[1..]) / t
            && 0 <= Value(b[1..]) / t < Pow2(mask - 8)
  {
    var t := 8 * |b| - mask;
    ValueBound(b[1..]);
    Pow2Adds(mask - 8, t);
    DivSplit(b[0], Pow2(mask - 8), Pow2(t), Value(b[1..]));
    DivBound(Value(b[1..]), Pow2(mask - 8), Pow2(t));
  }

  /** The byte-wise comparison is equality of the top mask bits of the two addresses. */
  lemma {:induction false} SamePrefixIff(ip: seq<Byte>, net: seq<Byte>, mask: nat)
    requires |ip| == |net| && mask <= 8 * |ip|
    ensures SamePrefix(ip, net, mask) <==>
            Value(ip) / Pow2(8 * |ip| - mask) == Value(net) / Pow2(8 * |ip| - mask)
    decreases |ip|
  {
    if ip == [] {
    } else if mask < 8 {
      TopBitsShort(ip, mask);
      TopBitsShort(net, mask);
      ShortPrefix(ip, net, mask);
    } else {
      SamePrefixIff(ip[1..], net[1..], mask - 8);
      PrefixStep(ip, net, mask);
      LongPrefix(ip, net, mask);
    }
  }

  lemma LongPrefix(ip: seq<Byte>, net: seq<Byte>, mask: nat)
    requires |ip| == |net| > 0 && 8 <= mask <= 8 * |ip|
    ensures var t := Pow2(8 * |ip| - mask);
            Value(ip) / t == Value(net) / t <==>
            ip[0] == net[0] && Value(ip[1..]) / t == Value(net[1..]) / t
  {
    TopBitsLong(ip, mask);
    TopBitsLong(net, mask);
    var t := Pow2(8 * |ip| - mask);
    PairsEqual(Value(ip) / t, ip[0], Value(ip[1..]) / t, Value(net) / t, net[0], Value(net[1..]) / t, Pow2(mask - 8));
  }

  lemma ShortPrefix(ip: seq<Byte>, net: seq<Byte>, mask: nat)
    requires |ip| == |net| > 0 && mask < 8
    ensures SamePrefix(ip, net, mask) <==> ip[0] / Pow2(8 - mask) == net[0] / Pow2(8 - mask)
  {
    HighBitsEqual(ip[0], net[0], mask);
    if mask == 0 {
      Pow2Values();
      ModUnique(ip[0], 256, 0, ip[0]);
      ModUnique(net[0], 256, 0, net[0]);
    }
  }

  lemma PrefixStep(ip: seq<Byte>, net: seq<Byte>, mask: nat)
    requires |ip| == |net| && 8 <= mask <= 8 * |ip|
    ensures SamePrefix(ip, net, mask) <==> ip[0] == net[0] && SamePrefix(ip[1..], net[1..], mask - 8)
  {
    var n, m := mask / 8, mask % 8;
    assert (mask - 8) / 8 == n - 1 && (mask - 8) % 8 == m;
    SameStart(ip, net, n);
    if m != 0 {
      assert ip[n] == ip[1..][n - 1] && net[n] == net[1..][n - 1];
    }
  }

  lemma SameStart(a: seq<Byte>, b: seq<Byte>, n: nat)
    requires 0 < n <= |a| && n <= |b|
    ensures a[..n] == b[..n] <==> a[0] == b[0] && a[1..][..n - 1] == b[1..][..n - 1]
  {
    assert a[..n] == [a[0]] + a[1..][..n - 1];
    assert b[..n] == [b[0]] + b[1..][..n - 1];
    assert a[..n] == b[..n] ==> a[..n][0] == b[..n][0] && a[..n][1..] == b[..n][1..];
  }

  /** Prefix notation of section 3.1 of RFC 4632, for every mask up to 32. */
  lemma CompareWithMaskIff(ip: Address, net: Address, mask: nat)
    requires mask <= 32
    ensures CompareWithMask(ip, net, mask) <==> Value(ip) / Pow2(32 - mask) == Value(net) / Pow2(32 - mask)
  {
    SamePrefixIff(ip, net, mask);
  }

  /** Two networks that contain one address are nested, the longer prefix inside. */
  lemma PrefixesNest(ip: Address, net1: Address, mask1: nat, net2: Address, mask2: nat)
    requires mask2 <= mask1 <= 32
    requires CompareWithMask(ip, net1, mask1) && CompareWithMask(ip, net2, mask2)
    ensures CompareWithMask(net1, net2, mask2)
  {
    CompareWithMaskIff(ip, net1, mask1);
    CompareWithMaskIff(ip, net2, mask2);
    CompareWithMaskIff(net1, net2, mask2);
    Shorten(Value(ip), mask1, mask2);
    Shorten(Value(net1), mask1, mask2);
  }

  lemma Shorten(v: nat, mask1: nat, mask2: nat)
    requires mask2 <= mask1 <= 32
    ensures v / Pow2(32 - mask2) == v / Pow2(32 - mask1) / Pow2(mask1 - mask2)
  {
    Pow2Adds(mask1 - mask2, 32 - mask1);
    DivDiv(v, Pow2(32 - mask1), Pow2(mask1 - mask2));
  }

  // ---------- ports ----------

  function PortsByRec(lo: Port, hi: Port): nat { hi * 65536 + lo }

  /** recbyports: the two halves of a 32-bit record, as it masks and shifts them. */
  function RecByPorts(rec: nat): (nat, nat) {
    Pow2Values();
    (BitAnd(rec, Pow2(16) - 1), BitAnd(rec, Pow2(32) - Pow2(16)) / Pow2(16))
  }

  lemma RecByPortsMeaning(rec: nat)
    requires rec < 0x1_0000_0000
    ensures RecByPorts(rec) == (rec % 65536, rec / 65536)
  {
    Pow2Values();
    AndLowMask(rec, 16);
    AndHighMask(rec, 32, 16);
    DivIdentity(rec, 65536);
    ModUnique(rec - rec % 65536, 65536, rec / 65536, 0);
  }

  lemma PortsRoundTrip(lo: Port, hi: Port)
    ensures PortsByRec(lo, hi) < 0x1_0000_0000
    ensures RecByPorts(PortsByRec(lo, hi)) == (lo, hi)
  {
    var rec := PortsByRec(lo, hi);
    ModUnique(rec, 65536, hi, lo);
    RecByPortsMeaning(rec);
  }

  /** What the comments of compare_ports say of the two halves: all ports, one port, the ports
      from lo to hi, or the ports below hi. */
  predicate Documented(port: Port, lo: nat, hi: nat) {
    if hi == 0 && lo == 0 then true
    else if hi == 0 then port == lo
    else if lo != 0 then lo <= port <= hi
    else port < hi
  }

  /** What its branches decide from the two halves, which leave out the ends of a range. */
  predicate InRange(port: Port, lo: nat, hi: nat) {
    if hi == 0 && lo == 0 then true
    else if hi == 0 then port == lo
    else if lo != 0 then lo < port < hi
    else port < hi
  }

  /** compare_ports: its parameter is an IP_port, so only 16 bits of the record arrive. */
  predicate ComparePorts(port: Port, rec: nat) {
    var (lo, hi) := RecByPorts(rec % 65536);
    InRange(port, lo, hi)
  }

  /** The high half never arrives: a record means one port or all ports. */
  lemma ComparePortsMeaning(port: Port, lo: Port, hi: Port)
    ensures ComparePorts(port, PortsByRec(lo, hi)) <==> lo == 0 || port == lo
  {
    assert PortsByRec(lo, hi) % 65536 == lo;
    RecByPortsMeaning(lo);
  }

  /** The same for any record: only its low half counts. */
  lemma ComparePortsLow(port: Port, rec: nat)
    ensures ComparePorts(port, rec) <==> rec % 65536 == 0 || port == rec % 65536
  {
    RecByPortsMeaning(rec % 65536);
  }

  /** A record works as the comments say for all ports if and only if it has no range or its
      range is a single port. */
  lemma RangesWorkIff(lo: Port, hi: Port)
    ensures (forall port: Port :: ComparePorts(port, PortsByRec(lo, hi)) <==> Documented(port, lo, hi))
            <==> hi == 0 || lo == hi
  {
    forall port: Port ensures ComparePorts(port, PortsByRec(lo, hi)) <==> lo == 0 || port == lo {
      ComparePortsMeaning(port, lo, hi);
    }
    if hi != 0 && lo != hi {
      var port: Port := if lo == 0 then 65535 else if lo < hi then hi else lo;
      assert !(ComparePorts(port, PortsByRec(lo, hi)) <==> Documented(port, lo, hi));
    }
  }

  /** It works as the branches would decide on the whole record if and only if it has no range. */
  lemma BranchesWorkIff(lo: Port, hi: Port)
    ensures (forall port: Port :: ComparePorts(port, PortsByRec(lo, hi)) <==> InRange(port, lo, hi)) <==> hi == 0
  {
    forall port: Port ensures ComparePorts(port, PortsByRec(lo, hi)) <==> lo == 0 || port == lo {
      ComparePortsMeaning(port, lo, hi);
    }
    if hi != 0 {
      var port: Port := if lo == 0 then 65535 else lo;
      assert ComparePorts(port, PortsByRec(lo, hi)) && !InRange(port, lo, hi);
    }
  }

  /** The range 10 to 20 admits port 10 and no other. */
  lemma RangeExample(port: Port)
    ensures ComparePorts(port, PortsByRec(10, 20)) <==> port == 10
    ensures !ComparePorts(15, PortsByRec(10, 20)) && InRange(15, 10, 20) && Documented(15, 10, 20)
  {
    ComparePortsMeaning(port, 10, 20);
    ComparePortsMeaning(15, 10, 20);
  }
}
