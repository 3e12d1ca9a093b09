/** IPv4 address arithmetic behind `NetFinder`: dotted-quad text, `netmask_to_cidr`
    and the host list of an `ipaddress.ip_network(addr/prefix, strict=False)`.
    Addresses are 32-bit naturals; prefixes follow the CIDR notation of section 3.1
    of RFC 4632. */
module Subnet {
  import opened Bytes
  import opened Text

  /** 2^32: the size of the IPv4 address space. */
  const AddressSpace: nat := 0x1_0000_0000

  type Addr = x: nat | x < 0x1_0000_0000

  type Octet = x: nat | x < 256

  /** An address as its four octets, most significant first. */
  datatype Quad = Quad(a: Octet, b: Octet, c: Octet, d: Octet)

  /** `int(IPv4Address(...))`. */
  function Value(q: Quad): (x: Addr) {
    ((q.a * 256 + q.b) * 256 + q.c) * 256 + q.d
  }

  /** `IPv4Address(x)` split into octets; the inverse of `Value`. */
  function QuadOf(x: Addr): (q: Quad)
    ensures Value(q) == x
  {
    var r1 := x / 256;
    var r2 := r1 / 256;
    Quad(r2 / 256, r2 % 256, r1 % 256, x % 256)
  }

  lemma QuadRoundTrip(q: Quad)
    ensures QuadOf(Value(q)) == q
  {
    var h1 := q.a * 256 + q.b;
    var h2 := h1 * 256 + q.c;
    DivModUnique(Value(q), 256, h2, q.d);
    DivModUnique(h2, 256, h1, q.c);
    DivModUnique(h1, 256, q.a, q.b);
  }

  /** `str(IPv4Address(...))` and the `addr` strings of netifaces: dotted decimal. */
  function Dotted(q: Quad): string {
    NatToString(q.a) + "." + (NatToString(q.b) + "." + (NatToString(q.c) + "." + NatToString(q.d)))
  }

  function Pow2(n: nat): (r: nat)
    ensures r >= 1
  {
    if n == 0 then 1 else 2 * Pow2(n - 1)
  }

  lemma {:induction false} Pow2Add(m: nat, n: nat)
    ensures Pow2(m + n) == Pow2(m) * Pow2(n)
    decreases m
  {
    if m > 0 {
      Pow2Add(m - 1, n);
      assert Pow2(m + n) == 2 * Pow2(m - 1 + n);
    }
  }

  lemma Pow2Grows(n: nat)
    ensures n >= 2 ==> Pow2(n) >= 4
  {
    if n >= 2 {
      assert Pow2(n) == 2 * (2 * Pow2(n - 2));
    }
  }

  // ---------------------------------------------------------------- netmask_to_cidr

  predicate IsDecimal(s: string) {
    s != [] && forall k :: 0 <= k < |s| ==> '0' <= s[k] <= '9'
  }

  /** `int(s)` for a string of decimal digits. */
  function DecimalValue(s: string): (n: nat)
    requires forall k :: 0 <= k < |s| ==> '0' <= s[k] <= '9'
  {
    if s == [] then 0
    else DecimalValue(s[..|s| - 1]) * 10 + (s[|s| - 1] as int - '0' as int)
  }

  /** `int(str(n)) == n`. */
  lemma {:induction false} DecimalOfNatToString(n: nat)
    ensures IsDecimal(NatToString(n)) && DecimalValue(NatToString(n)) == n
    decreases n
  {
    var s := NatToString(n);
    if n >= 10 {
      DecimalOfNatToString(n / 10);
      assert s[..|s| - 1] == NatToString(n / 10);
    }
  }

  /** `bin(n).count('1')`. */
  function Popcount(n: nat): nat {
    if n == 0 then 0 else n % 2 + Popcount(n / 2)
  }

  /** A number below 2^k has at most `k` one bits. */
  lemma {:induction false} PopcountBound(n: nat, k: nat)
    requires n < Pow2(k)
    ensures Popcount(n) <= k
    decreases k
  {
    if n > 0 {
      assert k > 0;
      PopcountBound(n / 2, k - 1);
    }
  }

  predicate DecimalParts(parts: seq<string>) {
    forall k :: 0 <= k < |parts| ==> IsDecimal(parts[k])
  }

  /** `sum(bin(int(x)).count('1') for x in parts)`. */
  function PopcountSum(parts: seq<string>): nat
    requires DecimalParts(parts)
  {
    if parts == [] then 0 else Popcount(DecimalValue(parts[0])) + PopcountSum(parts[1..])
  }

  /** `NetFinder.netmask_to_cidr`: the one bits of every `.`-separated decimal, added up.
      A part that is not a decimal number makes `int` raise. */
  function NetmaskToCidr(netmask: string): (r: nat)
    requires DecimalParts(Split(netmask, '.'))
    ensures (forall k :: 0 <= k < |Split(netmask, '.')| ==> DecimalValue(Split(netmask, '.')[k]) < 256) ==>
      r <= 8 * |Split(netmask, '.')|
  {
    var parts := Split(netmask, '.');
    if forall k :: 0 <= k < |parts| ==> DecimalValue(parts[k]) < 256 then
      PopcountSumBound(parts);
      PopcountSum(parts)
    else
      PopcountSum(parts)
  }

  /** Every part below 256 bounds the count by eight bits a part. */
  lemma {:induction false} PopcountSumBound(parts: seq<string>)
    requires DecimalParts(parts)
    requires forall k :: 0 <= k < |parts| ==> DecimalValue(parts[k]) < 256
    ensures PopcountSum(parts) <= 8 * |parts|
  {
    if parts != [] {
      PopcountBound(DecimalValue(parts[0]), 8);
      PopcountSumBound(parts[1..]);
    }
  }

  lemma NoDot(n: nat)
    ensures '.' !in NatToString(n)
  {
  }

  /** A dotted quad splits into its four octets' decimal texts. */
  lemma DottedParts(q: Quad)
    ensures Split(Dotted(q), '.') == [NatToString(q.a), NatToString(q.b), NatToString(q.c), NatToString(q.d)]
  {
    NoDot(q.a); NoDot(q.b); NoDot(q.c); NoDot(q.d);
    SplitFour(NatToString(q.a), NatToString(q.b), NatToString(q.c), NatToString(q.d), '.');
  }

  /** The prefix length of a dotted-quad netmask is the number of one bits of its
      octets, at most 32. */
  lemma NetmaskOfQuad(q: Quad)
    ensures DecimalParts(Split(Dotted(q), '.'))
    ensures NetmaskToCidr(Dotted(q)) == Popcount(q.a) + Popcount(q.b) + Popcount(q.c) + Popcount(q.d)
    ensures NetmaskToCidr(Dotted(q)) <= 32
  {
    DottedParts(q);
    DecimalOfNatToString(q.a);
    DecimalOfNatToString(q.b);
    DecimalOfNatToString(q.c);
    DecimalOfNatToString(q.d);
    var parts := Split(Dotted(q), '.');
    assert PopcountSum(parts) == Popcount(q.a) + PopcountSum(parts[1..]);
    assert PopcountSum(parts[1..]) == Popcount(q.b) + PopcountSum(parts[2..]);
    assert PopcountSum(parts[2..]) == Popcount(q.c) + PopcountSum(parts[3..]);
    assert PopcountSum(parts[3..]) == Popcount(q.d) + PopcountSum(parts[4..]);
    PopcountSumBound(parts);
  }

  /** The octet whose top `k` bits are set. */
  function OctetMask(k: nat): Octet
    requires k <= 8
  {
    [0, 128, 192, 224, 240, 248, 252, 254, 255][k]
  }

  /** Appending a bit to a number appends it to the count. */
  lemma PopcountStep(n: nat)
    ensures Popcount(2 * n) == Popcount(n) && Popcount(2 * n + 1) == Popcount(n) + 1
  {
    assert (2 * n + 1) / 2 == n && (2 * n + 1) % 2 == 1;
    if n > 0 {
      assert (2 * n) / 2 == n && (2 * n) % 2 == 0;
    }
  }

  lemma LowOnes()
    ensures Popcount(1) == 1 && Popcount(3) == 2 && Popcount(7) == 3 && Popcount(15) == 4
    ensures Popcount(31) == 5 && Popcount(63) == 6 && Popcount(127) == 7 && Popcount(255) == 8
  {
    PopcountStep(0); PopcountStep(1); PopcountStep(3); PopcountStep(7);
    PopcountStep(15); PopcountStep(31); PopcountStep(63); PopcountStep(127);
  }

  lemma MaskPopcounts()
    ensures Popcount(0) == 0 && Popcount(128) == 1 && Popcount(192) == 2 && Popcount(224) == 3
    ensures Popcount(240) == 4 && Popcount(248) == 5 && Popcount(252) == 6 && Popcount(254) == 7
    ensures Popcount(255) == 8
  {
    LowOnes();
    PopcountStep(127); PopcountStep(63); PopcountStep(31); PopcountStep(15); PopcountStep(7); PopcountStep(3); PopcountStep(1);
    PopcountStep(126); PopcountStep(62); PopcountStep(30); PopcountStep(14); PopcountStep(6); PopcountStep(2);
    PopcountStep(124); PopcountStep(60); PopcountStep(28); PopcountStep(12); PopcountStep(4);
    PopcountStep(120); PopcountStep(56); PopcountStep(24); PopcountStep(8);
    PopcountStep(112); PopcountStep(48); PopcountStep(16);
    PopcountStep(96); PopcountStep(32);
    PopcountStep(64);
  }

  /** The octet mask with `k` leading ones has `k` one bits. */
  lemma OctetMaskBits(k: nat)
    requires k <= 8
    ensures Popcount(OctetMask(k)) == k
  {
    var m := OctetMask(k);
    MaskPopcounts();
    var table: seq<nat> := [0, 128, 192, 224, 240, 248, 252, 254, 255];
    assert m == table[k];
    assert forall j :: 0 <= j < 9 ==> Popcount(table[j]) == j;
  }

  function Clamp8(x: int): nat {
    if x < 0 then 0 else if x > 8 then 8 else x
  }

  /** The contiguous netmask of prefix length `p`, such as 255.255.255.0 for 24. */
  function PrefixMask(p: nat): Quad
    requires p <= 32
  {
    Quad(OctetMask(Clamp8(p)), OctetMask(Clamp8(p - 8)), OctetMask(Clamp8(p - 16)), OctetMask(Clamp8(p - 24)))
  }

  /** For a contiguous netmask the count of one bits is the prefix length. */
  lemma NetmaskOfPrefix(p: nat)
    requires p <= 32
    ensures DecimalParts(Split(Dotted(PrefixMask(p)), '.'))
    ensures NetmaskToCidr(Dotted(PrefixMask(p))) == p
  {
    NetmaskOfQuad(PrefixMask(p));
    OctetMaskBits(Clamp8(p));
    OctetMaskBits(Clamp8(p - 8));
    OctetMaskBits(Clamp8(p - 16));
    OctetMaskBits(Clamp8(p - 24));
  }

  /** A netmask whose one bits are not contiguous still yields their count. */
  lemma NetmaskNonContiguous()
    ensures DecimalParts(Split(Dotted(Quad(255, 0, 255, 0)), '.'))
    ensures NetmaskToCidr(Dotted(Quad(255, 0, 255, 0))) == 16
  {
    NetmaskOfQuad(Quad(255, 0, 255, 0));
    OctetMaskBits(8);
    OctetMaskBits(0);
  }

  // ---------------------------------------------------------------- hosts

  lemma MulZero(k: int, b: int)
    requires b > 0 && -b < k * b < b
    ensures k == 0
  {
  }

  /** `x == q * b + r` with `0 <= r < b` pins down `x / b` and `x % b`. */
  lemma DivModUnique(x: nat, b: nat, q: nat, r: nat)
    requires 0 <= r < b && x == q * b + r
    ensures x / b == q && x % b == r
  {
    var q', r' := x / b, x % b;
    assert x == q' * b + r';
    assert (q - q') * b == r' - r;
    MulZero(q - q', b);
  }

  lemma QuotientBelow(x: nat, b: nat, m: nat)
    requires b > 0 && x < m * b
    ensures x / b < m
  {
    assert (x / b) * b <= x;
  }

  lemma MulMono(a: nat, c: nat, b: nat)
    requires a <= c
    ensures a * b <= c * b
  {
  }

  lemma NextMultipleFits(x: nat, b: nat, m: nat)
    requires b > 0 && x < m * b
    ensures (x / b + 1) * b <= m * b
  {
    QuotientBelow(x, b, m);
    MulMono(x / b + 1, m, b);
  }

  lemma Pow2Of32()
    ensures Pow2(32) == AddressSpace
  {
    assert Pow2(4) == 16;
    assert Pow2(8) == 256;
    assert Pow2(12) == 4096;
    assert Pow2(16) == 65536;
    assert Pow2(20) == 1048576;
    assert Pow2(24) == 16777216;
    assert Pow2(28) == 268435456;
  }

  /** The size of the block a prefix of length `p` leaves to the hosts. */
  function BlockSize(p: nat): (b: nat)
    requires p <= 32
    ensures b >= 1 && (p <= 30 ==> b >= 4)
  {
    Pow2Grows(32 - p);
    Pow2(32 - p)
  }

  /** The address space is 2^p blocks of the prefix's block size. */
  lemma SpaceSplit(p: nat)
    requires p <= 32
    ensures AddressSpace == Pow2(p) * BlockSize(p)
  {
    Pow2Add(p, 32 - p);
    Pow2Of32();
  }

  lemma BlockFits(addr: Addr, p: nat)
    requires p <= 32
    ensures (addr / BlockSize(p) + 1) * BlockSize(p) <= AddressSpace
  {
    SpaceSplit(p);
    NextMultipleFits(addr, BlockSize(p), Pow2(p));
  }

  /** The network address of `addr/p`: the host bits cleared. */
  function NetworkOf(addr: Addr, p: nat): (net: nat)
    requires p <= 32
    ensures net <= addr && net % BlockSize(p) == 0 && net / BlockSize(p) == addr / BlockSize(p)
    ensures net + BlockSize(p) <= AddressSpace
  {
    BlockFits(addr, p);
    BlockBase(addr, BlockSize(p), AddressSpace)
  }

  /** The multiple of `b` at or below `x`: the start of the block that holds `x`. */
  function BlockBase(x: nat, b: nat, space: nat): (base: nat)
    requires b >= 1 && (x / b + 1) * b <= space
    ensures base <= x && base % b == 0 && base / b == x / b && base + b <= space
  {
    var q := x / b;
    DivModUnique(q * b, b, q, 0);
    assert (q + 1) * b == q * b + b;
    q * b
  }

  /** `ip_network(addr/p, strict=False).hosts()` as 32-bit values: the network and
      broadcast addresses excluded, except that a /31 keeps both of its addresses and
      a /32 is its one address. */
  function Hosts(addr: Addr, p: nat): (hs: seq<Addr>)
    requires p <= 32
    ensures forall i, j :: 0 <= i < j < |hs| ==> hs[i] < hs[j]
  {
    var b := BlockSize(p);
    var net := NetworkOf(addr, p);
    if p == 32 then [addr]
    else if p == 31 then [net, net + 1]
    else seq(b - 2, i requires 0 <= i < b - 2 => net + 1 + i)
  }

  /** A prefix of at most 30 bits has 2^(32-p) - 2 hosts; /31 has two and /32 one. */
  lemma HostsCount(addr: Addr, p: nat)
    requires p <= 32
    ensures p <= 30 ==> |Hosts(addr, p)| == Pow2(32 - p) - 2
    ensures p == 31 ==> |Hosts(addr, p)| == 2
    ensures p == 32 ==> |Hosts(addr, p)| == 1
  {
  }

  /** For a prefix of at most 30 bits, a host is an address in the same block as
      `addr` that is neither the block's first (network) nor its last (broadcast). */
  lemma HostsExactly(addr: Addr, p: nat, h: Addr)
    requires p <= 30
    ensures h in Hosts(addr, p) <==>
      h / BlockSize(p) == addr / BlockSize(p) && h % BlockSize(p) != 0 && h % BlockSize(p) != BlockSize(p) - 1
  {
    var b := BlockSize(p);
    var q := addr / b;
    var net := NetworkOf(addr, p);
    var hs := Hosts(addr, p);
    assert net == q * b;
    InnerOfBlock(q, b, h);
    if h in hs {
      var i :| 0 <= i < |hs| && hs[i] == h;
    }
    if net + 1 <= h <= net + b - 2 {
      assert hs[h - net - 1] == h;
    }
  }

  /** The addresses strictly inside block `q` of size `b`, by range and by quotient
      and remainder. */
  lemma InnerOfBlock(q: nat, b: nat, h: nat)
    requires b >= 4
    ensures q * b + 1 <= h <= q * b + b - 2 <==> h / b == q && h % b != 0 && h % b != b - 1
  {
    if q * b + 1 <= h <= q * b + b - 2 {
      DivModUnique(h, b, q, h - q * b);
    }
    if h / b == q {
      assert h == q * b + h % b;
    }
  }

  /** Every host of a /31 or /32 lies in the block of `addr`. */
  lemma HostsSmallBlocks(addr: Addr, p: nat, h: Addr)
    requires 31 <= p <= 32
    ensures h in Hosts(addr, p) <==> h / BlockSize(p) == addr / BlockSize(p)
  {
    var b := BlockSize(p);
    var q := addr / b;
    var net := NetworkOf(addr, p);
    assert net == q * b;
    if p == 32 {
      assert b == 1;
    } else {
      assert b == 2;
      DivModUnique(net, b, q, 0);
      DivModUnique(net + 1, b, q, 1);
      if h / b == q {
        assert h == q * b + h % b;
      }
    }
  }

  /** 192.168.1.7/30 has the hosts 192.168.1.5 and 192.168.1.6. */
  lemma HostsOfSlash30()
    ensures Hosts(Value(Quad(192, 168, 1, 7)), 30) == [Value(Quad(192, 168, 1, 5)), Value(Quad(192, 168, 1, 6))]
  {
    assert BlockSize(30) == 4;
    var net := NetworkOf(Value(Quad(192, 168, 1, 7)), 30);
    DivModUnique(Value(Quad(192, 168, 1, 7)), 4, Value(Quad(192, 168, 1, 4)) / 4, 3);
    assert net == Value(Quad(192, 168, 1, 4));
  }

  // ---------------------------------------------------------------- loopback filter

  lemma NatToStringOctet(n: Octet)
    ensures n < 10 ==> NatToString(n) == [DigitChar(n)]
    ensures 10 <= n < 100 ==> NatToString(n) == [DigitChar(n / 10), DigitChar(n % 10)]
    ensures 100 <= n ==> NatToString(n) == [DigitChar(n / 100), DigitChar(n / 10 % 10), DigitChar(n % 10)]
  {
    if n >= 100 {
      assert NatToString(n / 10) == [DigitChar(n / 100), DigitChar(n / 10 % 10)];
    }
  }

  /** The decimal text of an octet, followed by a dot, starts with "127" exactly when
      the octet is 127. */
  lemma OctetText127(n: Octet, rest: string)
    ensures StartsWith(NatToString(n) + "." + rest, "127") <==> n == 127
  {
    var first := NatToString(n);
    var s := first + "." + rest;
    NatToStringOctet(n);
    assert s[|first|] == '.';
    if |first| == 3 {
      assert s[..3] == first;
      if s[..3] == "127" {
        assert first[0] == '1' && first[1] == '2' && first[2] == '7';
        assert n / 100 == 1 && n / 10 % 10 == 2 && n % 10 == 7;
      }
    }
  }

  /** `addr.startswith('127')` holds exactly for the addresses 127.x.y.z. */
  lemma LoopbackPrefix(q: Quad)
    ensures StartsWith(Dotted(q), "127") <==> q.a == 127
  {
    var rest := NatToString(q.b) + "." + (NatToString(q.c) + "." + NatToString(q.d));
    OctetText127(q.a, rest);
  }
}
