/** Byte swapping: the macros of ebpf/include/bpf_endian.h against the Go helpers of plugins/http/ebpf.go. */
module ByteOrder {

  /** ___bpf_swab16, its two ___bpf_mvb(x, 16, n, m) expanded. A u16 is promoted to a 32-bit int, so the left
      shifts drop no bits; the outer cast drops what they kept. */
  function Swab16(x: bv16): bv16 {
    var w := x as bv32;
    (((((w << 8) >> 8) << 8) | (((w << 0) >> 8) << 0)) & 0xFFFF) as bv16
  }

  function Swab32(x: bv32): bv32 {
    (((x << 24) >> 24) << 24) | (((x << 16) >> 24) << 16) | (((x << 8) >> 24) << 8) | (((x << 0) >> 24) << 0)
  }

  function Swab64(x: bv64): bv64 {
    (((x << 56) >> 56) << 56) | (((x << 48) >> 56) << 48) | (((x << 40) >> 56) << 40) | (((x << 32) >> 56) << 32) |
    (((x << 24) >> 56) << 24) | (((x << 16) >> 56) << 16) | (((x << 8) >> 56) << 8) | (((x << 0) >> 56) << 0)
  }

  // Values from bytes in memory order, and back.

  function Le16(b: seq<bv8>): bv16
    requires |b| == 2
  {
    (b[0] as bv16) | ((b[1] as bv16) << 8)
  }

  function PutBe16(x: bv16): (b: seq<bv8>)
    ensures |b| == 2
  {
    [(x >> 8) as bv8, (x & 0xFF) as bv8]
  }

  function Le32(b: seq<bv8>): bv32
    requires |b| == 4
  {
    (b[0] as bv32) | ((b[1] as bv32) << 8) | ((b[2] as bv32) << 16) | ((b[3] as bv32) << 24)
  }

  function PutBe32(x: bv32): (b: seq<bv8>)
    ensures |b| == 4
  {
    [(x >> 24) as bv8, ((x >> 16) & 0xFF) as bv8, ((x >> 8) & 0xFF) as bv8, (x & 0xFF) as bv8]
  }

  /** Htons and Ntohs: the same code on the little-endian host. */
  function Htons(x: bv16): bv16 {
    Le16(PutBe16(x))
  }

  /** Htonl and Ntohl. */
  function Htonl(x: bv32): bv32 {
    Le32(PutBe32(x))
  }

  /** Swapping twice is the identity at every width, the promoted 16-bit case included. */
  lemma SwabInvolutive(x: bv16, y: bv32, z: bv64)
    ensures Swab16(Swab16(x)) == x
    ensures Swab32(Swab32(y)) == y
    ensures Swab64(Swab64(z)) == z
  {
  }

  /** The macros and the Go helpers are the same function on the little-endian target. */
  lemma SwabIsGo(x: bv16, y: bv32)
    ensures Swab16(x) == Htons(x) && Swab32(y) == Htonl(y)
  {
  }

  /** On four bytes in little-endian memory, the macro reads them in the opposite order; on two, likewise. */
  lemma SwabReversesBytes(a: bv8, b: bv8, c: bv8, d: bv8)
    ensures Swab32((a as bv32) | ((b as bv32) << 8) | ((c as bv32) << 16) | ((d as bv32) << 24)) ==
            (d as bv32) | ((c as bv32) << 8) | ((b as bv32) << 16) | ((a as bv32) << 24)
    ensures Swab16((a as bv16) | ((b as bv16) << 8)) == (b as bv16) | ((a as bv16) << 8)
  {
  }

  /** On eight bytes: the two halves change places, each reversed. */
  lemma Swab64ReversesBytes(low: bv32, high: bv32)
    ensures Swab64((low as bv64) | ((high as bv64) << 32)) == (Swab32(high) as bv64) | ((Swab32(low) as bv64) << 32)
  {
  }
}

/** The two conversions between address bytes and map keys in plugins/http/ebpf.go, on byte values. */
module AddressOrder {
  import opened Wire

  /** The first four bytes of the slice, however long it is. The shifted bytes do not overlap, so their bitwise
      or is their sum. */
  function Ipv4ToUint32(ip: seq<byte>): u32
    requires |ip| >= 4
  {
    0x100_0000 * ip[0] as int + 0x1_0000 * ip[1] as int + 0x100 * ip[2] as int + ip[3] as int
  }

  function IntToIp(n: u32): seq<byte> {
    PutLe32(n)
  }

  /** The form in which net.ParseIP returns an IPv4 address. */
  function Mapped(v4: seq<byte>): (ip: seq<byte>)
    requires |v4| == 4
    ensures |ip| == 16
  {
    Zeros(10) + [0xFF, 0xFF] + v4
  }

  function Decimal(n: nat): string {
    if n < 10 then ["0123456789"[n]] else Decimal(n / 10) + ["0123456789"[n % 10]]
  }

  /** net.IP.String of four bytes. */
  function Dotted(ip: seq<byte>): string
    requires |ip| == 4
  {
    Decimal(ip[0]) + "." + Decimal(ip[1]) + "." + Decimal(ip[2]) + "." + Decimal(ip[3])
  }

  // ---------------------------------------------------------------- reading a dotted address

  /** The parts of a string between its dots. */
  function Parts(s: string): (parts: seq<string>)
    ensures |parts| >= 1
  {
    if s == "" then [""]
    else if s[0] == '.' then [""] + Parts(s[1..])
    else
      var rest := Parts(s[1..]);
      [[s[0]] + rest[0]] + rest[1..]
  }

  /** The value of decimal digits, the first one the most significant. */
  function ValueOf(d: string): int {
    if d == "" then 0 else 10 * ValueOf(d[..|d| - 1]) + (d[|d| - 1] as int - '0' as int)
  }

  /** Decimal digits without a leading zero. */
  predicate IsDecimal(d: string) {
    d != "" && (|d| > 1 ==> d[0] != '0') && forall i :: 0 <= i < |d| ==> '0' <= d[i] <= '9'
  }

  /** The string names the address: four decimal numbers between dots, in the order of the bytes. */
  predicate Names(s: string, ip: seq<byte>)
    requires |ip| == 4
  {
    |Parts(s)| == 4 && forall i :: 0 <= i < 4 ==> IsDecimal(Parts(s)[i]) && ValueOf(Parts(s)[i]) == ip[i]
  }

  lemma OneDigit(c: char)
    requires '0' <= c <= '9'
    ensures "0123456789"[c as int - '0' as int] == c && Decimal(c as int - '0' as int) == [c]
  {
  }

  lemma AppendDigit(p: string, c: char)
    ensures ValueOf(p + [c]) == 10 * ValueOf(p) + (c as int - '0' as int)
    ensures ValueOf([c]) == c as int - '0' as int
  {
    assert (p + [c])[..|p|] == p;
    assert [c][..0] == "";
  }

  lemma {:induction false} DecimalReads(n: nat)
    ensures IsDecimal(Decimal(n)) && ValueOf(Decimal(n)) == n && (n > 0 ==> Decimal(n)[0] != '0')
  {
    var last := "0123456789"[n % 10];
    assert last as int - '0' as int == n % 10;
    hide ValueOf;
    if n >= 10 {
      DecimalReads(n / 10);
      AppendDigit(Decimal(n / 10), last);
    } else {
      AppendDigit("", last);
    }
  }

  lemma {:induction false} DecimalIsUnique(d: string)
    requires IsDecimal(d)
    ensures ValueOf(d) >= 0 && d == Decimal(ValueOf(d)) && (d[0] != '0' ==> ValueOf(d) > 0)
  {
    hide ValueOf;
    var p, last := d[..|d| - 1], d[|d| - 1];
    assert d == p + [last];
    AppendDigit(p, last);
    OneDigit(last);
    if |d| == 1 {
      assert d == [last];
    } else {
      DecimalIsUnique(p);
      assert ValueOf(d) / 10 == ValueOf(p) && ValueOf(d) % 10 == last as int - '0' as int;
    }
  }

  /** Reading one part off the front. */
  lemma {:induction false} PartsOf(d: string, rest: string)
    requires '.' !in d
    ensures Parts(d + "." + rest) == [d] + Parts(rest)
    ensures Parts(d) == [d]
  {
    if d == "" {
      assert d + "." + rest == "." + rest;
      assert ("." + rest)[1..] == rest;
    } else {
      var s := d + "." + rest;
      assert s[1..] == d[1..] + "." + rest && s[0] == d[0];
      PartsOf(d[1..], rest);
      assert [d[0]] + d[1..] == d;
    }
  }

  function Join(parts: seq<string>): string
    requires parts != []
  {
    if |parts| == 1 then parts[0] else parts[0] + "." + Join(parts[1..])
  }

  lemma {:induction false} JoinParts(s: string)
    ensures Join(Parts(s)) == s
  {
    if s != "" {
      JoinParts(s[1..]);
      var rest := Parts(s[1..]);
      if s[0] == '.' {
        assert ([""] + rest)[1..] == rest;
        assert s == "" + "." + s[1..];
      } else {
        var parts := [[s[0]] + rest[0]] + rest[1..];
        assert parts[1..] == rest[1..];
        assert s == [s[0]] + s[1..];
      }
    }
  }

  lemma DecimalHasNoDot(d: string)
    requires IsDecimal(d)
    ensures '.' !in d
  {
  }

  lemma PartsOfDotted(ip: seq<byte>)
    requires |ip| == 4
    ensures Parts(Dotted(ip)) == [Decimal(ip[0]), Decimal(ip[1]), Decimal(ip[2]), Decimal(ip[3])]
  {
    hide Decimal, Parts, IsDecimal;
    var a, b, c, d := Decimal(ip[0]), Decimal(ip[1]), Decimal(ip[2]), Decimal(ip[3]);
    forall i | 0 <= i < 4 ensures '.' !in Decimal(ip[i]) {
      DecimalReads(ip[i]);
      DecimalHasNoDot(Decimal(ip[i]));
    }
    PartsOf(a, b + "." + (c + "." + d));
    PartsOf(b, c + "." + d);
    PartsOf(c, d);
    PartsOf(d, "");
    assert Dotted(ip) == a + "." + (b + "." + (c + "." + d));
  }

  /** The string that is reported is the one that names the address. */
  lemma DottedExact(s: string, ip: seq<byte>)
    requires |ip| == 4
    ensures Names(s, ip) <==> s == Dotted(ip)
  {
    hide Decimal, Parts, IsDecimal, ValueOf, Join;
    PartsOfDotted(ip);
    forall i | 0 <= i < 4 ensures IsDecimal(Decimal(ip[i])) && ValueOf(Decimal(ip[i])) == ip[i] {
      DecimalReads(ip[i]);
    }
    if Names(s, ip) {
      forall i | 0 <= i < 4 ensures Parts(s)[i] == Decimal(ip[i]) {
        DecimalIsUnique(Parts(s)[i]);
      }
      assert Parts(s) == Parts(Dotted(ip));
      JoinParts(s);
      JoinParts(Dotted(ip));
    }
  }

  function Reversed(ip: seq<byte>): (r: seq<byte>)
    requires |ip| == 4
    ensures |r| == 4
  {
    [ip[3], ip[2], ip[1], ip[0]]
  }

  /** intToIP after ipv4ToUint32 reverses an address, so doing both twice gives it back. */
  lemma IpRoundTripReverses(ip: seq<byte>)
    requires |ip| == 4
    ensures IntToIp(Ipv4ToUint32(ip)) == Reversed(ip)
    ensures IntToIp(Ipv4ToUint32(IntToIp(Ipv4ToUint32(ip)))) == ip
  {
    PutLe32OfLe32(Reversed(ip));
    PutLe32OfLe32(Reversed(Reversed(ip)));
  }

  /** On four bytes the two byte orders agree exactly when the address reads the same backwards. */
  lemma FilterKeyExact(ip: seq<byte>)
    requires |ip| == 4
    ensures Ipv4ToUint32(ip) == Le32(ip) <==> ip == Reversed(ip)
  {
    hide PutLe32;
    PutLe32OfLe32(Reversed(ip));
    PutLe32OfLe32(ip);
    assert Ipv4ToUint32(ip) == Le32(Reversed(ip));
  }

  /** On the sixteen bytes it is given, user space computes 0 for every IPv4 address, which is the key the eBPF
      program looks up for 0.0.0.0 only. */
  lemma MappedKeyIsZero(v4: seq<byte>)
    requires |v4| == 4
    ensures Ipv4ToUint32(Mapped(v4)) == 0
    ensures Ipv4ToUint32(Mapped(v4)) == Le32(v4) <==> v4 == [0, 0, 0, 0]
  {
    hide PutLe32;
    PutLe32OfLe32(v4);
    PutLe32OfLe32([0, 0, 0, 0]);
  }
}
