/** Fixed-width values, packet bytes and the helper the eBPF programs use to read them. */
module Wire {

  type byte = x: int | 0 <= x < 0x100
  type u16 = x: int | 0 <= x < 0x1_0000
  type u32 = x: int | 0 <= x < 0x1_0000_0000
  type u64 = x: int | 0 <= x < 0x1_0000_0000_0000_0000

  datatype Option<T> = None | Some(value: T)

  lemma SubsetSize<T>(a: set<T>, b: set<T>)
    requires a <= b
    ensures |a| <= |b|
  {
    assert |b - a| == |b| - |a|;
  }

  function Zeros(n: nat): (z: seq<byte>)
    ensures |z| == n && forall k :: 0 <= k < n ==> z[k] == 0
  {
    seq(n, _ => 0)
  }

  /** A number as the bytes of little-endian memory, and back. */
  function Le16(b: seq<byte>): u16
    requires |b| == 2
  {
    b[0] as int + 0x100 * b[1] as int
  }

  function Le32(b: seq<byte>): u32
    requires |b| == 4
  {
    b[0] as int + 0x100 * b[1] as int + 0x1_0000 * b[2] as int + 0x100_0000 * b[3] as int
  }

  function PutLe16(x: u16): (b: seq<byte>)
    ensures |b| == 2
  {
    [x % 0x100, x / 0x100]
  }

  function PutLe32(x: u32): (b: seq<byte>)
    ensures |b| == 4
  {
    [x % 0x100, x / 0x100 % 0x100, x / 0x1_0000 % 0x100, x / 0x100_0000]
  }

  function PutBe16(x: u16): (b: seq<byte>)
    ensures |b| == 2
  {
    [x / 0x100, x % 0x100]
  }

  /** Ntohs and Htons alike: store big-endian, read back in the little-endian order of the host. */
  function Ntohs(x: u16): u16 {
    Le16(PutBe16(x))
  }

  /** A big-endian pair of wire bytes, loaded as it lies into a u16, is put right by Ntohs. */
  lemma NtohsOfWire(b: seq<byte>)
    requires |b| == 2
    ensures Ntohs(Le16(b)) == 0x100 * b[0] as int + b[1] as int
    ensures PutLe16(Le16(b)) == b
  {
    assert PutLe16(Le16(b))[0] == b[0] && PutLe16(Le16(b))[1] == b[1];
  }

  lemma PutLe32OfLe32(b: seq<byte>)
    requires |b| == 4
    ensures PutLe32(Le32(b)) == b
  {
    var x := Le32(b);
    assert x / 0x100 == b[1] as int + 0x100 * b[2] as int + 0x1_0000 * b[3] as int;
    assert x / 0x1_0000 == b[2] as int + 0x100 * b[3] as int;
    assert x / 0x100_0000 == b[3];
  }

  lemma Le32OfPutLe32(x: u32)
    ensures Le32(PutLe32(x)) == x
  {
    var y := x / 0x100;
    var z := x / 0x1_0000;
    assert z == y / 0x100 && x / 0x100_0000 == z / 0x100;
    assert x == x % 0x100 + 0x100 * y && y == y % 0x100 + 0x100 * z && z == z % 0x100 + 0x100 * (z / 0x100);
  }

  lemma Le16OfPutLe16(x: u16)
    ensures Le16(PutLe16(x)) == x
  {
  }

  /** bpf_skb_load_bytes: all of the range or, when any of it lies outside the packet, zeros and an error. */
  predicate InPacket(skb: seq<byte>, off: nat, len: nat) {
    off + len <= |skb|
  }

  function Load(skb: seq<byte>, off: nat, len: nat): (b: seq<byte>)
    ensures |b| == len
  {
    if InPacket(skb, off, len) then skb[off..off + len] else Zeros(len)
  }

  method SkbLoadBytes(skb: seq<byte>, off: nat, p: array<byte>, at: nat, len: nat) returns (result: int)
    requires at + len <= p.Length
    modifies p
    ensures p[..] == old(p[..at]) + Load(skb, off, len) + old(p[at + len..])
    ensures result == if InPacket(skb, off, len) then 0 else -14
  {
    var b := Load(skb, off, len);
    forall k | 0 <= k < len {
      p[at + k] := b[k];
    }
    result := if InPacket(skb, off, len) then 0 else -14;
    assert forall k :: 0 <= k < len ==> p[at + k] == b[k];
    assert p[at..at + len] == b;
    assert p[..] == p[..at] + p[at..at + len] + p[at + len..];
  }

  /** strings.TrimRight(s, "\x00"). */
  function TrimNul(s: seq<byte>): seq<byte> {
    if s != [] && s[|s| - 1] == 0 then TrimNul(s[..|s| - 1]) else s
  }

  /** What trimming gives: the one prefix that does not end in NUL and leaves nothing but NULs. */
  lemma {:induction false} TrimNulExact(s: seq<byte>, x: seq<byte>)
    ensures TrimNul(s) == x <==>
            && |x| <= |s| && s[..|x|] == x && (x != [] ==> x[|x| - 1] != 0)
            && forall k :: |x| <= k < |s| ==> s[k] == 0
    decreases |s|
  {
    if s != [] && s[|s| - 1] == 0 {
      var p := s[..|s| - 1];
      TrimNulExact(p, x);
      assert forall k :: 0 <= k < |p| ==> p[k] == s[k];
      if |x| < |s| {
        assert p[..|x|] == s[..|x|];
      } else if |x| == |s| && s[..|x|] == x {
        assert x[|x| - 1] == 0;
      }
    } else {
      assert s[..|s|] == s;
    }
  }
}
