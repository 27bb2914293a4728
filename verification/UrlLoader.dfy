/** The chunked request-target loader of ebpf/http/http.c: 16 loads of 16 bytes, 12 bytes apart. */
module UrlLoader {
  import opened Wire

  const MAX_URL_LEN := 256
  const CHUNK := 16
  const STRIDE := 12

  function Min(a: int, b: int): int {
    if a < b then a else b
  }

  predicate IsEnd(b: byte) {
    b == ' ' as int || b == '?' as int
  }

  /** Where the target stops: the first space or '?', or the end of the bytes. */
  function EndOf(t: seq<byte>): (n: nat)
    ensures n <= |t|
  {
    if t == [] || IsEnd(t[0]) then 0 else EndOf(t[1..]) + 1
  }

  lemma {:induction false} EndOfIsFirst(t: seq<byte>)
    ensures EndOf(t) < |t| ==> IsEnd(t[EndOf(t)])
    ensures forall k :: 0 <= k < EndOf(t) ==> !IsEnd(t[k])
  {
    if t != [] && !IsEnd(t[0]) {
      EndOfIsFirst(t[1..]);
      assert forall k :: 1 <= k < EndOf(t) ==> t[k] == t[1..][k - 1];
    }
  }

  lemma {:induction false} EndOfTake(t: seq<byte>, n: nat)
    requires n <= |t|
    ensures EndOf(t[..n]) == Min(EndOf(t), n)
  {
    if n > 0 && !IsEnd(t[0]) {
      assert t[..n][1..] == t[1..][..n - 1];
      EndOfTake(t[1..], n - 1);
    }
  }

  lemma {:induction false} EndOfDrop(t: seq<byte>, n: nat)
    requires n <= EndOf(t)
    ensures EndOf(t[n..]) == EndOf(t) - n
  {
    if n > 0 {
      EndOfDrop(t[1..], n - 1);
      assert t[1..][n - 1..] == t[n..];
    } else {
      assert t[n..] == t;
    }
  }

  /** The bytes of the packet from `off` on. */
  function Target(skb: seq<byte>, off: nat): seq<byte> {
    if off <= |skb| then skb[off..] else []
  }

  /** A chunk after the clearing loop: everything from the terminator on is zero. */
  function Cut(c: seq<byte>): (r: seq<byte>)
    ensures |r| == |c|
  {
    c[..EndOf(c)] + Zeros(|c| - EndOf(c))
  }

  /** What n rounds of the loop leave in a zeroed buffer, for any stride up to the chunk size. */
  function Chunks(t: seq<byte>, stride: nat, n: nat): (r: seq<byte>)
    requires stride <= CHUNK
    ensures |r| == CHUNK * n
    decreases n, t
  {
    if n == 0 then []
    else if |t| < CHUNK then Zeros(CHUNK * n)
    else if EndOf(t) < CHUNK then Cut(t[..CHUNK]) + Zeros(CHUNK * (n - 1))
    else t[..CHUNK] + Chunks(t[stride..], stride, n - 1)
  }

  /** Where chunk i begins, for the stride the code has and for the stride without overlap. */
  function ChunkStart(stride: nat, i: int): int
    requires stride == STRIDE || stride == CHUNK
  {
    if stride == STRIDE then STRIDE * i else CHUNK * i
  }

  /** Closed form: byte j of chunk i. The chunk is filled only when it lies in the packet and no chunk before
      it holds the end of the target. */
  function ChunkByte(t: seq<byte>, stride: nat, i: nat, j: nat): byte
    requires j < CHUNK && (stride == STRIDE || stride == CHUNK)
  {
    var at := ChunkStart(stride, i);
    if at + CHUNK <= |t| && (i == 0 || ChunkStart(stride, i - 1) + CHUNK <= EndOf(t)) && at + j < EndOf(t)
    then t[at + j] else 0
  }

  /** Chunk i + 1 of a target is chunk i of what follows the first stride. */
  lemma ChunkByteShift(t: seq<byte>, stride: nat, i: nat, j: nat)
    requires stride == STRIDE || stride == CHUNK
    requires j < CHUNK <= EndOf(t)
    ensures ChunkByte(t, stride, i + 1, j) == ChunkByte(t[stride..], stride, i, j)
  {
    hide EndOf;
    EndOfDrop(t, stride);
  }

  /** A chunk that does not load, or that holds the end, is the last one with anything in it. */
  lemma ChunkByteAfter(t: seq<byte>, stride: nat, i: nat, j: nat)
    requires stride == STRIDE || stride == CHUNK
    requires j < CHUNK && (|t| < CHUNK || (i > 0 && EndOf(t) < CHUNK))
    ensures ChunkByte(t, stride, i, j) == 0
  {
    hide EndOf;
  }

  lemma ChunkByteFirst(t: seq<byte>, stride: nat, j: nat)
    requires stride == STRIDE || stride == CHUNK
    requires j < CHUNK <= |t|
    ensures ChunkByte(t, stride, 0, j) == if j < EndOf(t) then t[j] else 0
  {
    hide EndOf;
  }

  lemma {:induction false} ChunksAt(t: seq<byte>, stride: nat, n: nat, i: nat, j: nat)
    requires stride == STRIDE || stride == CHUNK
    requires i < n && j < CHUNK
    ensures Chunks(t, stride, n)[CHUNK * i + j] == ChunkByte(t, stride, i, j)
    decreases n
  {
    hide ChunkByte, ChunkStart, EndOf;
    if |t| < CHUNK {
      ChunkByteAfter(t, stride, i, j);
    } else {
      EndOfTake(t, CHUNK);
      if i == 0 {
        ChunkByteFirst(t, stride, j);
      } else if EndOf(t) < CHUNK {
        ChunkByteAfter(t, stride, i, j);
      } else {
        ChunkByteShift(t, stride, i - 1, j);
        ChunksAt(t[stride..], stride, n - 1, i - 1, j);
      }
    }
  }

  lemma CutAt(c: seq<byte>)
    ensures forall k :: 0 <= k < |c| ==> Cut(c)[k] == if k < EndOf(c) then c[k] else 0
  {
    hide EndOf;
  }

  /** The clearing loop over one loaded chunk. */
  method ClearFromEnd(p: array<byte>, at: nat) returns (finished: bool)
    requires at + CHUNK <= p.Length
    modifies p
    ensures p[..] == old(p[..at]) + Cut(old(p[at..at + CHUNK])) + old(p[at + CHUNK..])
    ensures finished <==> EndOf(old(p[at..at + CHUNK])) < CHUNK
  {
    hide EndOf, IsEnd, Cut;
    ghost var c := p[at..at + CHUNK];
    EndOfIsFirst(c);
    CutAt(c);
    finished := false;
    for j := 0 to CHUNK
      invariant finished <==> EndOf(c) < j
      invariant forall k :: 0 <= k < j ==> p[at + k] == Cut(c)[k]
      invariant forall k :: j <= k < CHUNK ==> p[at + k] == c[k]
      invariant forall k :: 0 <= k < p.Length && !(at <= k < at + CHUNK) ==> p[k] == old(p[k])
    {
      assert p[at + j] == c[j];
      if !finished && IsEnd(p[at + j]) {
        p[at + j] := 0;
        finished := true;
      } else if finished {
        p[at + j] := 0;
      }
    }
    assert p[at..at + CHUNK] == Cut(c);
    assert p[..] == p[..at] + p[at..at + CHUNK] + p[at + CHUNK..];
  }

  /** What the loop leaves in the packet's URL field. */
  function UrlBuffer(t: seq<byte>): (buf: seq<byte>)
    ensures |buf| == MAX_URL_LEN
  {
    Chunks(t, STRIDE, 16)
  }

  /** Every byte of it in closed form. */
  lemma UrlBufferAt(t: seq<byte>, k: nat)
    requires k < MAX_URL_LEN
    ensures UrlBuffer(t)[k] == ChunkByte(t, STRIDE, k / 16, k % 16)
  {
    ChunksAt(t, STRIDE, 16, k / 16, k % 16);
  }

  // ---------------------------------------------------------------- the same on the packet itself

  /** No space (32) and no question mark (63) among these bytes of the packet. */
  predicate NoEnd(skb: seq<byte>, from: nat, to: nat)
    requires to <= |skb|
  {
    forall m :: from <= m < to ==> skb[m] != 32 && skb[m] != 63
  }

  /** Byte j of chunk i of the URL field: that byte of the packet, if the chunk's 16 bytes are in the packet and
      there is no end in the chunks before nor in this one up to the byte itself; otherwise zero. */
  function UrlByte(skb: seq<byte>, poffset: nat, i: nat, j: nat): byte
    requires j < 16
  {
    var at := poffset + 12 * i;
    if at + 16 <= |skb| && NoEnd(skb, poffset, at + j + 1) && (i > 0 ==> NoEnd(skb, poffset, at + 4))
    then skb[at + j] else 0
  }

  /** The whole URL field that a packet gives. */
  function UrlField(skb: seq<byte>, poffset: nat): (buf: seq<byte>)
    ensures |buf| == 256
  {
    seq(256, k requires 0 <= k < 256 => UrlByte(skb, poffset, k / 16, k % 16))
  }

  lemma NoEndExact(skb: seq<byte>, poffset: nat, n: nat)
    requires poffset + n <= |skb|
    ensures NoEnd(skb, poffset, poffset + n) <==> n <= EndOf(Target(skb, poffset))
  {
    var t := Target(skb, poffset);
    EndOfIsFirst(t);
    hide EndOf;
    if EndOf(t) < |t| {
      assert t[EndOf(t)] == skb[poffset + EndOf(t)];
    }
    if n <= EndOf(t) {
      forall m | poffset <= m < poffset + n ensures skb[m] != 32 && skb[m] != 63 {
        assert skb[m] == t[m - poffset];
      }
    }
  }

  lemma UrlByteExact(skb: seq<byte>, poffset: nat, i: nat, j: nat)
    requires j < 16
    ensures UrlByte(skb, poffset, i, j) == ChunkByte(Target(skb, poffset), STRIDE, i, j)
  {
    hide EndOf, NoEnd;
    if poffset + 12 * i + 16 <= |skb| {
      NoEndExact(skb, poffset, 12 * i + j + 1);
      NoEndExact(skb, poffset, 12 * i + 4);
    }
  }

  /** The buffer of the loop is the URL field of the packet. */
  lemma UrlOnTheWire(skb: seq<byte>, poffset: nat)
    ensures UrlBuffer(Target(skb, poffset)) == UrlField(skb, poffset)
  {
    hide UrlBuffer, ChunkByte, UrlByte, Target;
    forall k | 0 <= k < 256 ensures UrlBuffer(Target(skb, poffset))[k] == UrlField(skb, poffset)[k] {
      UrlBufferAt(Target(skb, poffset), k);
      UrlByteExact(skb, poffset, k / 16, k % 16);
    }
  }

  /** One chunk of the buffer, and whether the loop stops after it. */
  function FirstChunk(t: seq<byte>): (c: seq<byte>)
    ensures |c| == CHUNK
  {
    if |t| < CHUNK then Zeros(CHUNK) else Cut(t[..CHUNK])
  }

  predicate Stops(t: seq<byte>) {
    |t| < CHUNK || EndOf(t) < CHUNK
  }

  /** One round of the loop, on the specification side. */
  lemma ChunksStep(all: seq<byte>, before: seq<byte>, t: seq<byte>, n: nat)
    requires n > 0 && all == before + Chunks(t, STRIDE, n)
    ensures all == (before + FirstChunk(t)) +
              if Stops(t) then Zeros(CHUNK * (n - 1)) else Chunks(t[STRIDE..], STRIDE, n - 1)
  {
    hide EndOf;
    if |t| >= CHUNK {
      EndOfTake(t, CHUNK);
    } else {
      assert Zeros(CHUNK * n) == Zeros(CHUNK) + Zeros(CHUNK * (n - 1));
    }
    assert Chunks(t, STRIDE, n) == FirstChunk(t) +
      if Stops(t) then Zeros(CHUNK * (n - 1)) else Chunks(t[STRIDE..], STRIDE, n - 1);
  }

  /** The body of the outer loop: load one chunk, clear it from the terminator on. */
  method LoadChunk(skb: seq<byte>, off: nat, p: array<byte>, at: nat) returns (finished: bool)
    requires at + CHUNK <= p.Length
    modifies p
    ensures p[..] == old(p[..])[..at] + FirstChunk(Target(skb, off)) + old(p[..])[at + CHUNK..]
    ensures finished <==> Stops(Target(skb, off))
  {
    hide Cut;
    ghost var t := Target(skb, off);
    assert p[..][..at] == p[..at] && p[..][at + CHUNK..] == p[at + CHUNK..];
    var result := SkbLoadBytes(skb, off, p, at, CHUNK);
    if result == 0 {
      assert t[..CHUNK] == Load(skb, off, CHUNK) by {
        assert t == skb[off..];
      }
      assert p[at..at + CHUNK] == p[..][at..at + CHUNK] == Load(skb, off, CHUNK);
      assert p[..at] == old(p[..at]) && p[at + CHUNK..] == old(p[at + CHUNK..]);
      EndOfTake(t, CHUNK);
      finished := ClearFromEnd(p, at);
    } else {
      finished := true;
    }
  }

  /** After i rounds the buffer holds the first i chunks and zeros, and rest is still to come. */
  predicate AfterRounds(buf: seq<byte>, all: seq<byte>, rest: seq<byte>, i: nat) {
    && i <= 16 && |buf| == MAX_URL_LEN
    && buf[CHUNK * i..] == Zeros(CHUNK * (16 - i)) && all == buf[..CHUNK * i] + rest
  }

  /** What a round leaves to come. */
  function Rest(t: seq<byte>, n: nat): seq<byte> {
    if Stops(t) then Zeros(CHUNK * n) else Chunks(t[STRIDE..], STRIDE, n)
  }

  lemma OneRound(buf: seq<byte>, buf': seq<byte>, all: seq<byte>, t: seq<byte>, i: nat)
    requires i < 16 && AfterRounds(buf, all, Chunks(t, STRIDE, 16 - i), i)
    requires buf' == buf[..CHUNK * i] + FirstChunk(t) + buf[CHUNK * i + CHUNK..]
    ensures AfterRounds(buf', all, Rest(t, 15 - i), i + 1)
  {
    hide Chunks, FirstChunk, Stops;
    ChunksStep(all, buf[..CHUNK * i], t, 16 - i);
    assert buf'[..CHUNK * (i + 1)] == buf[..CHUNK * i] + FirstChunk(t);
    assert buf'[CHUNK * (i + 1)..] == buf[CHUNK * i..][CHUNK..];
  }

  lemma LastRound(buf: seq<byte>, all: seq<byte>, rest: seq<byte>, i: nat)
    requires AfterRounds(buf, all, rest, i) && rest == Zeros(CHUNK * (16 - i))
    ensures buf == all
  {
    assert buf == buf[..CHUNK * i] + buf[CHUNK * i..];
  }

  lemma NoRound(buf: seq<byte>, all: seq<byte>)
    requires buf == Zeros(MAX_URL_LEN)
    ensures AfterRounds(buf, all, all, 0)
  {
    assert buf[..0] + all == all;
  }

  /** __load_url_to_map on a zeroed 256-byte buffer. */
  method LoadUrlToMap(skb: seq<byte>, poffset: nat, p: array<byte>)
    requires p.Length == MAX_URL_LEN && p[..] == Zeros(MAX_URL_LEN)
    modifies p
    ensures p[..] == UrlBuffer(Target(skb, poffset)) == UrlField(skb, poffset)
  {
    hide Chunks, UrlField, FirstChunk, Stops, Target, Zeros, AfterRounds;
    ghost var all := UrlBuffer(Target(skb, poffset));
    ghost var rest := all;
    NoRound(p[..], all);
    var finished := false;
    var off: nat := poffset;
    var i := 0;
    while i < 16 && !finished
      invariant 0 <= i <= 16
      invariant AfterRounds(p[..], all, rest, i)
      invariant rest == if finished then Zeros(CHUNK * (16 - i)) else Chunks(Target(skb, off), STRIDE, 16 - i)
    {
      ghost var t, buf := Target(skb, off), p[..];
      finished := LoadChunk(skb, off, p, CHUNK * i);
      OneRound(buf, p[..], all, t, i);
      rest := Rest(t, 15 - i);
      if !finished {
        NotStopped(skb, off);
        off := off + STRIDE;
      }
      i := i + 1;
    }
    NothingLeft(rest, Target(skb, off));
    LastRound(p[..], all, rest, i);
    UrlOnTheWire(skb, poffset);
  }

  lemma NothingLeft(rest: seq<byte>, t: seq<byte>)
    ensures rest == Chunks(t, STRIDE, 0) ==> rest == Zeros(0)
  {
  }

  lemma NotStopped(skb: seq<byte>, off: nat)
    requires !Stops(Target(skb, off))
    ensures Target(skb, off + STRIDE) == Target(skb, off)[STRIDE..]
  {
  }

  /** How many of the 16 loads find all their bytes in the packet. */
  function Loads(t: seq<byte>, stride: nat): (m: nat)
    requires stride > 0
    ensures m <= 16
  {
    if |t| < CHUNK then 0 else Min(16, (|t| - CHUNK) / stride + 1)
  }

  lemma LoadsFit(t: seq<byte>)
    ensures var m := Loads(t, STRIDE);
            (m > 0 ==> STRIDE * (m - 1) + CHUNK <= |t|) && (m < 16 ==> |t| < STRIDE * m + CHUNK)
    ensures var m := Loads(t, CHUNK);
            (m > 0 ==> CHUNK * (m - 1) + CHUNK <= |t|) && (m < 16 ==> |t| < CHUNK * m + CHUNK)
  {
  }

  /** The buffer with the first four bytes of every chunk but the first dropped. */
  function Recovered(buf: seq<byte>): (r: seq<byte>)
    requires |buf| == MAX_URL_LEN
    ensures |r| == 196
  {
    seq(196, k requires 0 <= k < 196 => if k < 16 then buf[k] else buf[CHUNK * ((k - 4) / 12) + 4 + (k - 4) % 12])
  }

  lemma RecoveredByte(t: seq<byte>, i: nat, j: nat)
    requires i < 16 && j < CHUNK && (i > 0 ==> j >= 4)
    ensures var m := Loads(t, STRIDE);
            var reach := Min(EndOf(t), if m == 0 then 0 else 12 * m + 4);
            ChunkByte(t, STRIDE, i, j) == if 12 * i + j < reach then t[12 * i + j] else 0
  {
    hide EndOf;
    LoadsFit(t);
  }

  /** Every packet: dropping the repeated bytes gives back the contiguous prefix of the target, up to its
      terminator or the last byte any load reached. */
  lemma RecoveredIsPrefix(t: seq<byte>)
    ensures var m := Loads(t, STRIDE);
            var reach := Min(EndOf(t), if m == 0 then 0 else 12 * m + 4);
            reach <= 196 && Recovered(UrlBuffer(t)) == t[..reach] + Zeros(196 - reach)
  {
    hide EndOf;
    var m := Loads(t, STRIDE);
    var reach := Min(EndOf(t), if m == 0 then 0 else 12 * m + 4);
    var want := t[..reach] + Zeros(196 - reach);
    forall k | 0 <= k < 196
      ensures Recovered(UrlBuffer(t))[k] == want[k]
    {
      var i := if k < 16 then 0 else (k - 4) / 12;
      RecoveredByte(t, i, k - 12 * i);
      UrlBufferAt(t, 16 * i + (k - 12 * i));
      assert (16 * i + (k - 12 * i)) / 16 == i && (16 * i + (k - 12 * i)) % 16 == k - 12 * i;
    }
  }

  /** A stride equal to the chunk size would leave exactly the target, as far as whole chunks fit. */
  lemma FullStrideIsPrefix(t: seq<byte>)
    ensures var n := Min(EndOf(t), CHUNK * Loads(t, CHUNK));
            n <= 256 && Chunks(t, CHUNK, 16) == t[..n] + Zeros(MAX_URL_LEN - n)
  {
    hide EndOf, Chunks;
    var n := Min(EndOf(t), CHUNK * Loads(t, CHUNK));
    var want := t[..n] + Zeros(MAX_URL_LEN - n);
    forall k | 0 <= k < 256
      ensures Chunks(t, CHUNK, 16)[k] == want[k]
    {
      ChunksAt(t, CHUNK, 16, k / 16, k % 16);
      LoadsFit(t);
    }
  }

  /** The chunk that first covers position e of the target. */
  function ChunkOf(e: nat): (s: nat)
    ensures e < 12 * s + 16 && (s > 0 ==> 12 * s + 4 <= e)
  {
    if e < 16 then 0 else (e - 4) / 12
  }

  /** Length of the decoded string: a terminator in chunk s >= 1 comes 4 * s bytes late. */
  function DecodedLength(t: seq<byte>): (n: nat)
    ensures n <= MAX_URL_LEN
  {
    var s := ChunkOf(EndOf(t));
    var m := Loads(t, STRIDE);
    if s < m then EndOf(t) + 4 * s else 16 * m
  }

  lemma DecodedByte(t: seq<byte>, i: nat, j: nat)
    requires i < 16 && j < CHUNK
    ensures var b := ChunkByte(t, STRIDE, i, j);
            if CHUNK * i + j < DecodedLength(t) then 12 * i + j < EndOf(t) && b == t[12 * i + j] else b == 0
  {
    hide EndOf;
    LoadsFit(t);
    var s := ChunkOf(EndOf(t));
    assert i < s ==> 12 * i + 16 <= EndOf(t);
    assert i > s ==> EndOf(t) < 12 * i + 4;
  }

  /** Every byte of the buffer: up to the decoded length, the target with each chunk four bytes further on. */
  lemma BufferByte(t: seq<byte>, k: nat)
    requires k < 256
    ensures k < DecodedLength(t) ==>
              0 <= k - 4 * (k / 16) < EndOf(t) && UrlBuffer(t)[k] == t[k - 4 * (k / 16)]
    ensures k >= DecodedLength(t) ==> UrlBuffer(t)[k] == 0
  {
    hide EndOf, DecodedLength, ChunkByte;
    UrlBufferAt(t, k);
    DecodedByte(t, k / 16, k % 16);
  }

  /** The bytes from the 13th on repeat with period four, as far as n. */
  predicate Repeats(t: seq<byte>, n: nat)
    requires n <= |t|
  {
    forall k :: 16 <= k < n ==> t[k] == t[k - 4]
  }

  lemma {:induction false} RepeatsShift(t: seq<byte>, n: nat, k: nat, q: nat)
    requires n <= |t| && Repeats(t, n) && k < n && 4 * q <= k && (q > 0 ==> k - 4 * q >= 12)
    ensures t[k] == t[k - 4 * q]
    decreases q
  {
    if q > 0 {
      RepeatsShift(t, n, k, q - 1);
      assert t[k - 4 * (q - 1)] == t[k - 4 * (q - 1) - 4];
    }
  }

  lemma {:induction false} ShiftRepeats(t: seq<byte>, n: nat, k: nat)
    requires n <= |t| && 16 <= k < n
    requires forall i :: 0 <= i < n ==> t[i] == t[i - 4 * (i / 16)]
    ensures t[k] == t[k - 4]
    decreases k
  {
    var q := k / 16;
    assert t[k - 4] == t[k - 4 - 4 * ((k - 4) / 16)];
    if k % 16 >= 4 {
      assert (k - 4) / 16 == q;
      ShiftRepeats(t, n, k - 4 * q);
    } else {
      assert (k - 4) / 16 == q - 1;
    }
  }

  lemma IsTrimmedExact(t: seq<byte>, n: nat)
    requires n <= |t| && n <= 256
    ensures TrimNul(UrlBuffer(t)) == t[..n] <==> IsTrimmed(UrlBuffer(t), t, n)
  {
    hide UrlBuffer, TrimNul;
    var buf, x := UrlBuffer(t), t[..n];
    TrimNulExact(buf, x);
    if TrimNul(buf) == x {
      forall k | 0 <= k < n ensures buf[k] == t[k] {
        assert buf[..n][k] == x[k];
      }
    }
    if IsTrimmed(buf, t, n) {
      assert buf[..n] == x;
    }
  }

  /** The terminator lies in the first chunk, and that chunk loads. */
  lemma ShortExact(t: seq<byte>)
    requires EndOf(t) < 16 <= |t|
    ensures IsTrimmed(UrlBuffer(t), t, EndOf(t)) <==> (EndOf(t) > 0 ==> t[EndOf(t) - 1] != 0)
  {
    hide EndOf, UrlBuffer;
    assert DecodedLength(t) == EndOf(t);
    hide DecodedLength;
    var buf, n := UrlBuffer(t), EndOf(t);
    forall k | 0 <= k < 256
      ensures buf[k] == if k < n then t[k] else 0
    {
      BufferByte(t, k);
    }
  }

  /** A later loaded chunk holds the terminator: the last byte of the target comes out too far on. */
  lemma LateIsLonger(t: seq<byte>)
    requires 1 <= ChunkOf(EndOf(t)) < Loads(t, STRIDE)
    ensures var last := EndOf(t) + 4 * ChunkOf(EndOf(t)) - 1;
            && last < 256 && UrlBuffer(t)[last] == t[EndOf(t) - 1]
            && forall k :: last < k < 256 ==> UrlBuffer(t)[k] == 0
  {
    var s := ChunkOf(EndOf(t));
    var last := EndOf(t) + 4 * s - 1;
    assert DecodedLength(t) == last + 1;
    hide EndOf, DecodedLength, UrlBuffer, Loads;
    assert last / 16 == s;
    forall k | last <= k < 256 ensures UrlBuffer(t)[k] == if k == last then t[EndOf(t) - 1] else 0 {
      BufferByte(t, k);
    }
  }

  /** Loads that run out before any of them holds the terminator leave the target if its tail repeats; the
      overlap may leave less than one period after it, of NULs only. */
  predicate Overlaps(t: seq<byte>, n: nat, m: nat)
    requires n <= |t|
  {
    && 16 * m - 4 < n <= 16 * m && Repeats(t, n)
    && forall j :: n - 4 * (m - 1) <= j < 12 * m + 4 ==> 0 <= j < |t| && t[j] == 0
  }

  /** What m loads leave, none of which holds the terminator. */
  predicate Unterminated(buf: seq<byte>, t: seq<byte>, m: nat) {
    && |buf| == 256 && 16 * m <= 256 && (m > 0 ==> 12 * m + 4 <= |t|)
    && (forall k :: 0 <= k < 16 * m ==> buf[k] == t[k - 4 * (k / 16)])
    && (forall k :: 16 * m <= k < 256 ==> buf[k] == 0)
  }

  predicate IsTrimmed(buf: seq<byte>, t: seq<byte>, n: nat)
    requires n <= |t| && n <= |buf| == 256
  {
    && (n > 0 ==> t[n - 1] != 0)
    && (forall k :: 0 <= k < n ==> buf[k] == t[k])
    && (forall k :: n <= k < 256 ==> buf[k] == 0)
  }

  lemma UnterminatedAt(buf: seq<byte>, t: seq<byte>, m: nat, k: nat)
    requires Unterminated(buf, t, m) && k < 256
    ensures 16 * m <= 256 == |buf|
    ensures k < 16 * m ==> 0 <= k - 4 * (k / 16) < |t| && buf[k] == t[k - 4 * (k / 16)]
    ensures k >= 16 * m ==> buf[k] == 0
  {
  }

  lemma TrimmedAt(buf: seq<byte>, t: seq<byte>, n: nat, k: nat)
    requires n <= |t| && n <= |buf| == 256 && IsTrimmed(buf, t, n) && k < 256
    ensures buf[k] == if k < n then t[k] else 0
    ensures n > 0 ==> t[n - 1] != 0
  {
  }

  lemma OverlapFits(buf: seq<byte>, t: seq<byte>, n: nat, m: nat)
    requires n <= |t| && n <= 256 && Unterminated(buf, t, m) && Overlaps(t, n, m) && (n > 0 ==> t[n - 1] != 0)
    ensures IsTrimmed(buf, t, n)
  {
    hide Repeats, Unterminated;
    UnterminatedAt(buf, t, m, 0);
    forall k | 0 <= k < 256 ensures buf[k] == if k < n then t[k] else 0 {
      UnterminatedAt(buf, t, m, k);
      if k < n {
        RepeatsShift(t, n, k, k / 16);
      } else if k < 16 * m {
        assert k / 16 == m - 1;
        assert t[k - 4 * (m - 1)] == 0;
      }
    }
  }

  lemma FitsRepeats(buf: seq<byte>, t: seq<byte>, n: nat, m: nat)
    requires n <= |t| && n <= 256 && Unterminated(buf, t, m) && IsTrimmed(buf, t, n)
    ensures n <= 16 * m && Repeats(t, n)
  {
    hide Unterminated, IsTrimmed;
    UnterminatedAt(buf, t, m, if n > 0 then n - 1 else 0);
    TrimmedAt(buf, t, n, if n > 0 then n - 1 else 0);
    forall k | 0 <= k < n ensures t[k] == t[k - 4 * (k / 16)] {
      UnterminatedAt(buf, t, m, k);
      TrimmedAt(buf, t, n, k);
    }
    forall k | 16 <= k < n ensures t[k] == t[k - 4] {
      ShiftRepeats(t, n, k);
    }
  }

  lemma LastIsRepeated(t: seq<byte>, n: nat)
    requires 16 <= n <= |t| && Repeats(t, n)
    ensures n + 3 - 4 * ((n + 3) / 16) < n && t[n + 3 - 4 * ((n + 3) / 16)] == t[n - 1]
  {
    hide Repeats;
    RepeatsShift(t, n, n - 1, (n + 3) / 16 - 1);
  }

  lemma FitsOverlap(buf: seq<byte>, t: seq<byte>, n: nat, m: nat)
    requires 16 <= n <= |t| && n <= 256 && Unterminated(buf, t, m)
    ensures IsTrimmed(buf, t, n) ==> Overlaps(t, n, m)
  {
    hide Repeats, Unterminated, IsTrimmed;
    UnterminatedAt(buf, t, m, 0);
    if IsTrimmed(buf, t, n) {
      FitsRepeats(buf, t, n, m);
      LastIsRepeated(t, n);
      assert 16 * m - 4 < n by {
        if n + 3 < 16 * m {
          UnterminatedAt(buf, t, m, n + 3);
          TrimmedAt(buf, t, n, n + 3);
        }
      }
      forall j | n - 4 * (m - 1) <= j < 12 * m + 4 ensures 0 <= j < |t| && t[j] == 0 {
        var k := j + 4 * (m - 1);
        assert k / 16 == m - 1;
        UnterminatedAt(buf, t, m, k);
        TrimmedAt(buf, t, n, k);
      }
    }
  }

  lemma LoadsRunOut(t: seq<byte>)
    requires Loads(t, STRIDE) <= ChunkOf(EndOf(t))
    ensures Unterminated(UrlBuffer(t), t, Loads(t, STRIDE))
    ensures Loads(t, STRIDE) > 0 ==> 12 * Loads(t, STRIDE) + 4 <= EndOf(t)
  {
    hide EndOf, UrlBuffer;
    var m, buf := Loads(t, STRIDE), UrlBuffer(t);
    LoadsFit(t);
    hide Loads;
    assert DecodedLength(t) == 16 * m;
    hide DecodedLength;
    forall k | 0 <= k < 256
      ensures k < 16 * m ==> 0 <= k - 4 * (k / 16) < |t| && buf[k] == t[k - 4 * (k / 16)]
      ensures k >= 16 * m ==> buf[k] == 0
    {
      BufferByte(t, k);
    }
  }

  lemma RunOutExact(buf: seq<byte>, t: seq<byte>, n: nat, m: nat)
    requires n <= |t| && n <= 256 && Unterminated(buf, t, m)
    requires m > 0 ==> n >= 16
    ensures IsTrimmed(buf, t, n) <==> (n > 0 ==> t[n - 1] != 0) && Overlaps(t, n, m)
  {
    if (n > 0 ==> t[n - 1] != 0) && Overlaps(t, n, m) {
      OverlapFits(buf, t, n, m);
    }
    if IsTrimmed(buf, t, n) {
      FitsRepeats(buf, t, n, m);
      hide Unterminated, IsTrimmed;
      if n > 0 {
        FitsOverlap(buf, t, n, m);
      }
    }
  }

  /** Without NULs in the target, only whole chunks can end with it. */
  lemma NoNulOverlap(t: seq<byte>, n: nat, m: nat)
    requires n == Min(EndOf(t), 256) && 0 !in t[..EndOf(t)]
    requires m > 0 ==> 12 * m + 4 <= EndOf(t)
    ensures Overlaps(t, n, m) <==> n == 16 * m && Repeats(t, n)
  {
    hide EndOf, Repeats;
    if Overlaps(t, n, m) && m > 0 {
      var j := n - 4 * (m - 1);
      assert n < 16 * m ==> 0 <= j < EndOf(t);
      assert 0 <= j < EndOf(t) ==> t[j] in t[..EndOf(t)];
    }
  }

  /** The end lies in the first chunk and that chunk loads, or the loads end with the target and its tail
      repeats with period four; and trimming takes nothing from the target itself. */
  predicate UrlFits(t: seq<byte>, end: nat, n: nat)
    requires n <= |t|
  {
    (n > 0 ==> t[n - 1] != 0) && ((end < 16 <= |t|) || Overlaps(t, n, Loads(t, 12)))
  }

  /** The first byte that is a space or a question mark, or else the end of the bytes. */
  predicate IsEndOf(t: seq<byte>, end: nat) {
    && end <= |t| && (end < |t| ==> t[end] == 32 || t[end] == 63)
    && forall m :: 0 <= m < end ==> t[m] != 32 && t[m] != 63
  }

  lemma EndIs(t: seq<byte>, end: nat)
    requires IsEndOf(t, end)
    ensures end == EndOf(t)
  {
    EndOfIsFirst(t);
  }

  lemma TrimmedExact(t: seq<byte>, n: nat)
    requires n == Min(EndOf(t), 256)
    ensures IsTrimmed(UrlBuffer(t), t, n) <==> UrlFits(t, EndOf(t), n)
  {
    hide EndOf, UrlBuffer, ChunkByte, Overlaps, IsTrimmed, Unterminated, ChunkOf, Loads;
    var m := Loads(t, STRIDE);
    if EndOf(t) < 16 <= |t| {
      ShortExact(t);
    } else if ChunkOf(EndOf(t)) < m {
      LateIsWrong(t, n, m);
    } else {
      LoadsRunOut(t);
      RunOutExact(UrlBuffer(t), t, n, m);
    }
  }

  /** Exactly when the URL that user space decodes is the request target up to its first space or '?', cut
      at 256 bytes. */
  lemma UrlExact(t: seq<byte>, end: nat)
    requires IsEndOf(t, end)
    ensures var n := Min(end, 256);
            TrimNul(UrlField(t, 0)) == t[..n] <==> UrlFits(t, end, n)
  {
    hide EndOf, UrlBuffer, UrlField, ChunkByte, TrimNul, UrlFits, IsTrimmed;
    EndIs(t, end);
    assert Target(t, 0) == t;
    UrlOnTheWire(t, 0);
    TrimmedExact(t, Min(end, 256));
    IsTrimmedExact(t, Min(end, 256));
  }

  lemma LateIsWrong(t: seq<byte>, n: nat, m: nat)
    requires n == Min(EndOf(t), 256) && m == Loads(t, STRIDE) && !(EndOf(t) < 16 <= |t|) && ChunkOf(EndOf(t)) < m
    ensures !IsTrimmed(UrlBuffer(t), t, n) && !Overlaps(t, n, m)
  {
    hide EndOf, UrlBuffer, ChunkByte, Repeats, Loads, ChunkOf, IsTrimmed;
    LoadsFit(t);
    assert ChunkOf(EndOf(t)) > 0;
    LateIsLonger(t);
    assert n == EndOf(t) && m >= 2;
    if IsTrimmed(UrlBuffer(t), t, n) {
      TrimmedAt(UrlBuffer(t), t, n, EndOf(t) + 4 * ChunkOf(EndOf(t)) - 1);
    }
  }

  /** The same for targets without NULs: the loads must end exactly with the target. */
  lemma UrlExactNoNul(t: seq<byte>, end: nat)
    requires IsEndOf(t, end) && 0 !in t[..end]
    ensures var n := Min(end, 256);
            TrimNul(UrlField(t, 0)) == t[..n] <==> (end < 16 <= |t|) || (n == 16 * Loads(t, 12) && Repeats(t, n))
  {
    hide EndOf, UrlBuffer, UrlField, ChunkByte, TrimNul, Repeats, Unterminated, Loads, ChunkOf, Overlaps;
    var n, m := Min(end, 256), Loads(t, STRIDE);
    UrlExact(t, end);
    EndIs(t, end);
    assert n > 0 ==> t[n - 1] in t[..EndOf(t)];
    if !(EndOf(t) < 16 <= |t|) {
      if m <= ChunkOf(EndOf(t)) {
        LoadsRunOut(t);
        NoNulOverlap(t, n, m);
      } else {
        LateIsWrong(t, n, m);
        LoadsFit(t);
      }
    }
  }

  /** How the rest fails: a terminated target of 16 to 195 bytes is followed by four bytes too many for every
      chunk before its end, and a payload that ends within 16 bytes of the target's start comes out empty. */
  lemma UrlFailures(t: seq<byte>, end: nat)
    requires IsEndOf(t, end)
    ensures 16 <= end && 12 * ChunkOf(end) + 16 <= |t| && end < 196 ==>
              var late := end + 4 * ChunkOf(end);
              var url := TrimNul(UrlField(t, 0));
              end < late && |url| <= late && (|url| == late <==> t[end - 1] != 0)
    ensures |t| < 16 ==> TrimNul(UrlField(t, 0)) == []
  {
    hide EndOf, UrlBuffer, UrlField, TrimNul;
    EndIs(t, end);
    assert Target(t, 0) == t;
    UrlOnTheWire(t, 0);
    var buf := UrlBuffer(t);
    TrimNulExact(buf, TrimNul(buf));
    LoadsFit(t);
    if 16 <= EndOf(t) && 12 * ChunkOf(EndOf(t)) + 16 <= |t| && EndOf(t) < 196 {
      LateIsLonger(t);
      var late := EndOf(t) + 4 * ChunkOf(EndOf(t));
      if t[EndOf(t) - 1] != 0 {
        TrimNulExact(buf, buf[..late]);
      }
    }
    if |t| < 16 {
      forall k | 0 <= k < 256 ensures buf[k] == 0 {
        BufferByte(t, k);
      }
      TrimNulExact(buf, []);
    }
  }
}
