/** From the ring buffer to a traffic metric: plugins/http/ebpf.go and the layout in http_bpfel_x86.go. */
module Decode {
  import opened Wire
  import opened Matcher
  import UrlLoader
  import opened EndpointIndex
  import opened AddressOrder

  datatype Traffic = Traffic(
    kind: int, flow: int, dstIp: string, dstPort: int, srcIp: string, srcPort: int, duration: real,
    verb: string, url: string, code: string, provider: Provider)

  const RECORD_LEN := 296

  /** struct packet in little-endian memory; the compiler pads after each port and at the end. */
  function Serialize(p: Packet): (b: seq<byte>)
    ensures |b| == RECORD_LEN
  {
    PutLe32(p.kind) + PutLe32(p.verb) +
    PutLe32(p.dstIp) + PutLe16(p.dstPort) + Zeros(2) +
    PutLe32(p.srcIp) + PutLe16(p.srcPort) + Zeros(2) +
    PutLe32(p.duration) + PutLe32(p.reqPayloadSize) + PutLe32(p.rspPayloadSize) +
    p.status + p.url + Zeros(1)
  }

  /** binary.Read into httpPacket. */
  function Deserialize(b: seq<byte>): Packet
    requires |b| == RECORD_LEN
  {
    Packet(Le32(b[0..4]), Le32(b[4..8]), Le32(b[8..12]), Le16(b[12..14]), Le32(b[16..20]), Le16(b[20..22]),
           Le32(b[24..28]), Le32(b[28..32]), Le32(b[32..36]), b[36..39], b[39..295])
  }

  /** And at the offsets of the structure that http_bpfel_x86.go declares. */
  lemma RoundTrip(p: Packet)
    ensures Deserialize(Serialize(p)) == p
    ensures var b := Serialize(p);
            && b[0..4] == PutLe32(p.kind) && b[4..8] == PutLe32(p.verb)
            && b[8..12] == PutLe32(p.dstIp) && b[12..14] == PutLe16(p.dstPort)
            && b[16..20] == PutLe32(p.srcIp) && b[20..22] == PutLe16(p.srcPort)
            && b[24..28] == PutLe32(p.duration) && b[28..32] == PutLe32(p.reqPayloadSize)
            && b[32..36] == PutLe32(p.rspPayloadSize) && b[36..39] == p.status && b[39..295] == p.url
  {
    var b := Serialize(p);
    hide Le32, Le16, PutLe32, PutLe16;
    assert b[0..4] == PutLe32(p.kind);
    assert b[4..8] == PutLe32(p.verb);
    assert b[8..12] == PutLe32(p.dstIp);
    assert b[12..14] == PutLe16(p.dstPort);
    assert b[16..20] == PutLe32(p.srcIp);
    assert b[20..22] == PutLe16(p.srcPort);
    assert b[24..28] == PutLe32(p.duration);
    assert b[28..32] == PutLe32(p.reqPayloadSize);
    assert b[32..36] == PutLe32(p.rspPayloadSize);
    assert b[36..39] == p.status && b[39..295] == p.url;
    Le32OfPutLe32(p.kind);
    Le32OfPutLe32(p.verb);
    Le32OfPutLe32(p.dstIp);
    Le32OfPutLe32(p.srcIp);
    Le32OfPutLe32(p.duration);
    Le32OfPutLe32(p.reqPayloadSize);
    Le32OfPutLe32(p.rspPayloadSize);
    Le16OfPutLe16(p.dstPort);
    Le16OfPutLe16(p.srcPort);
  }

  function MethodToString(verb: u32): string {
    match verb
    case 1 => "GET"
    case 2 => "POST"
    case 3 => "PUT"
    case 4 => "DELETE"
    case 5 => "HEAD"
    case 6 => "PATCH"
    case _ => ""
  }

  /** string(b): one char per byte. */
  function GoString(b: seq<byte>): (s: string)
    ensures |s| == |b| && forall i :: 0 <= i < |s| ==> s[i] as int == b[i]
  {
    seq(|b|, i requires 0 <= i < |b| => b[i] as char)
  }

  function Milliseconds(ns: u32): (ms: real)
    ensures ms * 1_000_000.0 == ns as real
    ensures 0.0 <= ms < 4295.0
  {
    ns as real / 1_000_000.0
  }

  function DecodeMapItem(p: Packet, providers: map<Endpoint, Provider>): Option<Traffic> {
    var dst := Endpoint(Dotted(IntToIp(p.dstIp)), Ntohs(p.dstPort));
    if dst in providers then
      Some(Traffic(p.kind, 1, dst.ip, Ntohs(p.dstPort), Dotted(IntToIp(p.srcIp)), Ntohs(p.srcPort),
                   Milliseconds(p.duration), MethodToString(p.verb), GoString(TrimNul(p.url)), GoString(p.status),
                   providers[dst]))
    else None
  }

  predicate StartsWith(b: seq<byte>, s: string) {
    |s| <= |b| && forall i :: 0 <= i < |s| ==> b[i] == s[i] as int
  }

  /** The methods the program knows, by their numbers. */
  function MethodName(verb: nat): string
    requires 1 <= verb <= 6
  {
    ["GET", "POST", "PUT", "DELETE", "HEAD", "PATCH"][verb - 1]
  }

  /** The classifier returns the one method whose name the payload starts with; the length table measures it,
      and user space gives it back. */
  lemma IsHttpRequestExact(p: seq<byte>)
    requires |p| == 12
    ensures forall verb :: 1 <= verb <= 6 ==> (IsHttpRequest(p) == verb <==> StartsWith(p, MethodName(verb)))
    ensures forall verb :: 1 <= verb <= 6 ==>
              MethodToString(verb) == MethodName(verb) && MethodLen(verb) == |MethodName(verb)|
    ensures IsHttpRequest(p) == 0 || !IsHttpResponse(p)
  {
    forall verb | 1 <= verb <= 6 && StartsWith(p, MethodName(verb))
      ensures IsHttpRequest(p) == verb
    {
      var s := MethodName(verb);
      assert p[0] == s[0] as int && p[1] == s[1] as int && p[2] == s[2] as int;
      assert |s| > 3 ==> p[3] == s[3] as int;
      assert |s| > 4 ==> p[4] == s[4] as int;
      assert |s| > 5 ==> p[5] == s[5] as int;
    }
  }

  function Be16At(skb: seq<byte>, at: nat): u16
    requires at + 2 <= |skb|
  {
    0x100 * skb[at] as int + skb[at + 1] as int
  }

  lemma SliceOfSlice(b: seq<byte>, at: nat, len: nat, i: nat, j: nat)
    requires at + len <= |b| && i <= j <= len
    ensures b[at..at + len][i..j] == b[at + i..at + j]
  {
    var whole := b[at..at + len];
    forall k | 0 <= k < j - i
      ensures whole[i..j][k] == b[at + i..at + j][k]
    {
      assert whole[i + k] == b[at + i + k];
    }
    assert whole[i..j] == b[at + i..at + j];
  }

  /** The 20 bytes of IPv4 header and 20 of TCP header that the program sees: those of the packet, or zeros where
      a header is cut short. */
  function HeaderBytes(skb: seq<byte>): (h: seq<byte>)
    ensures |h| == 40
    ensures |skb| >= 54 ==> h == skb[14..54]
  {
    Load(skb, ETH_HLEN, 20) + Load(skb, ETH_HLEN + 20, 20)
  }

  /** The parsed fields as those bytes, ports and length in network order. */
  lemma HeadersOnTheWire(skb: seq<byte>)
    ensures var h := ParseHeaders(skb);
            var b := HeaderBytes(skb);
            PutLe32(h.saddr) == b[12..16] && PutLe32(h.daddr) == b[16..20] &&
            Ntohs(h.source) == Be16At(b, 20) && Ntohs(h.dest) == Be16At(b, 22) &&
            Ntohs(h.totLen) == Be16At(b, 2) &&
            h.ipHlen == b[0] % 16 * 4 && h.tcpHlen == b[32] / 16 * 4
  {
    hide Le32, Le16, PutLe32, PutLe16, Ntohs, Load;
    FieldsOf(skb);
    var b := HeaderBytes(skb);
    PutLe32OfLe32(b[12..16]);
    PutLe32OfLe32(b[16..20]);
    NtohsOfWire(b[20..22]);
    NtohsOfWire(b[22..24]);
    NtohsOfWire(b[2..4]);
  }

  lemma FieldsOf(skb: seq<byte>)
    ensures var b := HeaderBytes(skb);
            ParseHeaders(skb) ==
              Headers(Le32(b[12..16]), Le32(b[16..20]), Le16(b[20..22]), Le16(b[22..24]), Le16(b[2..4]),
                      b[0] % 16 * 4, b[32] / 16 * 4)
  {
    hide Le32, Le16, Load;
    var ip, tcp := Load(skb, ETH_HLEN, 20), Load(skb, ETH_HLEN + 20, 20);
    var b := HeaderBytes(skb);
    assert b[..20] == ip && b[20..40] == tcp;
    SliceOfSlice(b, 0, 20, 12, 16);
    SliceOfSlice(b, 0, 20, 16, 20);
    SliceOfSlice(b, 0, 20, 2, 4);
    SliceOfSlice(b, 20, 20, 0, 2);
    SliceOfSlice(b, 20, 20, 2, 4);
  }

  /** The duration field truncates the start time and then subtracts it from the 64-bit end time. That is the
      difference modulo 2^32, and the true one exactly when the response comes within 2^32 ns. */
  lemma DurationExact(start: int, end: int)
    ensures var d := (end - start % 0x1_0000_0000) % 0x1_0000_0000;
            d == (end - start) % 0x1_0000_0000 && (d == end - start <==> 0 <= end - start < 0x1_0000_0000)
  {
    var q := start / 0x1_0000_0000;
    assert end - start % 0x1_0000_0000 == (end - start) + 0x1_0000_0000 * q;
  }

  /** Where the payload starts, by the header lengths on the wire. */
  function PayloadAt(skb: seq<byte>): nat {
    14 + HeaderBytes(skb)[0] % 16 * 4 + HeaderBytes(skb)[32] / 16 * 4
  }

  /** IPv4, TCP, and not both addresses in the filter. */
  predicate Inspected(skb: seq<byte>, filterIp: set<u32>) {
    var h := HeaderBytes(skb);
    && |skb| >= 24 && skb[12] == 8 && skb[13] == 0 && skb[23] == 6
    && !(Le32(h[12..16]) in filterIp && Le32(h[16..20]) in filterIp)
  }

  /** The packet has 12 bytes of payload, and they begin with the word. */
  predicate PayloadBegins(skb: seq<byte>, word: string) {
    PayloadAt(skb) + 12 <= |skb| && StartsWith(skb[PayloadAt(skb)..], word)
  }

  lemma InspectedExact(skb: seq<byte>, filterIp: set<u32>)
    ensures var h := ParseHeaders(skb);
            && h.PayloadOffset() == PayloadAt(skb)
            && (Inspected(skb, filterIp) <==>
                IsTcp(skb) && (NotTarget(filterIp, h.saddr) || NotTarget(filterIp, h.daddr)))
  {
    FieldsOf(skb);
    IsTcpExact(skb);
    hide Le32, Le16, IsTcp, ParseHeaders, HeaderBytes;
  }

  lemma IsTcpExact(skb: seq<byte>)
    ensures IsTcp(skb) <==> |skb| >= 24 && skb[12] == 8 && skb[13] == 0 && skb[23] == 6
  {
    hide Ntohs, Le16;
    var b := Load(skb, 12, 2);
    NtohsOfWire(b);
    if |skb| >= 14 {
      assert b == skb[12..14];
    }
  }

  lemma BeginsIffLoadBegins(skb: seq<byte>, word: string)
    requires 0 < |word| <= 12 && word[0] as int != 0
    ensures PayloadBegins(skb, word) <==> StartsWith(Load(skb, PayloadAt(skb), 12), word)
  {
    hide PayloadAt;
    var at := PayloadAt(skb);
    if InPacket(skb, at, 12) {
      assert forall i :: 0 <= i < |word| ==> skb[at..][i] == Load(skb, at, 12)[i];
    }
  }

  lemma NameIsShort(verb: nat)
    requires 1 <= verb <= 6
    ensures 3 <= |MethodName(verb)| <= 6 && MethodName(verb)[0] as int != 0
  {
  }

  /** Which packets are requests and which are responses, by their bytes. */
  lemma ClassifyExact(skb: seq<byte>, filterIp: set<u32>, now: u64, storeOk: bool)
    ensures var e := Classify(skb, filterIp, now, storeOk);
            && (e.Request? <==>
                Inspected(skb, filterIp) &&
                exists verb: nat :: 1 <= verb <= 6 && PayloadBegins(skb, MethodName(verb)))
            && (e.Response? <==> Inspected(skb, filterIp) && PayloadBegins(skb, "HTTP"))
  {
    hide ParseHeaders, Load, IsTcp, PayloadBegins, Inspected, PayloadAt, IsHttpRequest, StartsWith, MethodName;
    var pre := Load(skb, PayloadAt(skb), 12);
    InspectedExact(skb, filterIp);
    IsHttpRequestExact(pre);
    forall verb: nat | 1 <= verb <= 6
      ensures PayloadBegins(skb, MethodName(verb)) <==> StartsWith(pre, MethodName(verb))
    {
      NameIsShort(verb);
      BeginsIffLoadBegins(skb, MethodName(verb));
    }
    BeginsIffLoadBegins(skb, "HTTP");
    assert IsHttpResponse(pre) <==> StartsWith(pre, "HTTP") by {
      IsHttpResponseExact(pre);
    }
  }

  lemma IsHttpResponseExact(p: seq<byte>)
    requires |p| == 12
    ensures IsHttpResponse(p) <==> StartsWith(p, "HTTP")
  {
    if StartsWith(p, "HTTP") {
      assert p[0] == "HTTP"[0] as int && p[1] == "HTTP"[1] as int && p[2] == "HTTP"[2] as int &&
             p[3] == "HTTP"[3] as int;
    }
  }

  /** Total length less both headers, wrapped when the length on the wire is too small. */
  function WirePayloadSize(skb: seq<byte>): u32 {
    var h := HeaderBytes(skb);
    var size := Be16At(h, 2) - h[0] % 16 * 4 - h[32] / 16 * 4;
    if size >= 0 then size else size + 0x1_0000_0000
  }

  lemma PayloadSizeExact(skb: seq<byte>)
    ensures ParseHeaders(skb).PayloadSize() == WirePayloadSize(skb)
  {
    hide ParseHeaders, Ntohs, HeaderBytes;
    HeadersOnTheWire(skb);
  }

  /** The record a request packet gives, field by field from its bytes. */
  ghost predicate IsRecordOfRequest(p: Packet, skb: seq<byte>, now: u64) {
    var h := HeaderBytes(skb);
    && p.kind == 1 && 1 <= p.verb <= 6 && PayloadBegins(skb, MethodName(p.verb))
    && PutLe32(p.srcIp) == h[12..16] && PutLe32(p.dstIp) == h[16..20]
    && Ntohs(p.srcPort) == Be16At(h, 20) && Ntohs(p.dstPort) == Be16At(h, 22)
    && p.duration == now % 0x1_0000_0000
    && p.reqPayloadSize == WirePayloadSize(skb) && p.rspPayloadSize == 0 && p.status == [0, 0, 0]
    && p.url == UrlLoader.UrlField(skb, PayloadAt(skb) + |MethodName(p.verb)| + 1)
  }

  lemma RequestOnTheWire(skb: seq<byte>, filterIp: set<u32>, now: u64, storeOk: bool)
    requires Classify(skb, filterIp, now, storeOk).Request?
    ensures var e := Classify(skb, filterIp, now, storeOk);
            e.storeOk == storeOk && IsRecordOfRequest(e.record, skb, now)
  {
    hide ParseHeaders, Load, IsHttpRequest, UrlLoader.UrlBuffer, UrlLoader.UrlField, UrlLoader.Target;
    hide StartsWith, PayloadBegins, MethodName, MethodLen, HeaderBytes, PutLe32, Ntohs, WirePayloadSize, IsTcp;
    hide Headers.PayloadOffset, Headers.PayloadSize, Inspected;
    var pre := Load(skb, PayloadAt(skb), 12);
    InspectedExact(skb, filterIp);
    IsHttpRequestExact(pre);
    HeadersOnTheWire(skb);
    PayloadSizeExact(skb);
    var verb := IsHttpRequest(pre);
    NameIsShort(verb);
    BeginsIffLoadBegins(skb, MethodName(verb));
    UrlLoader.UrlOnTheWire(skb, PayloadAt(skb) + |MethodName(verb)| + 1);
  }

  /** The addresses and ports of the two packets are each other's, exchanged. */
  predicate Mirrored(req: seq<byte>, rsp: seq<byte>) {
    var q, r := HeaderBytes(req), HeaderBytes(rsp);
    q[12..16] == r[16..20] && q[16..20] == r[12..16] && q[20..22] == r[22..24] && q[22..24] == r[20..22]
  }

  /** A response takes its status from bytes 9 to 11 of the payload and its size from its headers, and it is
      looked up under exactly the requests whose addresses and ports are its own, exchanged. */
  lemma MirrorOnTheWire(req: seq<byte>, rsp: seq<byte>, filter0: set<u32>, filter1: set<u32>, t0: u64, t1: u64,
                        ok0: bool, ok1: bool)
    requires Classify(req, filter0, t0, ok0).Request? && Classify(rsp, filter1, t1, ok1).Response?
    ensures var q := Classify(req, filter0, t0, ok0);
            var r := Classify(rsp, filter1, t1, ok1);
            && r.now == t1 && PayloadAt(rsp) + 12 <= |rsp|
            && r.status == rsp[PayloadAt(rsp) + 9..PayloadAt(rsp) + 12]
            && r.payloadSize == WirePayloadSize(rsp)
            && (r.key == q.record.Key() <==> Mirrored(req, rsp))
  {
    hide IsHttpRequest, IsHttpResponse, Ntohs, Le16, Le32, PutLe32, UrlLoader.UrlBuffer, UrlLoader.Target;
    ResponseFields(rsp, filter1, t1, ok1);
    PayloadSizeExact(rsp);
    assert Classify(req, filter0, t0, ok0).record == RequestRecord(req, t0);
    hide ParseHeaders, Classify;
    WireFieldsEqual(req, rsp);
  }

  lemma ResponseFields(skb: seq<byte>, filterIp: set<u32>, now: u64, storeOk: bool)
    requires Classify(skb, filterIp, now, storeOk).Response?
    ensures var h := ParseHeaders(skb);
            var r := Classify(skb, filterIp, now, storeOk);
            && r.key == ConnKey(h.daddr, h.saddr, h.dest, h.source) && r.now == now
            && PayloadAt(skb) + 12 <= |skb| && r.status == skb[PayloadAt(skb) + 9..PayloadAt(skb) + 12]
            && r.payloadSize == h.PayloadSize()
  {
    hide IsTcp, Inspected, PayloadAt, StartsWith;
    ClassifyExact(skb, filterIp, now, storeOk);
    InspectedExact(skb, filterIp);
    hide ParseHeaders, IsHttpRequest, IsHttpResponse;
    SliceOfSlice(skb, PayloadAt(skb), 12, 9, 12);
  }

  lemma WireFieldsEqual(req: seq<byte>, rsp: seq<byte>)
    ensures var q := ParseHeaders(req);
            var r := ParseHeaders(rsp);
            Mirrored(req, rsp) <==>
            r.saddr == q.daddr && r.daddr == q.saddr && r.source == q.dest && r.dest == q.source
  {
    hide Le32, Le16, PutLe32, PutLe16, ParseHeaders, HeaderBytes;
    FieldsOf(req);
    FieldsOf(rsp);
    forall b: seq<byte> | b in [HeaderBytes(req), HeaderBytes(rsp)]
      ensures |b| == 40
      ensures PutLe32(Le32(b[12..16])) == b[12..16] && PutLe32(Le32(b[16..20])) == b[16..20]
      ensures PutLe16(Le16(b[20..22])) == b[20..22] && PutLe16(Le16(b[22..24])) == b[22..24]
    {
      PutLe32OfLe32(b[12..16]);
      PutLe32OfLe32(b[16..20]);
      NtohsOfWire(b[20..22]);
      NtohsOfWire(b[22..24]);
    }
    assert HeaderBytes(req) in [HeaderBytes(req), HeaderBytes(rsp)];
    assert HeaderBytes(rsp) in [HeaderBytes(req), HeaderBytes(rsp)];
  }

  /** What user space reports about a matched request, in terms of the request packet's own bytes, the status
      bytes of the response that closed it, and the two times. */
  ghost predicate Reports(x: Traffic, skb: seq<byte>, start: u64, status: Status, end: u64) {
    var h := HeaderBytes(skb);
    && x.kind == 1 && x.flow == 1
    && Names(x.dstIp, h[16..20]) && x.dstPort == Be16At(h, 22)
    && Names(x.srcIp, h[12..16]) && x.srcPort == Be16At(h, 20)
    && (exists verb: nat :: 1 <= verb <= 6 && x.verb == MethodName(verb)) && PayloadBegins(skb, x.verb)
    && x.url == GoString(TrimNul(UrlLoader.UrlField(skb, PayloadAt(skb) + |x.verb| + 1)))
    && x.code == GoString(status)
    && x.duration * 1_000_000.0 == ((end - start) % 0x1_0000_0000) as real
  }

  /** The endpoint the request goes to: the string that names its destination address, and its port. */
  ghost predicate IsDestination(ep: Endpoint, skb: seq<byte>) {
    Names(ep.ip, HeaderBytes(skb)[16..20]) && ep.port == Be16At(HeaderBytes(skb), 22)
  }

  /** There is a metric exactly when the request's destination is indexed, and it reports the exchange. */
  ghost predicate DecodesTo(p: Packet, providers: map<Endpoint, Provider>, skb: seq<byte>, start: u64,
                            status: Status, end: u64)
  {
    var m := DecodeMapItem(Deserialize(Serialize(p)), providers);
    && (m.Some? ==> Reports(m.value, skb, start, status, end))
    && forall dst :: IsDestination(dst, skb) ==>
         (m.Some? <==> dst in providers) && (m.Some? ==> m.value.provider == providers[dst])
  }

  lemma DestinationIs(dst: Endpoint, skb: seq<byte>)
    ensures IsDestination(dst, skb) <==> dst == Endpoint(Dotted(HeaderBytes(skb)[16..20]), Be16At(HeaderBytes(skb), 22))
  {
    hide HeaderBytes, Dotted, Be16At, Names;
    DottedExact(dst.ip, HeaderBytes(skb)[16..20]);
  }

  lemma DecodedFields(p: Packet, providers: map<Endpoint, Provider>)
    ensures var m := DecodeMapItem(p, providers);
            var dst := Endpoint(Dotted(PutLe32(p.dstIp)), Ntohs(p.dstPort));
            && (m.Some? <==> dst in providers)
            && (m.Some? ==>
                  var x := m.value;
                  && x.kind == p.kind && x.flow == 1
                  && x.dstIp == dst.ip && x.dstPort == dst.port && x.provider == providers[dst]
                  && x.srcIp == Dotted(PutLe32(p.srcIp)) && x.srcPort == Ntohs(p.srcPort)
                  && x.verb == MethodToString(p.verb) && x.url == GoString(TrimNul(p.url))
                  && x.code == GoString(p.status)
                  && x.duration == Milliseconds(p.duration))
  {
  }

  /** A request record through its completion, the record layout and decoding. */
  lemma EndToEnd(skb: seq<byte>, filterIp: set<u32>, now: u64, storeOk: bool, rsp: Event,
                 providers: map<Endpoint, Provider>)
    requires Classify(skb, filterIp, now, storeOk).Request? && rsp.Response?
    ensures DecodesTo(Complete(Classify(skb, filterIp, now, storeOk).record, rsp), providers,
                      skb, now, rsp.status, rsp.now)
  {
    hide Milliseconds, Classify, Ntohs, Le16, Le32, PutLe32, Serialize, Deserialize, Dotted, MethodToString, Names;
    hide UrlLoader.UrlField, TrimNul, PayloadBegins, PayloadAt, MethodName, WirePayloadSize, IsDestination;
    hide DecodeMapItem, GoString, HeaderBytes, MethodLen;
    var h := HeaderBytes(skb);
    var req := Classify(skb, filterIp, now, storeOk).record;
    var p := Complete(req, rsp);
    RoundTrip(p);
    DecodedFields(p, providers);
    RequestOnTheWire(skb, filterIp, now, storeOk);
    IsHttpRequestExact(Load(skb, PayloadAt(skb), 12));
    DurationExact(now, rsp.now);
    DottedExact(Dotted(h[12..16]), h[12..16]);
    DottedExact(Dotted(h[16..20]), h[16..20]);
    forall dst | IsDestination(dst, skb) ensures dst == Endpoint(Dotted(h[16..20]), Be16At(h, 22)) {
      DestinationIs(dst, skb);
    }
  }

  /** A request packet followed by its response, from any matcher state that takes the request: the ring gets
      one more record, and user space reports the exchange from the bytes of the two packets. */
  lemma Exchange(s: MatcherState, req: seq<byte>, rsp: seq<byte>, filter0: set<u32>, filter1: set<u32>,
                 t0: u64, t1: u64, ok0: bool, ok1: bool, providers: map<Endpoint, Provider>)
    requires Classify(req, filter0, t0, ok0).Request? && Classify(rsp, filter1, t1, ok1).Response?
    requires var q := Classify(req, filter0, t0, ok0);
             CanStore(s.requests, q.record.Key(), q.storeOk)
    requires Mirrored(req, rsp)
    ensures var q := Classify(req, filter0, t0, ok0);
            var r := Classify(rsp, filter1, t1, ok1);
            Step(Step(s, q), r).ring == s.ring + [Complete(q.record, r)]
    ensures PayloadAt(rsp) + 12 <= |rsp|
    ensures var record := Complete(Classify(req, filter0, t0, ok0).record, Classify(rsp, filter1, t1, ok1));
            && DecodesTo(record, providers, req, t0, rsp[PayloadAt(rsp) + 9..PayloadAt(rsp) + 12], t1)
            && record.reqPayloadSize == WirePayloadSize(req) && record.rspPayloadSize == WirePayloadSize(rsp)
  {
    hide Classify, DecodesTo, PayloadAt, Mirrored, WirePayloadSize;
    RequestOnTheWire(req, filter0, t0, ok0);
    MirrorOnTheWire(req, rsp, filter0, filter1, t0, t1, ok0, ok1);
    EndToEnd(req, filter0, t0, ok0, Classify(rsp, filter1, t1, ok1), providers);
  }
}
