/** The HTTP request/response matcher of ebpf/http/http.c: one packet is one step. */
module Matcher {
  import opened Wire
  import UrlLoader

  const MAX_MAP_CONN := 1024 * 16
  const ETH_HLEN := 14
  const ETH_P_IP := 0x0800
  const IPPROTO_TCP := 6
  const T_HTTP := 1

  datatype ConnKey = ConnKey(srcIp: u32, dstIp: u32, srcPort: u16, dstPort: u16)

  type Status = s: seq<byte> | |s| == 3 witness [0, 0, 0]
  type UrlField = s: seq<byte> | |s| == UrlLoader.MAX_URL_LEN witness seq(256, _ => 0)

  datatype Packet = Packet(
    kind: u32, verb: u32, dstIp: u32, dstPort: u16, srcIp: u32, srcPort: u16, duration: u32,
    reqPayloadSize: u32, rspPayloadSize: u32, status: Status, url: UrlField)
  {
    function Key(): ConnKey {
      ConnKey(srcIp, dstIp, srcPort, dstPort)
    }
  }

  // ---------------------------------------------------------------- payload classification

  function IsHttpRequest(p: seq<byte>): (verb: nat)
    requires |p| == 12
    ensures verb <= 6
  {
    if p[0] == 'G' as int && p[1] == 'E' as int && p[2] == 'T' as int then 1
    else if p[0] == 'P' as int && p[1] == 'O' as int && p[2] == 'S' as int && p[3] == 'T' as int then 2
    else if p[0] == 'P' as int && p[1] == 'U' as int && p[2] == 'T' as int then 3
    else if p[0] == 'D' as int && p[1] == 'E' as int && p[2] == 'L' as int && p[3] == 'E' as int &&
            p[4] == 'T' as int && p[5] == 'E' as int then 4
    else if p[0] == 'H' as int && p[1] == 'E' as int && p[2] == 'A' as int && p[3] == 'D' as int then 5
    else if p[0] == 'P' as int && p[1] == 'A' as int && p[2] == 'T' as int && p[3] == 'C' as int &&
            p[4] == 'H' as int then 6
    else 0
  }

  function MethodLen(verb: nat): nat {
    if verb == 1 then 3
    else if verb == 2 then 4
    else if verb == 3 then 3
    else if verb == 4 then 6
    else if verb == 5 then 4
    else if verb == 6 then 5
    else 0
  }

  predicate IsHttpResponse(p: seq<byte>)
    requires |p| == 12
  {
    p[0] == 'H' as int && p[1] == 'T' as int && p[2] == 'T' as int && p[3] == 'P' as int
  }

  // ---------------------------------------------------------------- headers

  datatype Headers = Headers(
    saddr: u32, daddr: u32, source: u16, dest: u16, totLen: u16, ipHlen: nat, tcpHlen: nat)
  {
    function PayloadOffset(): nat {
      ETH_HLEN + ipHlen + tcpHlen
    }

    /** Unsigned 32-bit subtraction, as in the C expression. */
    function PayloadSize(): u32 {
      (Ntohs(totLen) - ipHlen - tcpHlen) % 0x1_0000_0000
    }
  }

  function ParseHeaders(skb: seq<byte>): Headers {
    var iph := Load(skb, ETH_HLEN, 20);
    var tcph := Load(skb, ETH_HLEN + 20, 20);
    Headers(Le32(iph[12..16]), Le32(iph[16..20]), Le16(tcph[0..2]), Le16(tcph[2..4]), Le16(iph[2..4]),
            iph[0] % 16 * 4, tcph[12] / 16 * 4)
  }

  predicate IsTcp(skb: seq<byte>) {
    Ntohs(Le16(Load(skb, 12, 2))) == ETH_P_IP && Load(skb, ETH_HLEN + 9, 1)[0] == IPPROTO_TCP
  }

  /** __check_target_ip. */
  predicate NotTarget(filterIp: set<u32>, ip: u32) {
    ip !in filterIp
  }

  /** The record of a request, before a response fills in the rest. */
  function RequestRecord(skb: seq<byte>, now: u64): Packet
  {
    var h := ParseHeaders(skb);
    var verb := IsHttpRequest(Load(skb, h.PayloadOffset(), 12));
    var url := UrlLoader.UrlBuffer(UrlLoader.Target(skb, h.PayloadOffset() + MethodLen(verb) + 1));
    Packet(T_HTTP, verb, h.daddr, h.dest, h.saddr, h.source, now % 0x1_0000_0000, h.PayloadSize(), 0, [0, 0, 0], url)
  }

  // ---------------------------------------------------------------- the step

  /** What one packet means to the matcher. `storeOk` and `now` come from outside: whether the kernel can
      take a new map entry, apart from the map being full, and the monotonic clock. */
  datatype Event =
    | Ignored
    | Request(record: Packet, storeOk: bool)
    | Response(key: ConnKey, now: u64, payloadSize: u32, status: Status)

  function Classify(skb: seq<byte>, filterIp: set<u32>, now: u64, storeOk: bool): Event {
    if !IsTcp(skb) then Ignored else
      var h := ParseHeaders(skb);
      if !NotTarget(filterIp, h.saddr) && !NotTarget(filterIp, h.daddr) then Ignored else
        var pre := Load(skb, h.PayloadOffset(), 12);
        if IsHttpRequest(pre) != 0 then Request(RequestRecord(skb, now), storeOk)
        else if IsHttpResponse(pre) then
          Response(ConnKey(h.daddr, h.saddr, h.dest, h.source), now, h.PayloadSize(), pre[9..12])
        else Ignored
  }

  datatype MatcherState = MatcherState(requests: map<ConnKey, Packet>, ring: seq<Packet>)

  const INITIAL := MatcherState(map[], [])

  /** bpf_map_update_elem with BPF_ANY on a hash map of MAX_MAP_CONN entries. */
  predicate CanStore(requests: map<ConnKey, Packet>, k: ConnKey, storeOk: bool) {
    storeOk && (k in requests || |requests| < MAX_MAP_CONN)
  }

  /** The duration field holds the truncated start time until the response turns it into the difference. */
  function Complete(req: Packet, e: Event): Packet
    requires e.Response?
  {
    req.(duration := (e.now - req.duration) % 0x1_0000_0000, rspPayloadSize := e.payloadSize, status := e.status)
  }

  function Step(s: MatcherState, e: Event): MatcherState {
    match e
    case Ignored => s
    case Request(record, storeOk) =>
      if CanStore(s.requests, record.Key(), storeOk)
      then s.(requests := s.requests[record.Key() := record])
      else s
    case Response(key, _, _, _) =>
      if key in s.requests
      then MatcherState(s.requests - {key}, s.ring + [Complete(s.requests[key], e)])
      else s
  }

  class SocketFilter {
    var requestMap: map<ConnKey, Packet>
    var ring: seq<Packet>
    var filterIp: set<u32>

    constructor ()
      ensures State() == INITIAL && filterIp == {}
    {
      requestMap, ring, filterIp := map[], [], {};
    }

    function State(): MatcherState
      reads this
    {
      MatcherState(requestMap, ring)
    }

    /** bpf_map_update_elem(&request_map, &k, &p, BPF_ANY). */
    method UpdateElem(k: ConnKey, p: Packet, storeOk: bool)
      modifies `requestMap
      ensures requestMap ==
                if storeOk && (k in old(requestMap) || |old(requestMap)| < 16384)
                then old(requestMap)[k := p] else old(requestMap)
    {
      if storeOk && (k in requestMap || |requestMap| < MAX_MAP_CONN) {
        requestMap := requestMap[k := p];
      }
    }

    /** socket__filter_http. */
    method FilterHttp(skb: seq<byte>, now: u64, storeOk: bool) returns (ret: int)
      modifies `requestMap, `ring
      ensures State() == Step(old(State()), Classify(skb, filterIp, now, storeOk))
      ensures ret == match Classify(skb, filterIp, now, storeOk)
                     case Ignored => -1
                     case Request(_, _) => 0
                     case Response(key, _, _, _) => if key in old(requestMap) then 0 else -1
    {
      hide IsHttpRequest, IsHttpResponse, MethodLen, ParseHeaders, Load, Le16, Ntohs;
      hide UrlLoader.UrlBuffer, UrlLoader.Target, Headers.PayloadSize, Headers.PayloadOffset;
      if Ntohs(Le16(Load(skb, 12, 2))) != ETH_P_IP {
        return -1;
      }
      if Load(skb, ETH_HLEN + 9, 1)[0] != IPPROTO_TCP {
        return -1;
      }
      var h := ParseHeaders(skb);
      if !NotTarget(filterIp, h.saddr) && !NotTarget(filterIp, h.daddr) {
        return -1;
      }
      var poffset := h.PayloadOffset();
      var preChar := Load(skb, poffset, 12);
      var verb := IsHttpRequest(preChar);
      if verb != 0 {
        var url := new byte[256](_ => 0);
        assert url[..] == Zeros(256);
        UrlLoader.LoadUrlToMap(skb, poffset + MethodLen(verb) + 1, url);
        var p := Packet(T_HTTP, verb, h.daddr, h.dest, h.saddr, h.source, now % 0x1_0000_0000,
                        h.PayloadSize(), 0, [0, 0, 0], url[..]);
        var k := ConnKey(h.saddr, h.daddr, h.source, h.dest);
        UpdateElem(k, p, storeOk);
      } else if IsHttpResponse(preChar) {
        var k := ConnKey(h.daddr, h.saddr, h.dest, h.source);
        if k !in requestMap {
          return -1;
        }
        var req := requestMap[k];
        req := req.(duration := (now - req.duration) % 0x1_0000_0000);
        requestMap := requestMap[k := req];
        req := req.(rspPayloadSize := h.PayloadSize());
        requestMap := requestMap[k := req];
        req := req.(status := preChar[9..12]);
        requestMap := requestMap[k := req];
        ring := ring + [req];
        requestMap := requestMap - {k};
        assert requestMap == old(requestMap) - {k};
      } else {
        return -1;
      }
      return 0;
    }
  }
}
