/** From any sequence of packets to the metrics of user space. */
module TrafficTraces {
  import opened Wire
  import opened Matcher
  import opened MatcherTraces
  import opened EndpointIndex
  import opened Decode
  import UrlLoader

  /** One packet as the program meets it: its bytes, the filter and the clock at that moment, and whether the
      kernel can take a new map entry. */
  datatype Frame = Frame(skb: seq<byte>, filterIp: set<u32>, now: u64, storeOk: bool)
  {
    function Event(): Event {
      Classify(skb, filterIp, now, storeOk)
    }
  }

  function Events(fs: seq<Frame>): (t: Trace)
    ensures |t| == |fs| && forall i :: 0 <= i < |fs| ==> t[i] == fs[i].Event()
  {
    seq(|fs|, i requires 0 <= i < |fs| => fs[i].Event())
  }

  ghost predicate IsRequest(f: Frame) {
    && Inspected(f.skb, f.filterIp)
    && exists verb: nat :: 1 <= verb <= 6 && PayloadBegins(f.skb, MethodName(verb))
  }

  ghost predicate IsResponse(f: Frame) {
    Inspected(f.skb, f.filterIp) && PayloadBegins(f.skb, "HTTP")
  }

  ghost predicate ReportsPair(record: Packet, providers: map<Endpoint, Provider>, req: Frame, rsp: Frame)
    requires IsResponse(rsp)
  {
    var at := PayloadAt(rsp.skb);
    DecodesTo(record, providers, req.skb, req.now, rsp.skb[at + 9..at + 12], rsp.now)
  }

  /** The record comes from a request frame and a later response frame between the same two sockets, with the
      payload sizes of the two, and whatever endpoints are indexed when it is decoded, user space reports exactly
      those two. */
  ghost predicate IsReportOf(fs: seq<Frame>, record: Packet, pair: (nat, nat)) {
    && pair.0 < pair.1 < |fs|
    && var req, rsp := fs[pair.0], fs[pair.1];
       && IsRequest(req) && IsResponse(rsp) && Mirrored(req.skb, rsp.skb)
       && record.reqPayloadSize == WirePayloadSize(req.skb) && record.rspPayloadSize == WirePayloadSize(rsp.skb)
       && forall providers: map<Endpoint, Provider> :: ReportsPair(record, providers, req, rsp)
  }

  lemma RecordIsComplete(record: Packet, req: Event, rsp: Event)
    requires FromPair(record, req, rsp)
    ensures record == Complete(req.record, rsp)
  {
  }

  lemma PairReports(fs: seq<Frame>, record: Packet, pair: (nat, nat))
    ensures IsRecordOf(Events(fs), record, pair) ==> IsReportOf(fs, record, pair)
  {
    hide Classify, DecodesTo, PayloadAt, Mirrored, Inspected, PayloadBegins, Run, WirePayloadSize, UrlLoader.UrlField;
    if IsRecordOf(Events(fs), record, pair) {
      var req, rsp := fs[pair.0], fs[pair.1];
      RecordIsComplete(record, req.Event(), rsp.Event());
      ClassifyExact(req.skb, req.filterIp, req.now, req.storeOk);
      ClassifyExact(rsp.skb, rsp.filterIp, rsp.now, rsp.storeOk);
      RequestOnTheWire(req.skb, req.filterIp, req.now, req.storeOk);
      MirrorOnTheWire(req.skb, rsp.skb, req.filterIp, rsp.filterIp, req.now, rsp.now, req.storeOk, rsp.storeOk);
      forall providers: map<Endpoint, Provider> ensures ReportsPair(record, providers, req, rsp) {
        EndToEnd(req.skb, req.filterIp, req.now, req.storeOk, rsp.Event(), providers);
      }
    }
  }

  /** Every sequence of packets: the records in the ring are paired one to one, in order and without omission,
      with request and response packets, and each decodes to the report of its two packets. */
  lemma FramesReported(fs: seq<Frame>)
    ensures exists pairs: seq<(nat, nat)> ::
              && IsPairing(Events(fs), pairs)
              && forall n :: 0 <= n < |pairs| ==> IsReportOf(fs, Run(Events(fs)).ring[n], pairs[n])
  {
    hide Run, IsRecordOf, IsReportOf, HasAllMatches, OneToOne;
    var t := Events(fs);
    MatchingExact(t);
    var pairs: seq<(nat, nat)> :| IsPairing(t, pairs);
    forall n | 0 <= n < |pairs| ensures IsReportOf(fs, Run(t).ring[n], pairs[n]) {
      assert IsRecordOf(t, Run(t).ring[n], pairs[n]);
      PairReports(fs, Run(t).ring[n], pairs[n]);
    }
  }
}
