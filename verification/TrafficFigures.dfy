/** From any sequence of packets to the requests, errors and durations reported of a pod. */
module TrafficFigures {
  import opened Wire
  import opened AddressOrder
  import opened Matcher
  import opened MatcherTraces
  import opened EndpointIndex
  import opened Decode
  import opened TrafficTraces
  import opened RedWindow

  type Index = map<Endpoint, Provider>

  /** The metrics of the records decoded so far, the n-th with the endpoints indexed at that moment. */
  function Decoded(ring: seq<Packet>, indexes: seq<Index>): seq<Traffic>
    requires |indexes| <= |ring|
  {
    if indexes == [] then []
    else
      var n := |indexes| - 1;
      Decoded(ring, indexes[..n]) +
      match DecodeMapItem(Deserialize(Serialize(ring[n])), indexes[n])
      case Some(x) => [x]
      case None => []
  }

  /** What one exchange means for a pod: a request, an error if the status is above 499, and whole
      milliseconds of latency, if the request's destination is indexed under the pod. */
  function Figures(req: Frame, rsp: Frame, index: Index, pod: string): Tally {
    var h := HeaderBytes(req.skb);
    var dst := Endpoint(Dotted(h[16..20]), Be16At(h, 22));
    if dst in index && index[dst].podName == pod then
      Tally(1, if Atoi(GoString(Load(rsp.skb, PayloadAt(rsp.skb) + 9, 3))) > 499 then 1 else 0,
            (rsp.now - req.now) % 0x1_0000_0000 / 1_000_000)
    else ZERO
  }

  predicate InRange(fs: seq<Frame>, pairs: seq<(nat, nat)>) {
    forall n :: 0 <= n < |pairs| ==> pairs[n].0 < |fs| && pairs[n].1 < |fs|
  }

  /** The same over the exchanges decoded so far. */
  function Served(fs: seq<Frame>, pairs: seq<(nat, nat)>, indexes: seq<Index>, pod: string): Tally
    requires InRange(fs, pairs) && |indexes| <= |pairs|
  {
    if indexes == [] then ZERO
    else
      var n := |indexes| - 1;
      Served(fs, pairs, indexes[..n], pod).Plus(Figures(fs[pairs[n].0], fs[pairs[n].1], indexes[n], pod))
  }

  lemma WholeMilliseconds(ns: u32)
    ensures Truncate(Milliseconds(ns)) == ns / 1_000_000
  {
    var q := ns / 1_000_000;
    assert 1_000_000 * q <= ns < 1_000_000 * (q + 1);
    assert q as real <= Milliseconds(ns) < (q + 1) as real;
  }

  /** The metric of a record adds to a pod's tally what the two packets of the record mean for the pod. */
  lemma OneServed(fs: seq<Frame>, record: Packet, pair: (nat, nat), index: Index, pod: string)
    requires pair.0 < |fs| && pair.1 < |fs|
    ensures TrafficTraces.IsReportOf(fs, record, pair) ==>
              var x := DecodeMapItem(Deserialize(Serialize(record)), index);
              Figures(fs[pair.0], fs[pair.1], index, pod) == if x.Some? then Weight(x.value, pod) else ZERO
  {
    hide DecodeMapItem, Deserialize, Serialize, Dotted, GoString, Atoi, Truncate, Milliseconds, HeaderBytes, PayloadAt;
    hide Be16At, Inspected, Mirrored, StartsWith;
    var req, rsp := fs[pair.0], fs[pair.1];
    if TrafficTraces.IsReportOf(fs, record, pair) {
      assert ReportsPair(record, index, req, rsp);
      var at := PayloadAt(rsp.skb);
      assert Load(rsp.skb, at + 9, 3) == rsp.skb[at + 9..at + 12];
      WholeMilliseconds((rsp.now - req.now) % 0x1_0000_0000);
      DestinationIs(Endpoint(Dotted(HeaderBytes(req.skb)[16..20]), Be16At(HeaderBytes(req.skb), 22)), req.skb);
    }
  }

  lemma DecodedStep(ring: seq<Packet>, indexes: seq<Index>, pod: string)
    requires 0 < |indexes| <= |ring|
    ensures var n := |indexes| - 1;
            var x := DecodeMapItem(Deserialize(Serialize(ring[n])), indexes[n]);
            TallyOf(Decoded(ring, indexes), pod) ==
              TallyOf(Decoded(ring, indexes[..n]), pod).Plus(if x.Some? then Weight(x.value, pod) else ZERO)
  {
    hide DecodeMapItem, Deserialize, Serialize, Weight, TallyOf;
    var n := |indexes| - 1;
    var x := DecodeMapItem(Deserialize(Serialize(ring[n])), indexes[n]);
    if x.Some? {
      TallyAppend(Decoded(ring, indexes[..n]), x.value, pod);
    } else {
      assert Decoded(ring, indexes) == Decoded(ring, indexes[..n]);
    }
  }

  lemma {:induction false} DecodedTally(fs: seq<Frame>, ring: seq<Packet>, pairs: seq<(nat, nat)>,
                                        indexes: seq<Index>, pod: string)
    requires |indexes| <= |ring| == |pairs| && InRange(fs, pairs)
    requires forall n :: 0 <= n < |pairs| ==> TrafficTraces.IsReportOf(fs, ring[n], pairs[n])
    ensures TallyOf(Decoded(ring, indexes), pod) == Served(fs, pairs, indexes, pod)
  {
    hide DecodeMapItem, Deserialize, Serialize, Figures, Weight, TrafficTraces.IsReportOf, Decoded, TallyOf;
    if indexes == [] {
      NothingDecoded(ring, pod);
    } else {
      var n := |indexes| - 1;
      DecodedTally(fs, ring, pairs, indexes[..n], pod);
      OneServed(fs, ring[n], pairs[n], indexes[n], pod);
      DecodedStep(ring, indexes, pod);
    }
  }

  lemma NothingDecoded(ring: seq<Packet>, pod: string)
    ensures TallyOf(Decoded(ring, []), pod) == ZERO
  {
  }

  /** A run of the aggregator on the metrics of those records, with its ticks anywhere between them. */
  ghost predicate Receives(inputs: seq<Input>, ring: seq<Packet>, indexes: seq<Index>)
    requires |indexes| <= |ring|
  {
    TicksReport(inputs) && Messages(inputs) == Decoded(ring, indexes)
  }

  /** Every sequence of packets, whatever is indexed when each record is decoded, and wherever the ticks fall:
      what is reported of a pod, plus its open window, adds up to the exchanges between a request packet to one
      of the pod's endpoints and the response packet paired with it. */
  lemma PodFigures(fs: seq<Frame>, indexes: seq<Index>, inputs: seq<Input>)
    requires |indexes| <= |Run(Events(fs)).ring|
    ensures exists pairs: seq<(nat, nat)> ::
              && IsPairing(Events(fs), pairs) && InRange(fs, pairs) && |indexes| <= |pairs|
              && (Receives(inputs, Run(Events(fs)).ring, indexes) ==>
                    forall pod :: Reported(Gather(inputs).sent, pod).Plus(TallyOf(Gather(inputs).window, pod)) ==
                                  Served(fs, pairs, indexes, pod))
  {
    hide Run, Decoded, TallyOf, Reported, Served, TicksReport, Gather, Messages, HasAllMatches, OneToOne;
    var ring := Run(Events(fs)).ring;
    FramesReported(fs);
    var pairs: seq<(nat, nat)> :|
      IsPairing(Events(fs), pairs) && forall n :: 0 <= n < |pairs| ==> TrafficTraces.IsReportOf(fs, ring[n], pairs[n]);
    assert InRange(fs, pairs);
    hide TrafficTraces.IsReportOf;
    if Receives(inputs, ring, indexes) {
      GatherAccounts(inputs);
      forall pod
        ensures Reported(Gather(inputs).sent, pod).Plus(TallyOf(Gather(inputs).window, pod)) ==
                Served(fs, pairs, indexes, pod)
      {
        DecodedTally(fs, ring, pairs, indexes, pod);
      }
    }
  }

  lemma {:induction false} DecodedDurations(ring: seq<Packet>, indexes: seq<Index>)
    requires |indexes| <= |ring|
    ensures forall m :: m in Decoded(ring, indexes) ==> 0.0 <= m.duration < 4295.0
  {
    hide Deserialize, Serialize, Dotted, GoString, TrimNul, Ntohs, MethodToString;
    if indexes != [] {
      DecodedDurations(ring, indexes[..|indexes| - 1]);
    }
  }

  /** Decoded durations are in range, so in every window of every run a pod's total stays within 4294
      milliseconds a request. */
  lemma WindowDurationBound(ring: seq<Packet>, indexes: seq<Index>, inputs: seq<Input>, pod: string)
    requires |indexes| <= |ring| && Messages(inputs) == Decoded(ring, indexes)
    ensures var t := TallyOf(Gather(inputs).window, pod);
            0 <= t.duration <= 4294 * t.requests
  {
    hide Decoded, Gather, Messages, TallyOf;
    DecodedDurations(ring, indexes);
    WindowOfMessages(inputs);
    DurationBound(Gather(inputs).window, pod);
  }
}
