/** Whole runs of the matcher: pairing, conservation, independence of connections. */
module MatcherTraces {
  import opened Wire
  import opened Matcher

  type Trace = seq<Event>

  function Run(t: Trace): MatcherState {
    if t == [] then INITIAL else Step(Run(t[..|t| - 1]), t[|t| - 1])
  }

  predicate Asks(e: Event, k: ConnKey) {
    e.Request? && e.record.Key() == k
  }

  predicate Answers(e: Event, k: ConnKey) {
    e.Response? && e.key == k
  }

  /** The q-th event is a request and the map takes it. */
  predicate Stored(t: Trace, q: nat) {
    q < |t| && t[q].Request? && CanStore(Run(t[..q]).requests, t[q].record.Key(), t[q].storeOk)
  }

  lemma StoredInPrefix(t: Trace, r: nat, q: nat)
    requires q < r <= |t|
    ensures Stored(t[..r], q) == Stored(t, q)
  {
    assert t[..r][..q] == t[..q];
  }

  /** Request q is the last one stored on its key k, and no response on k came after it. */
  ghost predicate Awaits(t: Trace, k: ConnKey, q: nat) {
    && Stored(t, q) && Asks(t[q], k)
    && forall m :: q < m < |t| ==> !Answers(t[m], k) && !(Stored(t, m) && Asks(t[m], k))
  }

  lemma AwaitsStep(t: Trace, k: ConnKey, q: nat)
    requires |t| > 0
    ensures var n := |t| - 1;
            Awaits(t, k, q) <==>
            if Stored(t, n) && Asks(t[n], k) then q == n else Awaits(t[..n], k, q) && !Answers(t[n], k)
  {
    var n := |t| - 1;
    forall m: nat | m < n ensures Stored(t[..n], m) == Stored(t, m) {
      StoredInPrefix(t, n, m);
    }
  }

  /** The request map holds exactly the requests that await their response. */
  lemma {:induction false} PendingExact(t: Trace, k: ConnKey)
    ensures k in Run(t).requests <==> exists q: nat :: Awaits(t, k, q)
    ensures forall q: nat :: Awaits(t, k, q) ==>
              q < |t| && t[q].Request? && k in Run(t).requests && Run(t).requests[k] == t[q].record
    ensures forall q: nat, q': nat :: Awaits(t, k, q) && Awaits(t, k, q') ==> q == q'
  {
    if t != [] {
      var n := |t| - 1;
      PendingExact(t[..n], k);
      forall q: nat
        ensures Awaits(t, k, q) <==>
                if Stored(t, n) && Asks(t[n], k) then q == n else Awaits(t[..n], k, q) && !Answers(t[n], k)
      {
        AwaitsStep(t, k, q);
      }
      if Stored(t, n) && Asks(t[n], k) {
        assert Awaits(t, k, n);
      } else if k in Run(t).requests {
        var q: nat :| Awaits(t[..n], k, q);
        assert Awaits(t, k, q);
      }
    }
  }

  // ---------------------------------------------------------------- matching safety

  /** Response r completes request q: same connection seen from the other end, and nothing on that
      connection, stored request or response, lies between them. */
  ghost predicate Matches(t: Trace, q: nat, r: nat) {
    r < |t| && t[r].Response? && q < r && Awaits(t[..r], t[r].key, q)
  }

  ghost predicate FromPair(record: Packet, req: Event, rsp: Event) {
    && req.Request? && rsp.Response? && req.record.Key() == record.Key() == rsp.key
    && record.kind == req.record.kind && record.verb == req.record.verb && record.url == req.record.url
    && record.reqPayloadSize == req.record.reqPayloadSize
    && record.status == rsp.status && record.rspPayloadSize == rsp.payloadSize
    && record.duration == (rsp.now - req.record.duration) % 0x1_0000_0000
  }

  ghost predicate IsRecordOf(t: Trace, record: Packet, pair: (nat, nat)) {
    Matches(t, pair.0, pair.1) && FromPair(record, t[pair.0], t[pair.1])
  }

  /** One pair for every emitted record, in the same order. */
  ghost predicate PairsRecords(t: Trace, pairs: seq<(nat, nat)>) {
    && |pairs| == |Run(t).ring|
    && forall n :: 0 <= n < |pairs| ==> IsRecordOf(t, Run(t).ring[n], pairs[n])
  }

  ghost predicate HasAllMatches(t: Trace, pairs: seq<(nat, nat)>) {
    forall q: nat, r: nat :: Matches(t, q, r) ==> (q, r) in pairs
  }

  /** Pairs come in the order of their responses; no response and no request is used twice. */
  ghost predicate OneToOne(pairs: seq<(nat, nat)>) {
    forall n, m :: 0 <= n < m < |pairs| ==> pairs[n].1 < pairs[m].1 && pairs[n].0 != pairs[m].0
  }

  ghost predicate IsPairing(t: Trace, pairs: seq<(nat, nat)>) {
    PairsRecords(t, pairs) && HasAllMatches(t, pairs) && OneToOne(pairs)
  }

  lemma MatchesInPrefix(t: Trace, n: nat, q: nat, r: nat)
    requires r < n <= |t|
    ensures Matches(t[..n], q, r) == Matches(t, q, r)
  {
    assert t[..n][..r] == t[..r];
  }

  lemma NewestRecord(t: Trace, q: nat)
    requires |t| > 0 && Matches(t, q, |t| - 1)
    ensures |Run(t).ring| == |Run(t[..|t| - 1]).ring| + 1 && Run(t[..|t| - 1]).ring <= Run(t).ring
    ensures FromPair(Run(t).ring[|Run(t).ring| - 1], t[q], t[|t| - 1])
  {
    PendingExact(t[..|t| - 1], t[|t| - 1].key);
    KeysAgree(t[..|t| - 1]);
  }

  lemma OldRecord(t: Trace, record: Packet, pair: (nat, nat))
    requires |t| > 0 && IsRecordOf(t[..|t| - 1], record, pair)
    ensures IsRecordOf(t, record, pair)
    ensures pair.0 < pair.1 < |t| - 1
  {
    hide Awaits, FromPair;
    var p := t[..|t| - 1];
    MatchesInPrefix(t, |t| - 1, pair.0, pair.1);
    assert p[pair.0] == t[pair.0] && p[pair.1] == t[pair.1];
  }

  lemma PairsRecordsStep(t: Trace, pairs: seq<(nat, nat)>, q: nat)
    requires |t| > 0 && PairsRecords(t[..|t| - 1], pairs)
    ensures Matches(t, q, |t| - 1) ==> PairsRecords(t, pairs + [(q, |t| - 1)])
    ensures Run(t).ring == Run(t[..|t| - 1]).ring ==> PairsRecords(t, pairs)
  {
    var ring := Run(t[..|t| - 1]).ring;
    if Matches(t, q, |t| - 1) {
      NewestRecord(t, q);
    }
    hide Matches, FromPair, Run;
    assert Matches(t, q, |t| - 1) ==> IsRecordOf(t, Run(t).ring[|Run(t).ring| - 1], (q, |t| - 1));
    hide IsRecordOf;
    forall m | 0 <= m < |pairs| ensures IsRecordOf(t, ring[m], pairs[m]) {
      OldRecord(t, ring[m], pairs[m]);
    }
  }

  lemma HasAllMatchesStep(t: Trace, pairs: seq<(nat, nat)>, r: nat)
    requires r == |t| - 1 && HasAllMatches(t[..r], pairs)
    ensures forall q: nat :: Matches(t, q, r) ==> HasAllMatches(t, pairs + [(q, r)])
    ensures (forall q: nat :: !Matches(t, q, r)) ==> HasAllMatches(t, pairs)
  {
    if t[r].Response? {
      PendingExact(t[..r], t[r].key);
    }
    assert forall q: nat, q': nat :: Matches(t, q, r) && Matches(t, q', r) ==> q == q';
    forall q: nat, s: nat | Matches(t, q, s) && s != r ensures (q, s) in pairs {
      MatchesInPrefix(t, r, q, s);
    }
    hide Matches;
    forall q: nat, q': nat, s: nat | Matches(t, q, r) && Matches(t, q', s)
      ensures (q', s) in pairs + [(q, r)]
    {
      assert (pairs + [(q, r)])[|pairs|] == (q, r);
    }
  }

  lemma OneToOneStep(t: Trace, pairs: seq<(nat, nat)>, q: nat)
    requires |t| > 0 && PairsRecords(t[..|t| - 1], pairs) && OneToOne(pairs)
    requires Matches(t, q, |t| - 1)
    ensures OneToOne(pairs + [(q, |t| - 1)])
  {
    forall m | 0 <= m < |pairs| ensures pairs[m].1 < |t| - 1 && pairs[m].0 != q {
      OldRecord(t, Run(t[..|t| - 1]).ring[m], pairs[m]);
    }
  }

  lemma RecordOrNot(t: Trace)
    requires |t| > 0
    ensures (exists q: nat, r: nat :: r == |t| - 1 && Matches(t, q, r)) || Run(t).ring == Run(t[..|t| - 1]).ring
  {
    var n := |t| - 1;
    if t[n].Response? && t[n].key in Run(t[..n]).requests {
      PendingExact(t[..n], t[n].key);
      var q: nat :| Awaits(t[..n], t[n].key, q);
      assert Matches(t, q, n);
    }
  }

  lemma PairingStep(t: Trace, pairs: seq<(nat, nat)>) returns (pairs': seq<(nat, nat)>)
    requires |t| > 0 && IsPairing(t[..|t| - 1], pairs)
    ensures IsPairing(t, pairs')
  {
    hide PairsRecords, HasAllMatches, OneToOne, Matches, Run;
    var n := |t| - 1;
    HasAllMatchesStep(t, pairs, n);
    RecordOrNot(t);
    if q: nat :| Matches(t, q, n) {
      PairsRecordsStep(t, pairs, q);
      OneToOneStep(t, pairs, q);
      pairs' := pairs + [(q, n)];
    } else {
      PairsRecordsStep(t, pairs, 0);
      pairs' := pairs;
    }
  }

  /** Matching safety and completeness, for every trace, pipelined or not, full map or not. */
  lemma {:induction false} MatchingExact(t: Trace)
    ensures exists pairs: seq<(nat, nat)> :: IsPairing(t, pairs)
  {
    if t == [] {
      assert IsPairing(t, []);
    } else {
      MatchingExact(t[..|t| - 1]);
      var pairs: seq<(nat, nat)> :| IsPairing(t[..|t| - 1], pairs);
      var pairs' := PairingStep(t, pairs);
    }
  }

  // ---------------------------------------------------------------- conservation

  function On(records: seq<Packet>, k: ConnKey): seq<Packet> {
    if records == [] then []
    else
      var n := |records| - 1;
      On(records[..n], k) + if records[n].Key() == k then [records[n]] else []
  }

  lemma OnAppend(records: seq<Packet>, p: Packet, k: ConnKey)
    ensures On(records + [p], k) == On(records, k) + if p.Key() == k then [p] else []
  {
    assert (records + [p])[..|records|] == records;
  }

  function Asked(t: Trace, k: ConnKey): nat {
    if t == [] then 0 else Asked(t[..|t| - 1], k) + if Asks(t[|t| - 1], k) then 1 else 0
  }

  function Answered(t: Trace, k: ConnKey): nat {
    if t == [] then 0 else Answered(t[..|t| - 1], k) + if Answers(t[|t| - 1], k) then 1 else 0
  }

  function Stores(t: Trace, k: ConnKey): nat {
    if t == [] then 0
    else Stores(t[..|t| - 1], k) + if Stored(t, |t| - 1) && Asks(t[|t| - 1], k) then 1 else 0
  }

  /** Stores that replace a request still waiting for its response. */
  function Overwrites(t: Trace, k: ConnKey): nat {
    if t == [] then 0
    else
      var n := |t| - 1;
      Overwrites(t[..n], k) +
      if Stored(t, n) && Asks(t[n], k) && k in Run(t[..n]).requests then 1 else 0
  }

  function Pending(s: MatcherState, k: ConnKey): nat {
    if k in s.requests then 1 else 0
  }

  /** Every request is stored under its own key. */
  ghost predicate WellKeyed(s: MatcherState) {
    forall k :: k in s.requests ==> s.requests[k].Key() == k
  }

  lemma {:induction false} KeysAgree(t: Trace)
    ensures WellKeyed(Run(t))
  {
    if t != [] {
      KeysAgree(t[..|t| - 1]);
    }
  }

  /** On every connection of every run, a stored request is matched, overwritten or still pending. */
  lemma {:induction false} Conservation(t: Trace, k: ConnKey)
    ensures Stores(t, k) == |On(Run(t).ring, k)| + Overwrites(t, k) + Pending(Run(t), k)
    ensures |On(Run(t).ring, k)| <= Answered(t, k)
    ensures |On(Run(t).ring, k)| <= Stores(t, k) <= Asked(t, k)
  {
    hide Step, On, Complete, CanStore;
    if t != [] {
      var n := |t| - 1;
      Conservation(t[..n], k);
      KeysAgree(t[..n]);
      StepRing(Run(t[..n]), t[n], k);
      StepRequests(Run(t[..n]), t[n], k);
    } else {
      NothingEmitted(k);
    }
  }

  lemma NothingEmitted(k: ConnKey)
    ensures On(INITIAL.ring, k) == [] && k !in INITIAL.requests
  {
  }

  function TotalStores(t: Trace): nat {
    if t == [] then 0 else TotalStores(t[..|t| - 1]) + if Stored(t, |t| - 1) then 1 else 0
  }

  function TotalOverwrites(t: Trace): nat {
    if t == [] then 0
    else
      var n := |t| - 1;
      TotalOverwrites(t[..n]) +
      if Stored(t, n) && t[n].record.Key() in Run(t[..n]).requests then 1 else 0
  }

  /** The same over all connections, with the bound on the map. */
  lemma {:induction false} TotalConservation(t: Trace)
    ensures TotalStores(t) == |Run(t).ring| + TotalOverwrites(t) + |Run(t).requests|
    ensures |Run(t).requests| <= 16384
  {
    if t != [] {
      var n := |t| - 1;
      TotalConservation(t[..n]);
      var s := Run(t[..n]);
      if t[n].Response? && t[n].key in s.requests {
        assert (s.requests - {t[n].key}).Keys == s.requests.Keys - {t[n].key};
        assert |(s.requests - {t[n].key}).Keys| == |s.requests.Keys| - 1;
      } else if Stored(t, n) {
        var k := t[n].record.Key();
        assert s.requests[k := t[n].record].Keys == s.requests.Keys + {k};
      }
    }
  }

  // ---------------------------------------------------------------- independence of connections

  predicate NoStoreFails(t: Trace) {
    forall q :: 0 <= q < |t| && t[q].Request? ==> Stored(t, q)
  }

  function KeysOf(t: Trace): set<ConnKey> {
    set q | 0 <= q < |t| && t[q].Request? :: t[q].record.Key()
  }

  lemma {:induction false} PendingKeys(t: Trace)
    ensures Run(t).requests.Keys <= KeysOf(t)
  {
    if t != [] {
      var n := |t| - 1;
      PendingKeys(t[..n]);
      forall k | k in Run(t).requests ensures k in KeysOf(t) {
        if k in Run(t[..n]).requests {
          var q :| 0 <= q < n && t[..n][q].Request? && t[..n][q].record.Key() == k;
          assert t[q].record.Key() == k;
        } else {
          assert t[n].record.Key() == k;
        }
      }
    }
  }

  /** The map cannot fill as long as the trace has no more connections than the map has entries. */
  lemma RoomForAll(t: Trace)
    requires forall q :: 0 <= q < |t| && t[q].Request? ==> t[q].storeOk
    requires |KeysOf(t)| <= 16384
    ensures NoStoreFails(t)
  {
    forall q | 0 <= q < |t| && t[q].Request? ensures Stored(t, q) {
      var k := t[q].record.Key();
      var keys := Run(t[..q]).requests.Keys;
      PendingKeys(t[..q]);
      assert keys <= KeysOf(t) by {
        forall k' | k' in KeysOf(t[..q]) ensures k' in KeysOf(t) {
          var i :| 0 <= i < q && t[..q][i].Request? && t[..q][i].record.Key() == k';
          assert t[i].record.Key() == k';
        }
      }
      if k !in keys {
        assert k in KeysOf(t);
        SubsetSize(keys + {k}, KeysOf(t));
      }
    }
  }

  /** The packets of one connection. */
  function Project(t: Trace, k: ConnKey): Trace {
    if t == [] then []
    else
      var e := t[|t| - 1];
      Project(t[..|t| - 1], k) + if Asks(e, k) || Answers(e, k) then [e] else []
  }

  lemma RunAppend(t: Trace, e: Event)
    ensures Run(t + [e]) == Step(Run(t), e)
  {
    assert (t + [e])[..|t|] == t;
  }

  lemma NoStoreFailsPrefix(t: Trace, n: nat)
    requires NoStoreFails(t) && n <= |t|
    ensures NoStoreFails(t[..n])
  {
    forall q | 0 <= q < n && t[..n][q].Request? ensures Stored(t[..n], q) {
      StoredInPrefix(t, n, q);
    }
  }

  /** The part of the map that belongs to k. */
  function Slot(s: MatcherState, k: ConnKey): map<ConnKey, Packet> {
    if k in s.requests then map[k := s.requests[k]] else map[]
  }

  lemma IndependenceStep(s: MatcherState, e: Event, k: ConnKey)
    requires WellKeyed(s)
    requires e.Request? ==> CanStore(s.requests, e.record.Key(), e.storeOk)
    ensures var own := MatcherState(Slot(s, k), On(s.ring, k));
            MatcherState(Slot(Step(s, e), k), On(Step(s, e).ring, k)) ==
              if Asks(e, k) || Answers(e, k) then Step(own, e) else own
  {
    StepRing(s, e, k);
  }

  /** Connections do not disturb each other: what is emitted for k, and what is kept for k, is what the
      packets of k alone would give. */
  lemma {:induction false} Independence(t: Trace, k: ConnKey)
    requires NoStoreFails(t)
    ensures Run(Project(t, k)) == MatcherState(Slot(Run(t), k), On(Run(t).ring, k))
  {
    if t != [] {
      var n := |t| - 1;
      NoStoreFailsPrefix(t, n);
      Independence(t[..n], k);
      KeysAgree(t[..n]);
      assert Stored(t, n) || !t[n].Request?;
      IndependenceStep(Run(t[..n]), t[n], k);
      RunAppend(Project(t[..n], k), t[n]);
      assert Project(t[..n], k) + [] == Project(t[..n], k);
    } else {
      assert Project(t, k) == [];
      assert Run(t) == INITIAL;
    }
  }

  ghost predicate SameKey(a: Event, b: Event) {
    exists k :: (Asks(a, k) || Answers(a, k)) && (Asks(b, k) || Answers(b, k))
  }

  function StepTwice(s: MatcherState, a: Event, b: Event): MatcherState {
    Step(Step(s, a), b)
  }

  /** Whether the map takes the event's request. */
  predicate Takes(s: MatcherState, e: Event) {
    e.Request? && CanStore(s.requests, e.record.Key(), e.storeOk)
  }

  lemma StepRequests(s: MatcherState, e: Event, k: ConnKey)
    ensures k in Step(s, e).requests <==> (Takes(s, e) && Asks(e, k)) || (k in s.requests && !Answers(e, k))
    ensures k in Step(s, e).requests ==>
              Step(s, e).requests[k] == if Takes(s, e) && Asks(e, k) then e.record else s.requests[k]
  {
  }

  /** Neighbouring packets of different connections can change places exactly when neither decides whether the
      map still has room for the other. */
  lemma SwapExact(s: MatcherState, a: Event, b: Event)
    requires !SameKey(a, b)
    ensures StepTwice(s, a, b).requests == StepTwice(s, b, a).requests <==>
            Takes(Step(s, b), a) == Takes(s, a) && Takes(Step(s, a), b) == Takes(s, b)
  {
    hide Step, Takes;
    var ab, ba := StepTwice(s, a, b).requests, StepTwice(s, b, a).requests;
    forall k
      ensures Takes(Step(s, b), a) == Takes(s, a) && Takes(Step(s, a), b) == Takes(s, b) ==>
                (k in ab <==> k in ba) && (k in ab ==> ab[k] == ba[k])
    {
      StepRequests(s, a, k);
      StepRequests(s, b, k);
      StepRequests(Step(s, a), b, k);
      StepRequests(Step(s, b), a, k);
    }
    TakenDiffers(s, a, b);
    TakenDiffers(s, b, a);
  }

  /** A request that only one of the two orders stores is in the map after that one alone. */
  lemma TakenDiffers(s: MatcherState, a: Event, b: Event)
    requires !SameKey(a, b)
    ensures Takes(Step(s, b), a) != Takes(s, a) ==>
              StepTwice(s, a, b).requests != StepTwice(s, b, a).requests
  {
    if Takes(Step(s, b), a) != Takes(s, a) {
      var k := a.record.Key();
      assert Asks(a, k) && !Asks(b, k) && !Answers(b, k);
      StepRequests(s, b, k);
      assert k !in s.requests;
      hide Step;
      StepRequests(s, a, k);
      StepRequests(Step(s, a), b, k);
      StepRequests(Step(s, b), a, k);
      assert k in StepTwice(s, a, b).requests <==> Takes(s, a);
      assert k in StepTwice(s, b, a).requests <==> Takes(Step(s, b), a);
    }
  }

  /** The same requests pending and the same records emitted on every connection. */
  ghost predicate SamePerKey(s: MatcherState, s': MatcherState) {
    s.requests == s'.requests && forall k :: On(s.ring, k) == On(s'.ring, k)
  }

  lemma SwapTwo(s: MatcherState, a: Event, b: Event)
    requires !SameKey(a, b) && WellKeyed(s)
    requires Takes(Step(s, b), a) == Takes(s, a) && Takes(Step(s, a), b) == Takes(s, b)
    ensures SamePerKey(StepTwice(s, a, b), StepTwice(s, b, a))
  {
    hide Step, Takes, CanStore, Complete, On;
    SwapExact(s, a, b);
    forall k ensures On(StepTwice(s, a, b).ring, k) == On(StepTwice(s, b, a).ring, k) {
      StepRing(s, a, k);
      StepRing(s, b, k);
      StepRing(Step(s, a), b, k);
      StepRing(Step(s, b), a, k);
      StepRequests(s, a, k);
      StepRequests(s, b, k);
      assert On(s.ring, k) + [] == On(s.ring, k);
    }
  }

  lemma StepSamePerKey(s: MatcherState, s': MatcherState, e: Event)
    requires SamePerKey(s, s') && WellKeyed(s)
    ensures SamePerKey(Step(s, e), Step(s', e)) && WellKeyed(Step(s, e))
  {
    assert Step(s, e).requests == Step(s', e).requests;
    StepRing(s, e, ConnKey(0, 0, 0, 0));
    hide Step, Complete, On;
    forall k ensures On(Step(s, e).ring, k) == On(Step(s', e).ring, k) {
      StepRing(s, e, k);
      StepRing(s', e, k);
    }
  }

  lemma {:induction false} RestSamePerKey(t: Trace, t': Trace, v: Trace)
    requires SamePerKey(Run(t), Run(t'))
    ensures SamePerKey(Run(t + v), Run(t' + v))
  {
    hide SamePerKey, Step;
    if v == [] {
      assert t + v == t && t' + v == t';
    } else {
      var w, e := v[..|v| - 1], v[|v| - 1];
      RestSamePerKey(t, t', w);
      assert t + v == (t + w) + [e] && t' + v == (t' + w) + [e];
      RunAppend(t + w, e);
      RunAppend(t' + w, e);
      KeysAgree(t + w);
      StepSamePerKey(Run(t + w), Run(t' + w), e);
    }
  }

  /** In the middle of any trace: swapping two such neighbours changes neither the final map nor what is ever
      emitted on any connection. */
  lemma SwapNeighbours(u: Trace, a: Event, b: Event, v: Trace)
    requires !SameKey(a, b)
    requires Takes(Step(Run(u), b), a) == Takes(Run(u), a) && Takes(Step(Run(u), a), b) == Takes(Run(u), b)
    ensures SamePerKey(Run(u + [a, b] + v), Run(u + [b, a] + v))
  {
    hide Step, SamePerKey, SameKey, Takes;
    RunAppend(u, a);
    RunAppend(u + [a], b);
    RunAppend(u, b);
    RunAppend(u + [b], a);
    assert u + [a, b] == (u + [a]) + [b] && u + [b, a] == (u + [b]) + [a];
    KeysAgree(u);
    SwapTwo(Run(u), a, b);
    RestSamePerKey(u + [a, b], u + [b, a], v);
  }

  lemma StepRoom(s: MatcherState, e: Event)
    ensures |Step(s, e).requests| <= |s.requests| + 1
  {
    if e.Request? {
      assert s.requests[e.record.Key() := e.record].Keys == s.requests.Keys + {e.record.Key()};
    } else if e.Response? {
      SubsetSize((s.requests - {e.key}).Keys, s.requests.Keys);
    }
  }

  /** Two free entries are enough for any two such neighbours. */
  lemma SwapWithRoom(u: Trace, a: Event, b: Event, v: Trace)
    requires !SameKey(a, b) && |Run(u).requests| + 2 <= MAX_MAP_CONN
    ensures SamePerKey(Run(u + [a, b] + v), Run(u + [b, a] + v))
  {
    StepRoom(Run(u), a);
    StepRoom(Run(u), b);
    assert Takes(Step(Run(u), b), a) == Takes(Run(u), a);
    assert Takes(Step(Run(u), a), b) == Takes(Run(u), b);
    hide Step, SamePerKey, SameKey, Takes, Run;
    SwapNeighbours(u, a, b, v);
  }

  lemma StepRing(s: MatcherState, e: Event, k: ConnKey)
    requires WellKeyed(s)
    ensures On(Step(s, e).ring, k) == On(s.ring, k) +
              if Answers(e, k) && k in s.requests then [Complete(s.requests[k], e)] else []
    ensures WellKeyed(Step(s, e))
  {
    if e.Response? && e.key in s.requests {
      OnAppend(s.ring, Complete(s.requests[e.key], e), k);
    }
  }
}

/** The documented design (docs/http.md:25) keeps a queue of requests per connection. */
module FifoMatcher {
  import opened Matcher
  import opened MatcherTraces

  datatype Fifo = Fifo(queues: map<ConnKey, seq<Packet>>, ring: seq<Packet>)
  {
    function Queue(k: ConnKey): seq<Packet> {
      if k in queues then queues[k] else []
    }
  }

  function FifoStep(s: Fifo, e: Event): Fifo {
    match e
    case Ignored => s
    case Request(record, _) =>
      s.(queues := s.queues[record.Key() := s.Queue(record.Key()) + [record]])
    case Response(key, _, _, _) =>
      var q := s.Queue(key);
      if q == [] then s
      else Fifo(s.queues[key := q[1..]], s.ring + [Complete(q[0], e)])
  }

  function FifoRun(t: Trace): Fifo {
    if t == [] then Fifo(map[], []) else FifoStep(FifoRun(t[..|t| - 1]), t[|t| - 1])
  }

  lemma FifoRunAppend(t: Trace, e: Event)
    ensures FifoRun(t + [e]) == FifoStep(FifoRun(t), e)
  {
    assert (t + [e])[..|t|] == t;
  }

  /** No request is sent on a connection before the one before it has its response. */
  ghost predicate NotPipelined(t: Trace) {
    forall i: nat, j: nat, k :: i < j < |t| && Asks(t[i], k) && Asks(t[j], k) ==>
      exists m :: i < m < j && Answers(t[m], k)
  }

  ghost predicate NoOverwrites(t: Trace) {
    forall k :: Overwrites(t, k) == 0
  }

  lemma {:induction false} UnansweredStays(t: Trace, i: nat, k: ConnKey)
    requires NoStoreFails(t) && i < |t| && Asks(t[i], k)
    requires forall m :: i < m < |t| ==> !Answers(t[m], k)
    ensures k in Run(t).requests
  {
    var n := |t| - 1;
    assert Stored(t, i);
    if i < n {
      NoStoreFailsPrefix(t, n);
      UnansweredStays(t[..n], i, k);
    }
  }

  lemma {:induction false} OverwriteAt(t: Trace, j: nat, k: ConnKey)
    requires j < |t| && Stored(t, j) && Asks(t[j], k) && k in Run(t[..j]).requests
    ensures Overwrites(t, k) > 0
  {
    var n := |t| - 1;
    if j < n {
      StoredInPrefix(t, n, j);
      assert t[..n][..j] == t[..j];
      OverwriteAt(t[..n], j, k);
    }
  }

  lemma NotPipelinedPrefix(t: Trace, n: nat)
    requires NotPipelined(t) && n <= |t|
    ensures NotPipelined(t[..n])
  {
    var p := t[..n];
    forall i: nat, j: nat, k | i < j < n && Asks(p[i], k) && Asks(p[j], k)
      ensures exists m :: i < m < j && Answers(p[m], k)
    {
      assert Asks(t[i], k) && Asks(t[j], k);
      var m :| i < m < j && Answers(t[m], k);
      assert Answers(p[m], k);
    }
  }

  /** The last request waits alone, if it comes unpipelined. */
  lemma NewestWaitsAlone(t: Trace, k: ConnKey)
    requires NotPipelined(t) && |t| > 0 && Asks(t[|t| - 1], k)
    ensures k !in Run(t[..|t| - 1]).requests
  {
    var n := |t| - 1;
    PendingExact(t[..n], k);
    forall q: nat
      ensures !Awaits(t[..n], k, q)
    {
      if q < n && Asks(t[q], k) {
        var m :| q < m < n && Answers(t[m], k);
        assert Answers(t[..n][m], k);
      }
    }
  }

  lemma {:induction false} OverwriteIsPipelining(t: Trace, k: ConnKey)
    requires NotPipelined(t)
    ensures Overwrites(t, k) == 0
  {
    hide NotPipelined, Run;
    if t != [] {
      NotPipelinedPrefix(t, |t| - 1);
      OverwriteIsPipelining(t[..|t| - 1], k);
      if Asks(t[|t| - 1], k) {
        NewestWaitsAlone(t, k);
      }
    }
  }

  /** Pipelining, read off the trace, is overwriting, read off the run. */
  lemma PipeliningOverwrites(t: Trace)
    requires NoStoreFails(t)
    ensures NotPipelined(t) <==> NoOverwrites(t)
  {
    if NotPipelined(t) {
      forall k ensures Overwrites(t, k) == 0 {
        OverwriteIsPipelining(t, k);
      }
    }
    if NoOverwrites(t) {
      forall i: nat, j: nat, k | i < j < |t| && Asks(t[i], k) && Asks(t[j], k)
        ensures exists m :: i < m < j && Answers(t[m], k)
      {
        if forall m :: i < m < j ==> !Answers(t[m], k) {
          NoStoreFailsPrefix(t, j);
          assert Asks(t[..j][i], k);
          UnansweredStays(t[..j], i, k);
          assert Stored(t, j);
          OverwriteAt(t, j, k);
        }
      }
    }
  }

  /** Without overwrites the slot is the queue, and the rings agree. */
  lemma {:induction false} SlotIsQueue(t: Trace)
    requires NoStoreFails(t) && NoOverwrites(t)
    ensures FifoRun(t).ring == Run(t).ring
    ensures forall k :: FifoRun(t).Queue(k) == if k in Run(t).requests then [Run(t).requests[k]] else []
  {
    if t != [] {
      var n := |t| - 1;
      NoStoreFailsPrefix(t, n);
      assert NoOverwrites(t[..n]) by {
        forall k ensures Overwrites(t[..n], k) == 0 {
          assert Overwrites(t, k) == 0;
        }
      }
      SlotIsQueue(t[..n]);
      var e := t[n];
      if e.Request? {
        assert Stored(t, n) && Asks(e, e.record.Key());
        assert Overwrites(t, e.record.Key()) == 0;
      }
    }
  }

  lemma {:induction false} QueueKeys(t: Trace, k: ConnKey)
    ensures forall p :: p in FifoRun(t).Queue(k) ==> p.Key() == k
  {
    if t != [] {
      QueueKeys(t[..|t| - 1], k);
    }
  }

  lemma {:induction false} QueueCoversSlot(t: Trace, k: ConnKey)
    ensures k in Run(t).requests ==> FifoRun(t).Queue(k) != []
  {
    hide CanStore, Complete;
    if t != [] {
      QueueCoversSlot(t[..|t| - 1], k);
    }
  }

  lemma {:induction false} QueueConservation(t: Trace, k: ConnKey)
    requires NoStoreFails(t)
    ensures Stores(t, k) == |On(FifoRun(t).ring, k)| + |FifoRun(t).Queue(k)|
    ensures k in Run(t).requests ==> FifoRun(t).Queue(k) != []
  {
    hide Run, Complete;
    QueueCoversSlot(t, k);
    if t != [] {
      var n := |t| - 1;
      var e := t[n];
      var s := FifoRun(t[..n]);
      NoStoreFailsPrefix(t, n);
      QueueConservation(t[..n], k);
      assert Stored(t, n) || !e.Request?;
      if e.Response? && s.Queue(e.key) != [] {
        CompleteKeepsKey(s.Queue(e.key)[0], e);
        QueueKeys(t[..n], e.key);
        assert s.Queue(e.key)[0].Key() == e.key;
        OnAppend(s.ring, Complete(s.Queue(e.key)[0], e), k);
      }
    }
  }

  lemma CompleteKeepsKey(p: Packet, e: Event)
    requires e.Response?
    ensures Complete(p, e).Key() == p.Key()
  {
  }

  predicate AllResponses(t: Trace) {
    forall i :: 0 <= i < |t| ==> t[i].Response?
  }

  lemma {:induction false} DrainKeepsCounts(t: Trace, drain: Trace, k: ConnKey)
    requires NoStoreFails(t) && AllResponses(drain)
    ensures NoStoreFails(t + drain)
    ensures Stores(t + drain, k) == Stores(t, k) && Overwrites(t + drain, k) == Overwrites(t, k)
  {
    if drain == [] {
      assert t + drain == t;
    } else {
      var n := |drain| - 1;
      var u := t + drain;
      DrainKeepsCounts(t, drain[..n], k);
      assert u[..|u| - 1] == t + drain[..n];
      forall q | 0 <= q < |u| && u[q].Request? ensures Stored(u, q) {
        assert q < |u| - 1;
        assert u[..|u| - 1][q] == u[q];
        StoredInPrefix(u, |u| - 1, q);
      }
    }
  }

  function Replies(k: ConnKey, n: nat): Trace {
    seq(n, _ => Response(k, 0, 0, [0, 0, 0]))
  }

  lemma {:induction false} RepliesEmptyQueue(t: Trace, k: ConnKey, n: nat)
    ensures |FifoRun(t + Replies(k, n)).Queue(k)| ==
              if n < |FifoRun(t).Queue(k)| then |FifoRun(t).Queue(k)| - n else 0
  {
    if n == 0 {
      assert t + Replies(k, 0) == t;
    } else {
      RepliesEmptyQueue(t, k, n - 1);
      var e := Response(k, 0, 0, [0, 0, 0]);
      assert t + Replies(k, n) == (t + Replies(k, n - 1)) + [e];
      FifoRunAppend(t + Replies(k, n - 1), e);
    }
  }

  /** The single slot refines the documented queue on exactly the traces without pipelining: they emit the
      same records in the same order, whatever responses are still to come. */
  lemma FifoRefinement(t: Trace)
    requires NoStoreFails(t)
    ensures NotPipelined(t) <==>
            forall drain :: AllResponses(drain) ==> Run(t + drain).ring == FifoRun(t + drain).ring
  {
    PipeliningOverwrites(t);
    if NotPipelined(t) {
      forall drain | AllResponses(drain) ensures Run(t + drain).ring == FifoRun(t + drain).ring {
        forall k ensures Overwrites(t + drain, k) == 0 {
          DrainKeepsCounts(t, drain, k);
          assert Overwrites(t, k) == 0;
        }
        DrainKeepsCounts(t, drain, ConnKey(0, 0, 0, 0));
        SlotIsQueue(t + drain);
      }
    } else {
      var k :| Overwrites(t, k) > 0;
      var drain := Replies(k, |FifoRun(t).Queue(k)|);
      var u := t + drain;
      DrainKeepsCounts(t, drain, k);
      RepliesEmptyQueue(t, k, |FifoRun(t).Queue(k)|);
      Conservation(u, k);
      QueueConservation(u, k);
      assert |On(Run(u).ring, k)| < |On(FifoRun(u).ring, k)|;
      assert AllResponses(drain) && Run(u).ring != FifoRun(u).ring;
    }
  }

  lemma RunsOfFour(e1: Event, e2: Event, e3: Event, e4: Event)
    ensures var t := [e1, e2, e3, e4];
            && Run(t) == Step(Step(Step(Step(INITIAL, e1), e2), e3), e4)
            && FifoRun(t) == FifoStep(FifoStep(FifoStep(FifoStep(Fifo(map[], []), e1), e2), e3), e4)
  {
    hide Step, FifoStep;
    var t1 := [e1];
    var t2 := t1 + [e2];
    var t3 := t2 + [e3];
    assert [] + [e1] == t1 && [e1, e2, e3, e4] == t3 + [e4];
    assert Run([]) == INITIAL && FifoRun([]) == Fifo(map[], []);
    hide Run, FifoRun;
    RunAppend([], e1);
    RunAppend(t1, e2);
    RunAppend(t2, e3);
    RunAppend(t3, e4);
    FifoRunAppend([], e1);
    FifoRunAppend(t1, e2);
    FifoRunAppend(t2, e3);
    FifoRunAppend(t3, e4);
  }

  lemma SlotExample(a: Packet, b: Packet, r1: Event, r2: Event)
    requires a.Key() == b.Key() && Answers(r1, a.Key()) && Answers(r2, a.Key())
    ensures Step(Step(Step(Step(INITIAL, Request(a, true)), Request(b, true)), r1), r2).ring == [Complete(b, r1)]
  {
    hide Complete, Packet.Key;
    var s := Step(Step(INITIAL, Request(a, true)), Request(b, true));
    assert s.requests == map[b.Key() := b];
    assert Step(s, r1).requests == map[];
  }

  lemma QueueExample(a: Packet, b: Packet, r1: Event, r2: Event)
    requires a.Key() == b.Key() && Answers(r1, a.Key()) && Answers(r2, a.Key())
    ensures FifoStep(FifoStep(FifoStep(FifoStep(Fifo(map[], []), Request(a, true)), Request(b, true)), r1), r2).ring
              == [Complete(a, r1), Complete(b, r2)]
  {
    hide Complete, Packet.Key;
    var s := FifoStep(FifoStep(Fifo(map[], []), Request(a, true)), Request(b, true));
    assert s.Queue(a.Key()) == [a, b];
    assert FifoStep(s, r1).Queue(a.Key()) == [b];
  }

  /** Two pipelined requests and their two responses: the slot pairs the first response with the second request
      and drops the rest, where the queue pairs them in order. */
  lemma PipelinedExample(a: Packet, b: Packet, r1: Event, r2: Event)
    requires a.Key() == b.Key() && Answers(r1, a.Key()) && Answers(r2, a.Key())
    ensures var t := [Request(a, true), Request(b, true), r1, r2];
            Run(t).ring == [Complete(b, r1)] && FifoRun(t).ring == [Complete(a, r1), Complete(b, r2)]
  {
    hide Run, FifoRun, Step, FifoStep, Complete, Answers, Packet.Key;
    RunsOfFour(Request(a, true), Request(b, true), r1, r2);
    SlotExample(a, b, r1, r2);
    QueueExample(a, b, r1, r2);
  }
}
