/** Runs of informer events: what the index and the filter owe to the live Endpoints objects. */
module EndpointRuns {
  import opened Wire
  import opened EndpointIndex

  type Live = map<string, Endpoints>

  /** The informer adds unknown objects, and updates or deletes known ones with their last stored value;
      Started is the one start of the HTTP plugin, which writes the indexed IPs in some order and may fail. */
  datatype Event =
    | Added(id: string, o: Endpoints)
    | Deleted(id: string)
    | Updated(id: string, o: Endpoints)
    | Started(order: seq<Endpoint>)

  datatype System = System(live: Live, index: Index, started: bool)
  {
    /** The initial write failed: the program stays attached, but is not registered for changes. */
    predicate StartFailed() {
      started && !index.watched
    }
  }

  const INITIAL := System(map[], Index(map[], {}, false, 0), false)

  predicate Legal(s: System, ev: Event) {
    match ev
    case Added(id, _) => id !in s.live
    case Deleted(id) => id in s.live
    case Updated(id, _) => id in s.live
    case Started(order) => !s.started && IsOrderOf(order, s.index.providers.Keys)
  }

  /** The entries an event deletes, and then those it puts. */
  function Gone(node: string, s: System, ev: Event): seq<Entry> {
    if !ev.Started? && !ev.Added? && ev.id in s.live then Entries(s.live[ev.id], node) else []
  }

  function Come(node: string, ev: Event): seq<Entry> {
    if ev.Added? || ev.Updated? then Entries(ev.o, node) else []
  }

  /** Events that the informer does not send are no steps. */
  function Step(env: Env, node: string, s: System, ev: Event): System {
    if !Legal(s, ev) then s else
      match ev
      case Added(id, o) => s.(live := s.live[id := o], index := PutAll(env, s.index, Entries(o, node)))
      case Deleted(id) => s.(live := s.live - {id}, index := DeleteAll(env, s.index, Entries(s.live[id], node)))
      case Updated(id, o) =>
        s.(live := s.live[id := o],
           index := PutAll(env, DeleteAll(env, s.index, Entries(s.live[id], node)), Entries(o, node)))
      case Started(order) => s.(index := StartIndex(env, s.index, order), started := true)
  }

  lemma StepIndex(env: Env, node: string, s: System, ev: Event)
    requires Legal(s, ev) && !ev.Started?
    ensures Step(env, node, s, ev).index == PutAll(env, DeleteAll(env, s.index, Gone(node, s, ev)), Come(node, ev))
    ensures Step(env, node, s, ev).started == s.started
  {
    AppendNone(env, s.index);
    if ev.Deleted? {
      AppendNone(env, DeleteAll(env, s.index, Entries(s.live[ev.id], node)));
    }
  }

  function Run(env: Env, node: string, evs: seq<Event>): System {
    if evs == [] then INITIAL else Step(env, node, Run(env, node, evs[..|evs| - 1]), evs[|evs| - 1])
  }

  lemma RunStep(env: Env, node: string, evs: seq<Event>, n: nat)
    requires n < |evs|
    ensures Run(env, node, evs[..n + 1]) == Step(env, node, Run(env, node, evs[..n]), evs[n])
  {
    assert evs[..n + 1][..n] == evs[..n];
  }

  // ---------------------------------------------------------------- folds in closed form

  function Eps(es: seq<Entry>): set<Endpoint> {
    set e | e in es :: e.endpoint
  }

  /** One object's entries as a map, the last occurrence of an endpoint winning. */
  function FromScratch(es: seq<Entry>): map<Endpoint, Provider> {
    if es == [] then map[] else FromScratch(es[..|es| - 1])[es[|es| - 1].endpoint := es[|es| - 1].provider]
  }

  lemma EpsLast(es: seq<Entry>)
    requires es != []
    ensures Eps(es) == Eps(es[..|es| - 1]) + {es[|es| - 1].endpoint}
  {
    assert es == es[..|es| - 1] + [es[|es| - 1]];
  }

  lemma {:induction false} FromScratchIsInEntries(es: seq<Entry>)
    ensures FromScratch(es).Keys == Eps(es)
    ensures forall ep :: ep in FromScratch(es) ==> Entry(ep, FromScratch(es)[ep]) in es
  {
    if es != [] {
      FromScratchIsInEntries(es[..|es| - 1]);
      EpsLast(es);
      var e := es[|es| - 1];
      assert e in es && e == Entry(e.endpoint, e.provider);
    }
  }

  lemma {:induction false} PutAllProviders(env: Env, s: Index, es: seq<Entry>)
    ensures PutAll(env, s, es).providers == s.providers + FromScratch(es)
    ensures PutAll(env, s, es).watched == s.watched
    ensures !s.watched ==> PutAll(env, s, es).filter == s.filter
  {
    if es != [] {
      PutAllProviders(env, s, es[..|es| - 1]);
    }
  }

  lemma {:induction false} DeleteAllClosed(env: Env, s: Index, es: seq<Entry>)
    ensures DeleteAll(env, s, es).providers == s.providers - Eps(es)
    ensures DeleteAll(env, s, es).watched == s.watched
    ensures DeleteAll(env, s, es).filter == if s.watched then s.filter - IpKeys(env, Eps(es)) else s.filter
  {
    if es != [] {
      DeleteAllClosed(env, s, es[..|es| - 1]);
      EpsLast(es);
      IpKeysGrow(env, Eps(es[..|es| - 1]), es[|es| - 1].endpoint);
    } else {
      assert Eps(es) == {};
      NoIpKeys(env);
    }
  }

  ghost predicate AllPutsOk(env: Env) {
    forall n :: env.putOk(n)
  }

  /** The keys that the kernel takes, when it has room for all of them: one write for every entry. */
  function Landed(env: Env, puts: nat, es: seq<Entry>): set<u32> {
    if es == [] then {}
    else
      var n := |es| - 1;
      Landed(env, puts, es[..n]) + if env.putOk(puts + n) then {env.ipKey(es[n].endpoint.ip)} else {}
  }

  lemma {:induction false} LandedAreKeys(env: Env, puts: nat, es: seq<Entry>)
    ensures Landed(env, puts, es) <= IpKeys(env, Eps(es))
    ensures AllPutsOk(env) ==> Landed(env, puts, es) == IpKeys(env, Eps(es))
  {
    if es != [] {
      LandedAreKeys(env, puts, es[..|es| - 1]);
      EpsLast(es);
      IpKeysGrow(env, Eps(es[..|es| - 1]), es[|es| - 1].endpoint);
    } else {
      assert Eps(es) == {};
      NoIpKeys(env);
    }
  }

  lemma PutLands(env: Env, s: Index, e: Entry, whole: set<u32>)
    requires s.watched && s.filter <= whole && env.ipKey(e.endpoint.ip) in whole && |whole| <= MAX_MAP_FILTER_IP
    ensures PutEntry(env, s, e).filter == s.filter + if env.putOk(s.puts) then {env.ipKey(e.endpoint.ip)} else {}
    ensures PutEntry(env, s, e).puts == s.puts + 1 && PutEntry(env, s, e).watched
  {
    RoomFor(s.filter, env.ipKey(e.endpoint.ip), whole);
  }

  lemma {:induction false} PutAllLands(env: Env, s: Index, es: seq<Entry>, whole: set<u32>)
    requires s.watched && s.filter <= whole && IpKeys(env, Eps(es)) <= whole && |whole| <= MAX_MAP_FILTER_IP
    ensures PutAll(env, s, es).filter == s.filter + Landed(env, s.puts, es) <= whole
    ensures PutAll(env, s, es).puts == s.puts + |es| && PutAll(env, s, es).watched
  {
    hide IpKeys, Eps, PutEntry;
    if es != [] {
      var p := es[..|es| - 1];
      EpsLast(es);
      IpKeysGrow(env, Eps(p), es[|es| - 1].endpoint);
      PutAllLands(env, s, p, whole);
      PutLands(env, PutAll(env, s, p), es[|es| - 1], whole);
    }
  }

  lemma PutAllFilter(env: Env, s: Index, es: seq<Entry>)
    requires s.watched && AllPutsOk(env)
    requires |s.filter + IpKeys(env, Eps(es))| <= MAX_MAP_FILTER_IP
    ensures PutAll(env, s, es).filter == s.filter + IpKeys(env, Eps(es))
  {
    PutAllLands(env, s, es, s.filter + IpKeys(env, Eps(es)));
    LandedAreKeys(env, s.puts, es);
  }

  // ---------------------------------------------------------------- soundness

  ghost predicate IsLive(node: string, live: Live, e: Entry) {
    exists id :: id in live && e in Entries(live[id], node)
  }

  ghost predicate SoundIndex(node: string, s: System) {
    forall ep :: ep in s.index.providers ==> IsLive(node, s.live, Entry(ep, s.index.providers[ep]))
  }

  lemma SoundStep(env: Env, node: string, s: System, ev: Event)
    requires SoundIndex(node, s)
    ensures SoundIndex(node, Step(env, node, s, ev))
  {
    if Legal(s, ev) && !ev.Started? {
      var s' := Step(env, node, s, ev);
      var come := Come(node, ev);
      StepProviders(env, node, s, ev);
      FromScratchIsInEntries(come);
      forall ep | ep in s'.index.providers
        ensures IsLive(node, s'.live, Entry(ep, s'.index.providers[ep]))
      {
        var e := Entry(ep, s'.index.providers[ep]);
        if ep in FromScratch(come) {
          assert e in Entries(s'.live[ev.id], node);
        } else {
          assert IsLive(node, s.live, e);
          var id :| id in s.live && e in Entries(s.live[id], node);
          assert ep !in Eps(Gone(node, s, ev));
          assert id in s'.live && e in Entries(s'.live[id], node);
        }
      }
    }
  }

  lemma {:induction false} SoundRun(env: Env, node: string, evs: seq<Event>)
    ensures SoundIndex(node, Run(env, node, evs))
  {
    if evs != [] {
      SoundRun(env, node, evs[..|evs| - 1]);
      SoundStep(env, node, Run(env, node, evs[..|evs| - 1]), evs[|evs| - 1]);
    }
  }

  /** Every indexed provider was built from an address on this node of an object that is live now, whatever
      objects share. */
  lemma IndexSound(env: Env, node: string, evs: seq<Event>)
    ensures var s := Run(env, node, evs);
            forall ep :: ep in s.index.providers ==>
              exists id, p: Position :: id in s.live && p.Holds(s.live[id], node, Entry(ep, s.index.providers[ep]))
  {
    var s := Run(env, node, evs);
    SoundRun(env, node, evs);
    hide Run, Entries;
    forall ep | ep in s.index.providers
      ensures exists id, p: Position :: id in s.live && p.Holds(s.live[id], node, Entry(ep, s.index.providers[ep]))
    {
      var e := Entry(ep, s.index.providers[ep]);
      assert IsLive(node, s.live, e);
      var id :| id in s.live && e in Entries(s.live[id], node);
      EntriesExact(s.live[id], node);
      var p: Position :| p.Holds(s.live[id], node, e);
    }
  }

  lemma StepProviders(env: Env, node: string, s: System, ev: Event)
    requires Legal(s, ev) && !ev.Started?
    ensures Step(env, node, s, ev).index.providers ==
              s.index.providers - Eps(Gone(node, s, ev)) + FromScratch(Come(node, ev))
  {
    StepIndex(env, node, s, ev);
    DeleteAllClosed(env, s.index, Gone(node, s, ev));
    PutAllProviders(env, DeleteAll(env, s.index, Gone(node, s, ev)), Come(node, ev));
  }

  // ---------------------------------------------------------------- completeness

  function EpsOf(node: string, o: Endpoints): set<Endpoint> {
    Eps(Entries(o, node))
  }

  function LiveEps(node: string, live: Live): set<Endpoint> {
    set id, ep | id in live && ep in EpsOf(node, live[id]) :: ep
  }

  lemma LiveEpsWithout(node: string, live: Live, id: string)
    requires id in live
    ensures LiveEps(node, live) == LiveEps(node, live - {id}) + EpsOf(node, live[id])
  {
    var rest := live - {id};
    forall ep | ep in LiveEps(node, live)
      ensures ep in LiveEps(node, rest) + EpsOf(node, live[id])
    {
      var i :| i in live && ep in EpsOf(node, live[i]);
      assert i != id ==> i in rest && ep in EpsOf(node, rest[i]);
    }
    forall ep | ep in LiveEps(node, rest)
      ensures ep in LiveEps(node, live)
    {
      var i :| i in rest && ep in EpsOf(node, rest[i]);
      assert i in live && ep in EpsOf(node, live[i]);
    }
  }

  predicate KeysAgree(node: string, s: System) {
    s.index.providers.Keys == LiveEps(node, s.live)
  }

  lemma ReplacePart<T>(rest: set<T>, gone: set<T>, come: set<T>)
    ensures (rest + gone) - gone + come == rest + come <==> gone * rest <= come
  {
    if gone * rest <= come {
      assert (rest + gone) - gone + come == rest + come;
    } else {
      var x :| x in gone * rest && x !in come;
      assert x in rest + come && x !in (rest + gone) - gone + come;
    }
  }

  lemma StepLive(env: Env, node: string, s: System, ev: Event)
    requires Legal(s, ev) && !ev.Started?
    ensures Step(env, node, s, ev).live == if ev.Deleted? then s.live - {ev.id} else s.live[ev.id := ev.o]
  {
    hide PutAll, DeleteAll, Entries;
  }

  lemma NoEntriesNoEps()
    ensures Eps([]) == {}
  {
  }

  lemma StepKeys(env: Env, node: string, s: System, ev: Event)
    requires Legal(s, ev) && !ev.Started? && KeysAgree(node, s)
    ensures var s' := Step(env, node, s, ev);
            var rest := LiveEps(node, s.live - {ev.id});
            var gone, come := Eps(Gone(node, s, ev)), Eps(Come(node, ev));
            s.index.providers.Keys == rest + gone &&
            s'.index.providers.Keys == (rest + gone) - gone + come &&
            LiveEps(node, s'.live) == rest + come
  {
    hide FromScratch, PutAll, DeleteAll, Entries, LiveEps, Eps, Step;
    var s' := Step(env, node, s, ev);
    StepProviders(env, node, s, ev);
    StepLive(env, node, s, ev);
    FromScratchIsInEntries(Come(node, ev));
    NoEntriesNoEps();
    if !ev.Deleted? {
      LiveEpsWithout(node, s'.live, ev.id);
      assert s'.live - {ev.id} == s.live - {ev.id};
    }
    if ev.Added? {
      assert s.live - {ev.id} == s.live;
    } else {
      LiveEpsWithout(node, s.live, ev.id);
    }
  }

  /** The event takes away no endpoint that another live object still has. */
  predicate KeepsKeys(node: string, s: System, ev: Event) {
    Legal(s, ev) && !ev.Started? ==>
      Eps(Gone(node, s, ev)) * LiveEps(node, s.live - {ev.id}) <= Eps(Come(node, ev))
  }

  lemma KeepsKeysCases(node: string, s: System, id: string, o: Endpoints)
    ensures KeepsKeys(node, s, Added(id, o))
    ensures id in s.live ==>
              (KeepsKeys(node, s, Deleted(id)) <==> EpsOf(node, s.live[id]) * LiveEps(node, s.live - {id}) == {})
  {
    NoEntriesNoEps();
    hide LiveEps, Eps, Entries;
  }

  /** What one event does to the agreement of the index with the live objects, and exactly when it breaks it: a
      deleted object shares an endpoint with a live one, or an update drops such an endpoint. */
  lemma AgreementExact(env: Env, node: string, s: System, ev: Event)
    requires KeysAgree(node, s)
    ensures KeysAgree(node, Step(env, node, s, ev)) <==> KeepsKeys(node, s, ev)
  {
    if Legal(s, ev) && !ev.Started? {
      hide Step, LiveEps, Eps, Gone, Come;
      StepKeys(env, node, s, ev);
      ReplacePart(LiveEps(node, s.live - {ev.id}), Eps(Gone(node, s, ev)), Eps(Come(node, ev)));
    }
  }

  ghost predicate AllKeepKeys(env: Env, node: string, evs: seq<Event>) {
    forall n :: 0 <= n < |evs| ==> KeepsKeys(node, Run(env, node, evs[..n]), evs[n])
  }

  lemma {:induction false} AgreesUpTo(env: Env, node: string, evs: seq<Event>, n: nat)
    requires n <= |evs| && AllKeepKeys(env, node, evs)
    ensures KeysAgree(node, Run(env, node, evs[..n]))
  {
    if n == 0 {
      NothingAgrees(node);
      assert evs[..0] == [];
    } else {
      AgreesUpTo(env, node, evs, n - 1);
      RunStep(env, node, evs, n - 1);
      AgreementExact(env, node, Run(env, node, evs[..n - 1]), evs[n - 1]);
    }
  }

  /** Whole runs: the index has exactly the live endpoints after every event if and only if no event takes
      away an endpoint that a live object still has. */
  lemma AgreementThroughout(env: Env, node: string, evs: seq<Event>)
    ensures (forall n :: 0 <= n <= |evs| ==> KeysAgree(node, Run(env, node, evs[..n]))) <==> AllKeepKeys(env, node, evs)
  {
    hide KeysAgree, KeepsKeys, Run, Step;
    if AllKeepKeys(env, node, evs) {
      forall n | 0 <= n <= |evs| ensures KeysAgree(node, Run(env, node, evs[..n])) {
        AgreesUpTo(env, node, evs, n);
      }
    }
    if forall n :: 0 <= n <= |evs| ==> KeysAgree(node, Run(env, node, evs[..n])) {
      forall n | 0 <= n < |evs| ensures KeepsKeys(node, Run(env, node, evs[..n]), evs[n]) {
        assert KeysAgree(node, Run(env, node, evs[..n])) && KeysAgree(node, Run(env, node, evs[..n + 1]));
        RunStep(env, node, evs, n);
        AgreementExact(env, node, Run(env, node, evs[..n]), evs[n]);
      }
    }
  }

  /** Two services with the same endpoint, one of them deleted: the endpoint is gone from the index while the
      other service is still live. */
  lemma SharedEndpointIsLost(env: Env, node: string, o: Endpoints)
    requires EpsOf(node, o) != {}
    ensures var s := Run(env, node, [Added("a", o), Added("b", o), Deleted("a")]);
            s.live == map["b" := o] && !KeysAgree(node, s)
  {
    hide Step, EpsOf, KeysAgree, KeepsKeys;
    var one: seq<Event> := [Added("a", o)];
    var two := one + [Added("b", o)];
    var three := two + [Deleted("a")];
    assert three == [Added("a", o), Added("b", o), Deleted("a")];
    RunAppend(env, node, [], Added("a", o));
    RunAppend(env, node, one, Added("b", o));
    RunAppend(env, node, two, Deleted("a"));
    assert [] + [Added("a", o)] == one;
    assert KeysAgree(node, INITIAL) by { NothingAgrees(node); }
    hide Run, LiveEps;
    AgreementExact(env, node, INITIAL, Added("a", o));
    KeepsKeysCases(node, INITIAL, "a", o);
    StepLive(env, node, INITIAL, Added("a", o));
    AgreementExact(env, node, Run(env, node, one), Added("b", o));
    KeepsKeysCases(node, Run(env, node, one), "b", o);
    StepLive(env, node, Run(env, node, one), Added("b", o));
    AgreementExact(env, node, Run(env, node, two), Deleted("a"));
    KeepsKeysCases(node, Run(env, node, two), "a", o);
    StepLive(env, node, Run(env, node, two), Deleted("a"));
    var rest := Run(env, node, two).live - {"a"};
    assert rest == map["b" := o];
    LiveEpsWithout(node, rest, "b");
  }

  lemma NothingAgrees(node: string)
    ensures KeysAgree(node, INITIAL)
  {
  }

  lemma RunAppend(env: Env, node: string, evs: seq<Event>, ev: Event)
    ensures Run(env, node, evs + [ev]) == Step(env, node, Run(env, node, evs), ev)
    ensures Run(env, node, []) == INITIAL
  {
    assert (evs + [ev])[..|evs|] == evs;
  }

  ghost predicate Disjoint(node: string, live: Live) {
    forall id, id' :: id in live && id' in live && id != id' ==> EpsOf(node, live[id]) !! EpsOf(node, live[id'])
  }

  /** If object id has endpoint ep, the index maps ep as the object alone would. */
  predicate FlatAt(node: string, s: System, id: string, ep: Endpoint) {
    id in s.live && ep in EpsOf(node, s.live[id]) ==>
      var own := FromScratch(Entries(s.live[id], node));
      ep in s.index.providers && ep in own && s.index.providers[ep] == own[ep]
  }

  /** The index one would compute from the live objects, from scratch. */
  ghost predicate IsFlattening(node: string, s: System) {
    KeysAgree(node, s) && forall id, ep :: FlatAt(node, s, id, ep)
  }

  lemma FlatteningAt(env: Env, node: string, s: System, ev: Event, id: string, ep: Endpoint)
    requires Legal(s, ev) && !ev.Started? && FlatAt(node, s, id, ep)
    requires Disjoint(node, Step(env, node, s, ev).live)
    requires KeysAgree(node, Step(env, node, s, ev))
    ensures FlatAt(node, Step(env, node, s, ev), id, ep)
  {
    var s' := Step(env, node, s, ev);
    if id in s'.live && ep in EpsOf(node, s'.live[id]) {
      StepProviders(env, node, s, ev);
      FromScratchIsInEntries(Entries(s'.live[id], node));
      FromScratchIsInEntries(Come(node, ev));
      hide FromScratch, PutAll, DeleteAll, Entries, Eps;
      assert ep in LiveEps(node, s'.live);
      if id != ev.id {
        assert s'.live[id] == s.live[id] && ep in EpsOf(node, s.live[id]);
        assert !ev.Deleted? ==> ev.id in s'.live && ep !in EpsOf(node, s'.live[ev.id]);
      }
    }
  }

  lemma StillAgrees(env: Env, node: string, s: System, ev: Event)
    requires KeysAgree(node, s) && Disjoint(node, s.live)
    ensures KeysAgree(node, Step(env, node, s, ev))
  {
    if Legal(s, ev) && !ev.Started? {
      if !ev.Added? {
        OthersAreDisjoint(node, s.live, ev.id);
      }
      AgreementExact(env, node, s, ev);
    }
  }

  lemma FlatteningStep(env: Env, node: string, s: System, ev: Event)
    requires IsFlattening(node, s)
    requires Disjoint(node, s.live) && Disjoint(node, Step(env, node, s, ev).live)
    ensures IsFlattening(node, Step(env, node, s, ev))
  {
    var s' := Step(env, node, s, ev);
    StillAgrees(env, node, s, ev);
    hide FlatAt, KeysAgree, Disjoint;
    if Legal(s, ev) && !ev.Started? {
      forall id, ep ensures FlatAt(node, s', id, ep) {
        FlatteningAt(env, node, s, ev, id, ep);
      }
    } else {
      forall id, ep ensures FlatAt(node, s', id, ep) {
        FlatDependsOn(node, s, s', id, ep);
      }
    }
  }

  lemma FlatDependsOn(node: string, s: System, s': System, id: string, ep: Endpoint)
    requires s.live == s'.live && s.index.providers == s'.index.providers && FlatAt(node, s, id, ep)
    ensures FlatAt(node, s', id, ep)
  {
  }

  lemma OthersAreDisjoint(node: string, live: Live, id: string)
    requires Disjoint(node, live) && id in live
    ensures EpsOf(node, live[id]) !! LiveEps(node, live - {id})
  {
    var rest := live - {id};
    forall ep | ep in LiveEps(node, rest) ensures ep !in EpsOf(node, live[id]) {
      var i :| i in rest && ep in EpsOf(node, rest[i]);
      assert i != id && i in live;
    }
  }

  ghost predicate DisjointThroughout(env: Env, node: string, evs: seq<Event>) {
    forall n :: 0 <= n <= |evs| ==> Disjoint(node, Run(env, node, evs[..n]).live)
  }

  lemma {:induction false} FlatteningRun(env: Env, node: string, evs: seq<Event>)
    requires DisjointThroughout(env, node, evs)
    ensures IsFlattening(node, Run(env, node, evs))
  {
    assert evs[..|evs|] == evs;
    if evs != [] {
      var p := evs[..|evs| - 1];
      forall n | 0 <= n <= |p| ensures Disjoint(node, Run(env, node, p[..n]).live) {
        assert p[..n] == evs[..n];
      }
      FlatteningRun(env, node, p);
      assert p[..|p|] == p;
      FlatteningStep(env, node, Run(env, node, p), evs[|evs| - 1]);
    }
  }

  /** The entry at this position, and no later position on the node has its endpoint. */
  ghost predicate IsLastOf(p: Position, o: Endpoints, node: string, e: Entry) {
    && p.Holds(o, node, e)
    && forall q: Position, f :: q.Holds(o, node, f) && f.endpoint == e.endpoint ==> !p.Before(q)
  }

  lemma {:induction false} LastEntryWins(es: seq<Entry>, n: nat)
    requires n < |es|
    requires forall m :: n < m < |es| ==> es[m].endpoint != es[n].endpoint
    ensures es[n].endpoint in FromScratch(es) && FromScratch(es)[es[n].endpoint] == es[n].provider
  {
    if n < |es| - 1 {
      LastEntryWins(es[..|es| - 1], n);
    }
  }

  lemma {:induction false} LastOf(es: seq<Entry>, ep: Endpoint) returns (n: nat)
    requires ep in Eps(es)
    ensures n < |es| && es[n].endpoint == ep && forall m :: n < m < |es| ==> es[m].endpoint != ep
  {
    n := |es| - 1;
    if es[n].endpoint != ep {
      EpsLast(es);
      n := LastOf(es[..n], ep);
    }
  }

  lemma IndexOf(ps: seq<Position>, o: Endpoints, node: string, es: seq<Entry>, p: Position, e: Entry) returns (m: nat)
    requires ArePositionsOf(ps, o, node, es) && p.Holds(o, node, e)
    ensures m < |ps| == |es| && ps[m] == p && es[m] == e
  {
    m :| 0 <= m < |ps| && ps[m] == p;
    assert p.Holds(o, node, es[m]);
  }

  lemma LastPosition(ps: seq<Position>, o: Endpoints, node: string, es: seq<Entry>, n: nat)
    requires ArePositionsOf(ps, o, node, es) && n < |es|
    requires forall m :: n < m < |es| ==> es[m].endpoint != es[n].endpoint
    ensures n < |ps| && IsLastOf(ps[n], o, node, es[n])
    ensures forall p: Position, e :: IsLastOf(p, o, node, e) && e.endpoint == es[n].endpoint ==> e == es[n]
  {
    hide Position.Holds;
    assert ps[n].Holds(o, node, es[n]);
    forall q: Position, f | q.Holds(o, node, f) && f.endpoint == es[n].endpoint ensures !ps[n].Before(q) {
      var m := IndexOf(ps, o, node, es, q, f);
      assert m < n ==> ps[m].Before(ps[n]);
    }
    forall p: Position, e | IsLastOf(p, o, node, e) && e.endpoint == es[n].endpoint ensures e == es[n] {
      var m := IndexOf(ps, o, node, es, p, e);
    }
  }

  /** One object's entries as a map: at each endpoint, the provider of the last position that has it. */
  lemma FromScratchExact(o: Endpoints, node: string, ep: Endpoint, v: Provider)
    ensures ep in FromScratch(Entries(o, node)) && FromScratch(Entries(o, node))[ep] == v <==>
            exists p: Position :: IsLastOf(p, o, node, Entry(ep, v))
  {
    hide Entries, FromScratch, IsLastOf, ArePositionsOf;
    var es := Entries(o, node);
    EntriesExact(o, node);
    FromScratchIsInEntries(es);
    var ps: seq<Position> :| ArePositionsOf(ps, o, node, es);
    if ep in Eps(es) {
      var n := LastOf(es, ep);
      LastEntryWins(es, n);
      LastPosition(ps, o, node, es, n);
      assert es[n] == Entry(ep, FromScratch(es)[ep]);
      assert IsLastOf(ps[n], o, node, Entry(ep, FromScratch(es)[ep]));
    } else {
      NoLastOf(o, node, ep, v);
    }
  }

  lemma NoLastOf(o: Endpoints, node: string, ep: Endpoint, v: Provider)
    requires ep !in Eps(Entries(o, node))
    ensures forall p: Position :: !IsLastOf(p, o, node, Entry(ep, v))
  {
    EntriesExact(o, node);
    hide Entries, Position.Holds;
  }

  /** As long as live objects never share an endpoint, the incremental index is after every event the one
      computed from the live objects alone: each endpoint of an address on this node, with the provider of the
      last position that has it. */
  lemma IndexComplete(env: Env, node: string, evs: seq<Event>, ep: Endpoint, v: Provider)
    requires DisjointThroughout(env, node, evs)
    ensures var s := Run(env, node, evs);
            ep in s.index.providers && s.index.providers[ep] == v <==>
            exists id, p: Position :: id in s.live && IsLastOf(p, s.live[id], node, Entry(ep, v))
  {
    var s := Run(env, node, evs);
    FlatteningRun(env, node, evs);
    hide Run, Entries, FromScratch, IsLastOf, DisjointThroughout;
    if ep in s.index.providers && s.index.providers[ep] == v {
      assert ep in LiveEps(node, s.live);
      var id :| id in s.live && ep in EpsOf(node, s.live[id]);
      assert FlatAt(node, s, id, ep);
      FromScratchExact(s.live[id], node, ep, v);
    }
    forall id, p: Position | id in s.live && IsLastOf(p, s.live[id], node, Entry(ep, v))
      ensures ep in s.index.providers && s.index.providers[ep] == v
    {
      FromScratchExact(s.live[id], node, ep, v);
      FromScratchIsInEntries(Entries(s.live[id], node));
      assert FlatAt(node, s, id, ep);
    }
  }

  /** A resync, which updates an object to itself, changes neither the live objects nor the index. */
  lemma ResyncChangesNothing(env: Env, node: string, s: System, id: string)
    requires IsFlattening(node, s) && Disjoint(node, s.live) && id in s.live
    ensures Step(env, node, s, Updated(id, s.live[id])).live == s.live
    ensures Step(env, node, s, Updated(id, s.live[id])).index.providers == s.index.providers
  {
    var s' := Step(env, node, s, Updated(id, s.live[id]));
    assert s'.live == s.live;
    FlatteningStep(env, node, s, Updated(id, s.live[id]));
    forall ep | ep in s.index.providers ensures s'.index.providers[ep] == s.index.providers[ep] {
      assert ep in LiveEps(node, s.live);
      var i :| i in s.live && ep in EpsOf(node, s.live[i]);
      assert FlatAt(node, s, i, ep) && FlatAt(node, s', i, ep);
    }
  }

  // ---------------------------------------------------------------- the derived filter

  /** No key in the filter without an endpoint in the index that has it. */
  predicate Covered(env: Env, s: Index) {
    s.filter <= IpKeys(env, s.providers.Keys)
  }

  lemma CoveredEntry(env: Env, s: Index, e: Entry)
    requires Covered(env, s) && (s.watched || s.filter == {})
    ensures Covered(env, PutEntry(env, s, e)) && Covered(env, DeleteEntry(env, s, e))
  {
    var put, del := PutEntry(env, s, e), DeleteEntry(env, s, e);
    assert put.providers.Keys == s.providers.Keys + {e.endpoint};
    IpKeysGrow(env, s.providers.Keys, e.endpoint);
    forall k | k in del.filter ensures k in IpKeys(env, del.providers.Keys) {
      var ep :| ep in s.providers.Keys && env.ipKey(ep.ip) == k;
      assert ep in del.providers.Keys;
    }
  }

  lemma {:induction false} CoveredAll(env: Env, s: Index, es: seq<Entry>)
    requires Covered(env, s) && (s.watched || s.filter == {})
    ensures Covered(env, PutAll(env, s, es)) && Covered(env, DeleteAll(env, s, es))
    ensures DeleteAll(env, s, es).watched || DeleteAll(env, s, es).filter == {}
  {
    PutAllProviders(env, s, es);
    DeleteAllClosed(env, s, es);
    if es != [] {
      var p := es[..|es| - 1];
      CoveredAll(env, s, p);
      PutAllProviders(env, s, p);
      DeleteAllClosed(env, s, p);
      CoveredEntry(env, PutAll(env, s, p), es[|es| - 1]);
      CoveredEntry(env, DeleteAll(env, s, p), es[|es| - 1]);
    }
  }

  lemma UnionSubset(env: Env, a: set<Endpoint>, gone: set<Endpoint>, come: set<Endpoint>, filter: set<u32>)
    requires filter <= IpKeys(env, a)
    ensures filter <= IpKeys(env, (a - gone) + come) <==> filter * IpKeys(env, gone) <= IpKeys(env, (a - gone) + come)
  {
    forall k | k in filter && k !in IpKeys(env, gone) ensures k in IpKeys(env, (a - gone) + come) {
      var ep :| ep in a && env.ipKey(ep.ip) == k;
      assert ep !in gone;
    }
  }

  /** An event after a failed start must leave an endpoint behind for every key that the start wrote. */
  predicate KeepsCover(env: Env, node: string, s: System, ev: Event) {
    Legal(s, ev) && !ev.Started? && s.StartFailed() ==>
      var gone := Eps(Gone(node, s, ev));
      s.index.filter * IpKeys(env, gone) <= IpKeys(env, (s.index.providers.Keys - gone) + Eps(Come(node, ev)))
  }

  lemma NotFailedIsClean(env: Env, node: string, evs: seq<Event>)
    ensures var s := Run(env, node, evs);
            !s.started ==> s.index.filter == {} && !s.index.watched
  {
    if evs != [] {
      var p, ev := Run(env, node, evs[..|evs| - 1]), evs[|evs| - 1];
      NotFailedIsClean(env, node, evs[..|evs| - 1]);
      if Legal(p, ev) && !ev.Started? {
        StepIndex(env, node, p, ev);
        DeleteAllClosed(env, p.index, Gone(node, p, ev));
        PutAllProviders(env, DeleteAll(env, p.index, Gone(node, p, ev)), Come(node, ev));
      }
    }
  }

  /** After a failed start nothing touches the filter any more. */
  lemma FailedStartIsFinal(env: Env, node: string, s: System, ev: Event)
    requires s.StartFailed()
    ensures Step(env, node, s, ev).StartFailed() && Step(env, node, s, ev).index.filter == s.index.filter
  {
    if Legal(s, ev) && !ev.Started? {
      StepIndex(env, node, s, ev);
      DeleteAllClosed(env, s.index, Gone(node, s, ev));
      PutAllProviders(env, DeleteAll(env, s.index, Gone(node, s, ev)), Come(node, ev));
    }
  }

  lemma CoverStepExact(env: Env, node: string, s: System, ev: Event)
    requires Covered(env, s.index)
    requires !s.started ==> s.index.filter == {}
    ensures Covered(env, Step(env, node, s, ev).index) <==> KeepsCover(env, node, s, ev)
  {
    hide IpKeys, Eps;
    if !Legal(s, ev) {
    } else if ev.Started? {
      WriteAllExact(env, s.index.filter, s.index.puts, ev.order);
    } else {
      var gone, come := Gone(node, s, ev), Come(node, ev);
      StepIndex(env, node, s, ev);
      hide Step, Gone, Come;
      DeleteAllClosed(env, s.index, gone);
      PutAllProviders(env, DeleteAll(env, s.index, gone), come);
      FromScratchIsInEntries(come);
      if s.StartFailed() {
        UnionSubset(env, s.index.providers.Keys, Eps(gone), Eps(come), s.index.filter);
      } else {
        CoveredAll(env, s.index, gone);
        CoveredAll(env, DeleteAll(env, s.index, gone), come);
      }
    }
  }

  ghost predicate AllKeepCover(env: Env, node: string, evs: seq<Event>) {
    forall n :: 0 <= n < |evs| ==> KeepsCover(env, node, Run(env, node, evs[..n]), evs[n])
  }

  lemma {:induction false} CoveredUpTo(env: Env, node: string, evs: seq<Event>, n: nat)
    requires n <= |evs| && AllKeepCover(env, node, evs)
    ensures Covered(env, Run(env, node, evs[..n]).index)
  {
    hide KeepsCover, Step;
    if n > 0 {
      CoveredUpTo(env, node, evs, n - 1);
      NotFailedIsClean(env, node, evs[..n - 1]);
      RunStep(env, node, evs, n - 1);
      CoverStepExact(env, node, Run(env, node, evs[..n - 1]), evs[n - 1]);
    } else {
      assert evs[..0] == [];
    }
  }

  /** Whole runs, whatever writes fail: every filter key has an indexed endpoint after every event if and only
      if no event after a failed start takes the last endpoint of a key that the start had written. */
  lemma FilterCoveredExact(env: Env, node: string, evs: seq<Event>)
    ensures (forall n :: 0 <= n <= |evs| ==> Covered(env, Run(env, node, evs[..n]).index)) <==>
            AllKeepCover(env, node, evs)
  {
    hide Covered, KeepsCover, Run, Step;
    if AllKeepCover(env, node, evs) {
      forall n | 0 <= n <= |evs| ensures Covered(env, Run(env, node, evs[..n]).index) {
        CoveredUpTo(env, node, evs, n);
      }
    }
    if forall n :: 0 <= n <= |evs| ==> Covered(env, Run(env, node, evs[..n]).index) {
      forall n | 0 <= n < |evs| ensures KeepsCover(env, node, Run(env, node, evs[..n]), evs[n]) {
        assert Covered(env, Run(env, node, evs[..n]).index) && Covered(env, Run(env, node, evs[..n + 1]).index);
        RunStep(env, node, evs, n);
        NotFailedIsClean(env, node, evs[..n]);
        CoverStepExact(env, node, Run(env, node, evs[..n]), evs[n]);
      }
    }
  }

  /** The second of two initial writes fails and then the object is deleted: the key that was written stays in
      the filter of an empty index. */
  lemma FailedStartLeavesKey(env: Env, node: string, o: Endpoints, x: Entry, y: Entry)
    requires Entries(o, node) == [x, y] && x.endpoint != y.endpoint && env.putOk(0) && !env.putOk(1)
    ensures var s := Run(env, node, [Added("a", o), Started([x.endpoint, y.endpoint]), Deleted("a")]);
            && s.live == map[] && s.index.providers == map[]
            && s.index.filter == {env.ipKey(x.endpoint.ip)} && !Covered(env, s.index)
  {
    var order := [x.endpoint, y.endpoint];
    RunOfThree(env, node, Added("a", o), Started(order), Deleted("a"));
    hide Run, Step, WriteAll;
    StepTwo(env, node, INITIAL, "a", o, x, y);
    var both := map[x.endpoint := x.provider, y.endpoint := y.provider];
    var s1 := System(map["a" := o], Index(both, {}, false, 0), false);
    assert Step(env, node, INITIAL, Added("a", o)) == s1;
    var s2 := System(s1.live, Index(both, {env.ipKey(x.endpoint.ip)}, false, 2), true);
    assert Step(env, node, s1, Started(order)) == s2 by {
      SecondWriteFails(env, node, s1, x.endpoint, y.endpoint);
    }
    StepTwo(env, node, s2, "a", o, x, y);
    var s3 := Step(env, node, s2, Deleted("a"));
    assert s3.index.providers == map[] && s3.live == map[];
    NoIpKeys(env);
    assert env.ipKey(x.endpoint.ip) in s3.index.filter;
  }

  lemma SecondWriteFails(env: Env, node: string, s: System, x: Endpoint, y: Endpoint)
    requires !s.started && s.index.providers.Keys == {x, y} && x != y && s.index.filter == {} && s.index.puts == 0
    requires env.putOk(0) && !env.putOk(1)
    ensures Step(env, node, s, Started([x, y])) ==
            System(s.live, Index(s.index.providers, {env.ipKey(x.ip)}, false, 2), true)
  {
    var kx, ky := env.ipKey(x.ip), env.ipKey(y.ip);
    assert Listed([x, y]) == {x, y};
    assert [x, y][1..] == [y];
    assert !CanPut(env, {kx}, 1, ky);
    assert WriteAll(env, {kx}, 1, [y]) == Written({kx}, 2, false);
    assert {} + {kx} == {kx};
    assert WriteAll(env, {}, 0, [x, y]) == Written({kx}, 2, false);
  }

  /** What an event does whose object has one entry. */
  lemma StepOne(env: Env, node: string, s: System, id: string, o: Endpoints, e: Entry)
    requires Entries(o, node) == [e]
    ensures id !in s.live ==>
              Step(env, node, s, Added(id, o)) == System(s.live[id := o], PutEntry(env, s.index, e), s.started)
    ensures id in s.live && s.live[id] == o ==>
              Step(env, node, s, Deleted(id)) == System(s.live - {id}, DeleteEntry(env, s.index, e), s.started)
  {
    hide PutEntry, DeleteEntry, Entries;
    AppendNone(env, s.index);
    AppendEntry(env, s.index, [], e);
    assert [] + [e] == [e];
  }

  /** What an unwatched event does whose object has two entries. */
  lemma StepTwo(env: Env, node: string, s: System, id: string, o: Endpoints, x: Entry, y: Entry)
    requires Entries(o, node) == [x, y] && !s.index.watched
    ensures id !in s.live ==>
              Step(env, node, s, Added(id, o)) ==
                System(s.live[id := o],
                       s.index.(providers := s.index.providers[x.endpoint := x.provider][y.endpoint := y.provider]),
                       s.started)
    ensures id in s.live && s.live[id] == o ==>
              Step(env, node, s, Deleted(id)) ==
                System(s.live - {id}, s.index.(providers := s.index.providers - {x.endpoint} - {y.endpoint}), s.started)
  {
    hide Entries, PutAll, DeleteAll;
    AppendNone(env, s.index);
    AppendEntry(env, s.index, [], x);
    AppendEntry(env, s.index, [x], y);
    assert [] + [x] == [x] && [x] + [y] == [x, y];
  }

  lemma RunOfThree(env: Env, node: string, e1: Event, e2: Event, e3: Event)
    ensures Run(env, node, [e1, e2, e3]) ==
            Step(env, node, Step(env, node, Step(env, node, INITIAL, e1), e2), e3)
  {
    hide Step;
    var one := [e1];
    var two := one + [e2];
    assert [e1, e2, e3] == two + [e3] && [] + [e1] == one;
    RunAppend(env, node, [], e1);
    hide Run;
    RunAppend(env, node, one, e2);
    RunAppend(env, node, two, e3);
  }

  lemma RunOfFour(env: Env, node: string, e1: Event, e2: Event, e3: Event, e4: Event)
    ensures Run(env, node, [e1, e2, e3, e4]) ==
            Step(env, node, Step(env, node, Step(env, node, Step(env, node, INITIAL, e1), e2), e3), e4)
  {
    hide Step, Run;
    RunOfThree(env, node, e1, e2, e3);
    RunAppend(env, node, [e1, e2, e3], e4);
    assert [e1, e2, e3] + [e4] == [e1, e2, e3, e4];
  }

  /** After every loop iteration of every run without a failed start, later failed writes included: no key in
      the filter without an endpoint in the index. The n-th prefix of an event's deletions, then of its
      additions. */
  lemma FilterCovered(env: Env, node: string, evs: seq<Event>, ev: Event)
    requires !Run(env, node, evs).StartFailed()
    ensures var s := Run(env, node, evs);
            var gone, come := Gone(node, s, ev), Come(node, ev);
            && Covered(env, s.index)
            && (forall n :: 0 <= n <= |gone| ==> Covered(env, DeleteAll(env, s.index, gone[..n])))
            && (forall n :: 0 <= n <= |come| ==> Covered(env, PutAll(env, DeleteAll(env, s.index, gone), come[..n])))
  {
    var s := Run(env, node, evs).index;
    var gone, come := Gone(node, Run(env, node, evs), ev), Come(node, ev);
    NeverFailed(env, node, evs);
    NotFailedIsClean(env, node, evs);
    hide Run, Gone, Come, Covered;
    forall n | 0 <= n <= |gone| ensures Covered(env, DeleteAll(env, s, gone[..n])) {
      CoveredAll(env, s, gone[..n]);
    }
    CoveredAll(env, s, gone);
    forall n | 0 <= n <= |come| ensures Covered(env, PutAll(env, DeleteAll(env, s, gone), come[..n])) {
      CoveredAll(env, DeleteAll(env, s, gone), come[..n]);
    }
  }

  lemma {:induction false} NeverFailed(env: Env, node: string, evs: seq<Event>)
    requires !Run(env, node, evs).StartFailed()
    ensures Covered(env, Run(env, node, evs).index)
  {
    hide Covered, Step;
    if evs != [] {
      var p := evs[..|evs| - 1];
      if Run(env, node, p).StartFailed() {
        FailedStartIsFinal(env, node, Run(env, node, p), evs[|evs| - 1]);
      } else {
        NeverFailed(env, node, p);
        NotFailedIsClean(env, node, p);
        CoverStepExact(env, node, Run(env, node, p), evs[|evs| - 1]);
      }
    } else {
      NothingCovered(env);
    }
  }

  lemma NothingCovered(env: Env)
    ensures Covered(env, INITIAL.index)
  {
  }

  predicate FilterAgrees(env: Env, s: Index) {
    s.filter == if s.watched then IpKeys(env, s.providers.Keys) else {}
  }

  lemma IpKeysUnion(env: Env, a: set<Endpoint>, b: set<Endpoint>)
    ensures IpKeys(env, a + b) == IpKeys(env, a) + IpKeys(env, b)
  {
  }

  lemma IpKeysWithout(env: Env, a: set<Endpoint>, gone: set<Endpoint>)
    ensures IpKeys(env, a) - IpKeys(env, gone) <= IpKeys(env, a - gone) <= IpKeys(env, a)
  {
    forall k | k in IpKeys(env, a) && k !in IpKeys(env, gone) ensures k in IpKeys(env, a - gone) {
      var ep :| ep in a && env.ipKey(ep.ip) == k;
      assert ep !in gone;
    }
  }

  /** Exactly when deleting one list of entries and adding another keeps the filter equal to the indexed IPs:
      a key of a deleted entry that another indexed endpoint still has must come back. */
  lemma FilterExact(env: Env, s: Index, gone: seq<Entry>, come: seq<Entry>)
    requires s.watched && FilterAgrees(env, s) && AllPutsOk(env)
    requires |IpKeys(env, (s.providers.Keys - Eps(gone)) + Eps(come))| <= MAX_MAP_FILTER_IP
    ensures FilterAgrees(env, PutAll(env, DeleteAll(env, s, gone), come)) <==>
            IpKeys(env, Eps(gone)) * IpKeys(env, s.providers.Keys - Eps(gone)) <= IpKeys(env, Eps(come))
  {
    var mid := DeleteAll(env, s, gone);
    var rest := s.providers.Keys - Eps(gone);
    hide IpKeys, Eps, FromScratch, AllPutsOk;
    DeleteAllClosed(env, s, gone);
    PutAllProviders(env, mid, come);
    FromScratchIsInEntries(come);
    IpKeysWithout(env, s.providers.Keys, Eps(gone));
    IpKeysUnion(env, rest, Eps(come));
    SubsetSize(mid.filter + IpKeys(env, Eps(come)), IpKeys(env, rest + Eps(come)));
    PutAllFilter(env, mid, come);
    assert PutAll(env, mid, come).providers.Keys == rest + Eps(come);
  }

  /** After the event, no deleted key is missing that an indexed endpoint still has. */
  predicate KeepsFilter(env: Env, node: string, s: System, ev: Event) {
    Legal(s, ev) && !ev.Started? && s.index.watched ==>
      var gone := Eps(Gone(node, s, ev));
      IpKeys(env, gone) * IpKeys(env, s.index.providers.Keys - gone) <= IpKeys(env, Eps(Come(node, ev)))
  }

  predicate FewKeys(env: Env, s: Index) {
    |IpKeys(env, s.providers.Keys)| <= MAX_MAP_FILTER_IP
  }

  /** A resync deletes the object's keys from the filter and writes them again, so it changes nothing there
      exactly when for each of them one of the writes succeeds. */
  lemma ResyncFilterExact(env: Env, node: string, s: System, id: string)
    requires id in s.live && FilterAgrees(env, s.index) && FewKeys(env, s.index)
    requires EpsOf(node, s.live[id]) <= s.index.providers.Keys
    ensures var own := Entries(s.live[id], node);
            Step(env, node, s, Updated(id, s.live[id])).index.filter == s.index.filter
            <==>
            (s.index.watched ==> IpKeys(env, Eps(own)) <= Landed(env, s.index.puts, own))
  {
    hide IpKeys, Eps, FromScratch, Entries, Landed, PutAll, DeleteAll;
    var own := Entries(s.live[id], node);
    var mid := DeleteAll(env, s.index, own);
    DeleteAllClosed(env, s.index, own);
    if s.index.watched {
      OwnKeys(env, s.index, Eps(own));
      DeleteKeepsPuts(env, s.index, own);
      PutAllLands(env, mid, own, s.index.filter);
      LandedAreKeys(env, mid.puts, own);
      TakeAndReturn(s.index.filter, IpKeys(env, Eps(own)), Landed(env, mid.puts, own));
    } else {
      PutAllProviders(env, mid, own);
    }
  }

  lemma OwnKeys(env: Env, s: Index, own: set<Endpoint>)
    requires s.watched && FilterAgrees(env, s) && FewKeys(env, s) && own <= s.providers.Keys
    ensures IpKeys(env, own) <= s.filter
    ensures |s.filter| <= MAX_MAP_FILTER_IP
  {
  }

  lemma TakeAndReturn<T>(whole: set<T>, taken: set<T>, back: set<T>)
    requires back <= taken <= whole
    ensures (whole - taken) + back == whole <==> taken <= back
  {
    if taken <= back {
      assert back == taken;
    }
    if (whole - taken) + back == whole {
      forall x | x in taken ensures x in back {
        assert x in (whole - taken) + back;
      }
    }
  }

  lemma {:induction false} DeleteKeepsPuts(env: Env, s: Index, es: seq<Entry>)
    ensures DeleteAll(env, s, es).puts == s.puts
  {
    if es != [] {
      DeleteKeepsPuts(env, s, es[..|es| - 1]);
    }
  }

  /** The start succeeds when no write fails and there is room. */
  lemma StartAgrees(env: Env, s: Index, order: seq<Endpoint>)
    requires AllPutsOk(env) && FewKeys(env, s) && s.filter == {} && IsOrderOf(order, s.providers.Keys)
    ensures StartIndex(env, s, order).watched && FilterAgrees(env, StartIndex(env, s, order))
  {
    WriteAllExact(env, {}, s.puts, order);
    assert {} + IpKeys(env, Listed(order)) == IpKeys(env, s.providers.Keys);
  }

  lemma KeepsFilterExact(env: Env, node: string, s: System, ev: Event)
    requires AllPutsOk(env) && FilterAgrees(env, s.index) && !s.StartFailed()
    requires !s.started ==> !s.index.watched
    requires FewKeys(env, s.index) && FewKeys(env, Step(env, node, s, ev).index)
    ensures FilterAgrees(env, Step(env, node, s, ev).index) <==> KeepsFilter(env, node, s, ev)
    ensures !Step(env, node, s, ev).StartFailed()
  {
    hide IpKeys, Eps, AllPutsOk;
    if !Legal(s, ev) {
    } else if ev.Started? {
      StartAgrees(env, s.index, ev.order);
    } else {
      var gone, come := Gone(node, s, ev), Come(node, ev);
      StepIndex(env, node, s, ev);
      hide Step, Gone, Come;
      DeleteAllClosed(env, s.index, gone);
      PutAllProviders(env, DeleteAll(env, s.index, gone), come);
      FromScratchIsInEntries(come);
      if s.index.watched {
        FilterExact(env, s.index, gone, come);
      }
    }
  }

  ghost predicate AllKeepFilter(env: Env, node: string, evs: seq<Event>) {
    forall n :: 0 <= n < |evs| ==> KeepsFilter(env, node, Run(env, node, evs[..n]), evs[n])
  }

  ghost predicate AlwaysFewKeys(env: Env, node: string, evs: seq<Event>) {
    forall n :: 0 <= n <= |evs| ==> FewKeys(env, Run(env, node, evs[..n]).index)
  }

  lemma {:induction false} FilterUpTo(env: Env, node: string, evs: seq<Event>, n: nat)
    requires n <= |evs| && AllPutsOk(env) && AlwaysFewKeys(env, node, evs)
    requires forall m :: 0 <= m < n ==> KeepsFilter(env, node, Run(env, node, evs[..m]), evs[m])
    ensures FilterAgrees(env, Run(env, node, evs[..n]).index) && !Run(env, node, evs[..n]).StartFailed()
  {
    hide KeepsFilter, Step, AllPutsOk, FewKeys;
    if n > 0 {
      FilterUpTo(env, node, evs, n - 1);
      NotFailedIsClean(env, node, evs[..n - 1]);
      RunStep(env, node, evs, n - 1);
      assert FewKeys(env, Run(env, node, evs[..n - 1]).index) && FewKeys(env, Run(env, node, evs[..n]).index);
      KeepsFilterExact(env, node, Run(env, node, evs[..n - 1]), evs[n - 1]);
    } else {
      assert evs[..0] == [];
    }
  }

  /** Whole runs, with at most 300 indexed keys at a time and no failing write: the filter is exactly the
      indexed keys after every event if and only if no event deletes a key that an endpoint still has. */
  lemma FilterThroughout(env: Env, node: string, evs: seq<Event>)
    requires AllPutsOk(env) && AlwaysFewKeys(env, node, evs)
    ensures (forall n :: 0 <= n <= |evs| ==> FilterAgrees(env, Run(env, node, evs[..n]).index)) <==>
            AllKeepFilter(env, node, evs)
  {
    hide FilterAgrees, KeepsFilter, Run, Step, FewKeys, AllPutsOk;
    if AllKeepFilter(env, node, evs) {
      forall n | 0 <= n <= |evs| ensures FilterAgrees(env, Run(env, node, evs[..n]).index) {
        FilterUpTo(env, node, evs, n);
      }
    }
    if forall n :: 0 <= n <= |evs| ==> FilterAgrees(env, Run(env, node, evs[..n]).index) {
      forall n | 0 <= n < |evs| ensures KeepsFilter(env, node, Run(env, node, evs[..n]), evs[n]) {
        FilterAgreesKeeps(env, node, evs, n);
      }
    }
  }

  lemma {:induction false} FilterAgreesKeeps(env: Env, node: string, evs: seq<Event>, n: nat)
    requires n < |evs| && AllPutsOk(env) && AlwaysFewKeys(env, node, evs)
    requires forall m :: 0 <= m <= |evs| ==> FilterAgrees(env, Run(env, node, evs[..m]).index)
    ensures KeepsFilter(env, node, Run(env, node, evs[..n]), evs[n])
  {
    hide FilterAgrees, KeepsFilter, Run, Step, FewKeys, AllPutsOk;
    forall m | 0 <= m < n ensures KeepsFilter(env, node, Run(env, node, evs[..m]), evs[m]) {
      FilterAgreesKeeps(env, node, evs, m);
    }
    FilterUpTo(env, node, evs, n);
    NotFailedIsClean(env, node, evs[..n]);
    RunStep(env, node, evs, n);
    assert FilterAgrees(env, Run(env, node, evs[..n]).index) && FilterAgrees(env, Run(env, node, evs[..n + 1]).index);
    assert FewKeys(env, Run(env, node, evs[..n]).index) && FewKeys(env, Run(env, node, evs[..n + 1]).index);
    KeepsFilterExact(env, node, Run(env, node, evs[..n]), evs[n]);
  }

  /** Two objects with different ports of one IP: their endpoints are disjoint, so the index stays right, but
      when one of them is deleted the IP of the other is gone from the filter. */
  lemma SharedIpIsLost(env: Env, node: string, o: Endpoints, p: Endpoints, x: Entry, y: Entry)
    requires Entries(o, node) == [x] && Entries(p, node) == [y]
    requires x.endpoint.ip == y.endpoint.ip && x.endpoint.port != y.endpoint.port
    ensures var s := Run(env, node, [Started([]), Added("a", o), Added("b", p), Deleted("a")]);
            && s.live == map["b" := p] && s.index.watched
            && s.index.providers == map[y.endpoint := y.provider] && KeysAgree(node, s)
            && env.ipKey(y.endpoint.ip) in IpKeys(env, LiveEps(node, s.live)) && s.index.filter == {}
    ensures Disjoint(node, map["a" := o, "b" := p])
  {
    RunOfFour(env, node, Started([]), Added("a", o), Added("b", p), Deleted("a"));
    hide Run, IpKeys, LiveEps, Entries, Step, FilterPut, Disjoint;
    var s1 := System(map[], Index(map[], {}, true, 0), true);
    assert Step(env, node, INITIAL, Started([])) == s1 by { EmptyStart(env, node); }
    StepOne(env, node, s1, "a", o, x);
    var s2 := Step(env, node, s1, Added("a", o));
    assert s2.live == map["a" := o] && s2.index.watched && s2.index.providers == map[x.endpoint := x.provider];
    assert s2.index.filter <= {env.ipKey(x.endpoint.ip)} by { PutOnly(env, s1.index, x); }
    StepOne(env, node, s2, "b", p, y);
    var s3 := Step(env, node, s2, Added("b", p));
    assert s3.live == map["a" := o, "b" := p] && s3.index.watched;
    assert s3.index.providers == map[x.endpoint := x.provider, y.endpoint := y.provider];
    assert s3.index.filter <= {env.ipKey(x.endpoint.ip)} by { PutOnly(env, s2.index, y); }
    StepOne(env, node, s3, "a", o, x);
    OneLeft(env, node, Step(env, node, s3, Deleted("a")), p, y);
    assert Disjoint(node, map["a" := o, "b" := p]) by { TwoDisjoint(node, o, p, x, y); }
  }

  lemma EmptyStart(env: Env, node: string)
    ensures Step(env, node, INITIAL, Started([])) == System(map[], Index(map[], {}, true, 0), true)
  {
    assert Listed([]) == {};
  }

  lemma PutOnly(env: Env, s: Index, e: Entry)
    requires s.filter <= {env.ipKey(e.endpoint.ip)}
    ensures PutEntry(env, s, e).filter <= {env.ipKey(e.endpoint.ip)}
  {
  }

  lemma OneLeft(env: Env, node: string, s: System, o: Endpoints, e: Entry)
    requires s.live == map["b" := o] && Entries(o, node) == [e] && s.index.providers.Keys == {e.endpoint}
    ensures KeysAgree(node, s) && env.ipKey(e.endpoint.ip) in IpKeys(env, LiveEps(node, s.live))
  {
    hide Entries;
    OneLive(node, "b", o);
    OneEp(node, o, e);
    IpKeysOf(env, {e.endpoint}, e.endpoint);
  }

  lemma TwoDisjoint(node: string, o: Endpoints, p: Endpoints, x: Entry, y: Entry)
    requires Entries(o, node) == [x] && Entries(p, node) == [y] && x.endpoint != y.endpoint
    ensures Disjoint(node, map["a" := o, "b" := p])
  {
    OneEp(node, o, x);
    OneEp(node, p, y);
    hide EpsOf;
  }

  lemma OneLive(node: string, id: string, o: Endpoints)
    ensures LiveEps(node, map[id := o]) == EpsOf(node, o)
  {
    assert map[id := o][id] == o;
  }

  lemma OneEp(node: string, o: Endpoints, e: Entry)
    requires Entries(o, node) == [e]
    ensures EpsOf(node, o) == {e.endpoint}
  {
    assert e in Entries(o, node);
  }

  ghost predicate NoSharedKeys(env: Env, node: string, live: Live) {
    forall id, id' :: id in live && id' in live && id != id' ==>
      IpKeys(env, EpsOf(node, live[id])) !! IpKeys(env, EpsOf(node, live[id']))
  }

  ghost predicate FewLiveIps(env: Env, node: string, evs: seq<Event>) {
    forall n :: 0 <= n <= |evs| ==>
      var live := Run(env, node, evs[..n]).live;
      NoSharedKeys(env, node, live) && |IpKeys(env, LiveEps(node, live))| <= MAX_MAP_FILTER_IP
  }

  lemma NoSharedKeysDisjoint(env: Env, node: string, live: Live)
    requires NoSharedKeys(env, node, live)
    ensures Disjoint(node, live)
  {
    forall id, id' | id in live && id' in live && id != id'
      ensures EpsOf(node, live[id]) !! EpsOf(node, live[id'])
    {
      var other := EpsOf(node, live[id']);
      forall ep | ep in EpsOf(node, live[id]) ensures ep !in other {
        IpKeysOf(env, EpsOf(node, live[id]), ep);
        assert env.ipKey(ep.ip) !in IpKeys(env, other);
      }
    }
  }

  lemma OtherKeysDisjoint(env: Env, node: string, live: Live, id: string)
    requires NoSharedKeys(env, node, live) && id in live
    ensures IpKeys(env, EpsOf(node, live[id])) !! IpKeys(env, LiveEps(node, live - {id}))
  {
    var rest := live - {id};
    forall k | k in IpKeys(env, LiveEps(node, rest)) ensures k !in IpKeys(env, EpsOf(node, live[id])) {
      var ep :| ep in LiveEps(node, rest) && env.ipKey(ep.ip) == k;
      var i :| i in rest && ep in EpsOf(node, rest[i]);
      IpKeysOf(env, EpsOf(node, live[i]), ep);
      assert i in live && i != id;
    }
  }

  lemma UnsharedKeepsFilter(env: Env, node: string, s: System, ev: Event)
    requires KeysAgree(node, s) && NoSharedKeys(env, node, s.live)
    ensures KeepsFilter(env, node, s, ev)
  {
    if Legal(s, ev) && (ev.Deleted? || ev.Updated?) {
      hide IpKeys;
      LiveEpsWithout(node, s.live, ev.id);
      OtherKeysDisjoint(env, node, s.live, ev.id);
      var gone := Eps(Gone(node, s, ev));
      var rest := LiveEps(node, s.live - {ev.id});
      assert gone == EpsOf(node, s.live[ev.id]);
      assert s.index.providers.Keys - gone <= rest;
      IpKeysUnion(env, s.index.providers.Keys - gone, rest);
      assert (s.index.providers.Keys - gone) + rest == rest;
    } else {
      assert Eps([]) == {};
      NoIpKeys(env);
    }
  }

  lemma FewLiveIpsTake(env: Env, node: string, evs: seq<Event>, n: nat)
    requires FewLiveIps(env, node, evs) && n <= |evs|
    ensures FewLiveIps(env, node, evs[..n])
  {
    forall m | 0 <= m <= n
      ensures var live := Run(env, node, evs[..n][..m]).live;
              NoSharedKeys(env, node, live) && |IpKeys(env, LiveEps(node, live))| <= MAX_MAP_FILTER_IP
    {
      assert evs[..n][..m] == evs[..m];
    }
  }

  lemma FewLiveIpsNow(env: Env, node: string, evs: seq<Event>)
    requires FewLiveIps(env, node, evs)
    ensures NoSharedKeys(env, node, Run(env, node, evs).live)
    ensures |IpKeys(env, LiveEps(node, Run(env, node, evs).live))| <= MAX_MAP_FILTER_IP
    ensures KeysAgree(node, Run(env, node, evs))
  {
    assert evs[..|evs|] == evs;
    forall n | 0 <= n <= |evs| ensures Disjoint(node, Run(env, node, evs[..n]).live) {
      NoSharedKeysDisjoint(env, node, Run(env, node, evs[..n]).live);
    }
    FlatteningRun(env, node, evs);
  }

  /** With no IP key shared by two live objects and at most 300 of them live, the filter is exactly the live
      IPs after every event from the plugin's start on. */
  lemma FilterIsLiveIps(env: Env, node: string, evs: seq<Event>)
    requires AllPutsOk(env) && FewLiveIps(env, node, evs)
    ensures var s := Run(env, node, evs);
            && s.index.filter == (if s.index.watched then IpKeys(env, LiveEps(node, s.live)) else {})
            && s.index.watched == s.started
  {
    hide Step, NoSharedKeys, IpKeys, LiveEps, AllPutsOk, KeepsFilter;
    forall n | 0 <= n <= |evs|
      ensures FewKeys(env, Run(env, node, evs[..n]).index)
      ensures KeysAgree(node, Run(env, node, evs[..n])) && NoSharedKeys(env, node, Run(env, node, evs[..n]).live)
    {
      FewLiveIpsTake(env, node, evs, n);
      FewLiveIpsNow(env, node, evs[..n]);
    }
    forall n | 0 <= n < |evs| ensures KeepsFilter(env, node, Run(env, node, evs[..n]), evs[n]) {
      UnsharedKeepsFilter(env, node, Run(env, node, evs[..n]), evs[n]);
    }
    FilterUpTo(env, node, evs, |evs|);
    NotFailedIsClean(env, node, evs);
    assert evs[..|evs|] == evs;
  }
}
