/** The IP filter with the keys user space really computes: net.ParseIP into ipv4ToUint32. */
module FilterKeys {
  import opened Wire
  import opened AddressOrder
  import opened EndpointIndex
  import opened EndpointRuns
  import Matcher

  /** The key of an IPv4 address in dotted form, as plugins/http/ebpf.go computes it. */
  ghost predicate ParsesV4(env: Env) {
    forall v4: seq<byte> | |v4| == 4 :: env.ipKey(Dotted(v4)) == Ipv4ToUint32(Mapped(v4))
  }

  ghost predicate IsV4(ip: string) {
    exists v4: seq<byte> | |v4| == 4 :: ip == Dotted(v4)
  }

  ghost predicate AllV4(eps: set<Endpoint>) {
    forall ep :: ep in eps ==> IsV4(ep.ip)
  }

  ghost predicate OnlyV4(node: string, evs: seq<Event>) {
    forall n :: 0 <= n < |evs| && (evs[n].Added? || evs[n].Updated?) ==> AllV4(EpsOf(node, evs[n].o))
  }

  lemma KeysAreZero(env: Env, eps: set<Endpoint>)
    requires ParsesV4(env) && AllV4(eps)
    ensures IpKeys(env, eps) == if eps == {} then {} else {0}
  {
    hide Dotted, Mapped, Ipv4ToUint32;
    forall ep | ep in eps ensures env.ipKey(ep.ip) == 0 {
      var v4: seq<byte> :| |v4| == 4 && ep.ip == Dotted(v4);
      MappedKeyIsZero(v4);
    }
    if eps != {} {
      var ep :| ep in eps;
      IpKeysOf(env, eps, ep);
    }
  }

  lemma {:induction false} PutsOnlyTheirKeys(env: Env, s: Index, es: seq<Entry>)
    ensures PutAll(env, s, es).filter <= s.filter + IpKeys(env, Eps(es))
  {
    if es != [] {
      var p := es[..|es| - 1];
      PutsOnlyTheirKeys(env, s, p);
      EpsLast(es);
      IpKeysGrow(env, Eps(p), es[|es| - 1].endpoint);
    }
  }

  lemma ZeroStep(env: Env, node: string, s: System, ev: Event)
    requires ParsesV4(env) && s.index.filter <= {0} && AllV4(s.index.providers.Keys)
    requires ev.Added? || ev.Updated? ==> AllV4(EpsOf(node, ev.o))
    ensures Step(env, node, s, ev).index.filter <= {0} && AllV4(Step(env, node, s, ev).index.providers.Keys)
  {
    if Legal(s, ev) {
      hide ParsesV4, AllV4, IpKeys;
      if ev.Started? {
        WriteAllExact(env, s.index.filter, s.index.puts, ev.order);
        KeysAreZero(env, s.index.providers.Keys);
      } else {
        var gone, come := Gone(node, s, ev), Come(node, ev);
        assert AllV4(Eps(come)) by { NoneV4(); }
        StepIndex(env, node, s, ev);
        hide Step, Gone, Come, Eps;
        DeleteAllClosed(env, s.index, gone);
        PutsOnlyTheirKeys(env, DeleteAll(env, s.index, gone), come);
        PutAllProviders(env, DeleteAll(env, s.index, gone), come);
        FromScratchIsInEntries(come);
        KeysAreZero(env, Eps(come));
        V4Part(s.index.providers.Keys, Eps(gone), Eps(come));
      }
    }
  }

  lemma NoneV4()
    ensures AllV4(Eps([]))
  {
  }

  lemma V4Part(a: set<Endpoint>, gone: set<Endpoint>, come: set<Endpoint>)
    requires AllV4(a) && AllV4(come)
    ensures AllV4(a - gone + come)
  {
  }

  /** Every run over IPv4 endpoints, failed writes included: the filter never holds a key but 0. */
  lemma {:induction false} FilterIsZero(env: Env, node: string, evs: seq<Event>)
    requires ParsesV4(env) && OnlyV4(node, evs)
    ensures Run(env, node, evs).index.filter <= {0}
    ensures AllV4(Run(env, node, evs).index.providers.Keys)
  {
    if evs != [] {
      var p := evs[..|evs| - 1];
      hide ParsesV4, IsV4, Step, EpsOf;
      assert OnlyV4(node, p);
      FilterIsZero(env, node, p);
      ZeroStep(env, node, Run(env, node, p), evs[|evs| - 1]);
    }
  }

  /** So the kernel's filter test does nothing for packets with a nonzero address: after every run, each of
      them is taken as if there were no filter. */
  lemma NoPacketIsSkipped(env: Env, node: string, evs: seq<Event>, skb: seq<byte>, now: u64, storeOk: bool)
    requires ParsesV4(env) && OnlyV4(node, evs)
    requires Matcher.ParseHeaders(skb).saddr != 0 || Matcher.ParseHeaders(skb).daddr != 0
    ensures Matcher.Classify(skb, Run(env, node, evs).index.filter, now, storeOk) ==
            Matcher.Classify(skb, {}, now, storeOk)
  {
    hide Matcher.ParseHeaders, ParsesV4, OnlyV4, Run;
    FilterIsZero(env, node, evs);
  }

  /** And one deletion empties it: deleting any indexed object with an endpoint on this node leaves an empty
      filter, which is right exactly when nothing stays indexed. */
  lemma DeletionEmptiesFilter(env: Env, node: string, evs: seq<Event>, id: string)
    requires ParsesV4(env) && OnlyV4(node, evs)
    requires var s := Run(env, node, evs);
             s.index.watched && id in s.live && EpsOf(node, s.live[id]) != {}
    ensures var after := Run(env, node, evs + [Deleted(id)]).index;
            after.filter == {} && (FilterAgrees(env, after) <==> after.providers == map[])
  {
    hide ParsesV4, AllV4, IpKeys, OnlyV4;
    var s := Run(env, node, evs);
    RunAppend(env, node, evs, Deleted(id));
    hide Run;
    FilterIsZero(env, node, evs);
    LiveIsV4(env, node, evs, id);
    DeleteAllClosed(env, s.index, Entries(s.live[id], node));
    KeysAreZero(env, EpsOf(node, s.live[id]));
    var after := Step(env, node, s, Deleted(id)).index;
    NoneV4();
    assert Eps([]) == {};
    V4Part(s.index.providers.Keys, EpsOf(node, s.live[id]), {});
    assert after.providers.Keys == s.index.providers.Keys - EpsOf(node, s.live[id]) + {};
    KeysAreZero(env, after.providers.Keys);
  }

  lemma {:induction false} LiveIsV4(env: Env, node: string, evs: seq<Event>, id: string)
    requires OnlyV4(node, evs) && id in Run(env, node, evs).live
    ensures AllV4(EpsOf(node, Run(env, node, evs).live[id]))
  {
    hide AllV4, EpsOf;
    if evs != [] {
      var p, ev := evs[..|evs| - 1], evs[|evs| - 1];
      assert OnlyV4(node, p);
      if id in Run(env, node, p).live {
        LiveIsV4(env, node, p, id);
      }
      if Legal(Run(env, node, p), ev) && !ev.Started? {
        StepLive(env, node, Run(env, node, p), ev);
      }
    }
  }
}
