/** The endpoint index of internal/endpoint2pod and the IP filter that its notifications drive. */
module EndpointIndex {
  import opened Wire

  datatype Endpoint = Endpoint(ip: string, port: int)
  datatype Provider = Provider(podName: string, nodeName: string, nameSpace: string, serviceName: string)

  datatype Address = Address(ip: string, nodeName: Option<string>, targetName: string, targetNamespace: string)
  datatype Subset = Subset(addresses: seq<Address>, ports: seq<int>)
  datatype Endpoints = Endpoints(name: string, subsets: seq<Subset>)

  const MAX_MAP_FILTER_IP := 300

  // ---------------------------------------------------------------- an object, flattened

  datatype Entry = Entry(endpoint: Endpoint, provider: Provider)

  predicate OnNode(a: Address, node: string) {
    a.nodeName == Some(node)
  }

  function MakeEntry(name: string, a: Address, port: int, node: string): Entry {
    Entry(Endpoint(a.ip, port), Provider(a.targetName, node, a.targetNamespace, name))
  }

  function PortEntries(name: string, a: Address, ports: seq<int>, node: string): seq<Entry> {
    if ports == [] then []
    else
      var n := |ports| - 1;
      PortEntries(name, a, ports[..n], node) + if OnNode(a, node) then [MakeEntry(name, a, ports[n], node)] else []
  }

  function AddressEntries(name: string, addresses: seq<Address>, ports: seq<int>, node: string): seq<Entry> {
    if addresses == [] then []
    else
      var n := |addresses| - 1;
      AddressEntries(name, addresses[..n], ports, node) + PortEntries(name, addresses[n], ports, node)
  }

  function SubsetEntries(name: string, subsets: seq<Subset>, node: string): seq<Entry> {
    if subsets == [] then []
    else
      var n := |subsets| - 1;
      SubsetEntries(name, subsets[..n], node) + AddressEntries(name, subsets[n].addresses, subsets[n].ports, node)
  }

  function Entries(o: Endpoints, node: string): seq<Entry> {
    SubsetEntries(o.name, o.subsets, node)
  }

  // ---------------------------------------------------------------- what the entries of an object are

  /** The positions (subset, address, port) of an object, in the order of the nested loops. */
  datatype Position = Position(i: nat, j: nat, k: nat)
  {
    predicate Before(p: Position) {
      i < p.i || (i == p.i && (j < p.j || (j == p.j && k < p.k)))
    }

    /** The address here is on the node; this is its endpoint at this port, and its provider. */
    predicate Holds(o: Endpoints, node: string, e: Entry) {
      && i < |o.subsets| && j < |o.subsets[i].addresses| && k < |o.subsets[i].ports|
      && var a := o.subsets[i].addresses[j];
         && a.nodeName == Some(node)
         && e.endpoint.ip == a.ip && e.endpoint.port == o.subsets[i].ports[k]
         && e.provider.podName == a.targetName && e.provider.nodeName == node
         && e.provider.nameSpace == a.targetNamespace && e.provider.serviceName == o.name
    }
  }

  predicate Between(p: Position, from: Position, to: Position) {
    !p.Before(from) && p.Before(to)
  }

  /** The entries are those of the positions in a stretch, all of them, in order. */
  ghost predicate IsStretch(es: seq<Entry>, ps: seq<Position>, o: Endpoints, node: string,
                            from: Position, to: Position)
  {
    && |es| == |ps|
    && (forall n :: 0 <= n < |ps| ==> ps[n].Holds(o, node, es[n]) && Between(ps[n], from, to))
    && (forall m, n :: 0 <= m < n < |ps| ==> ps[m].Before(ps[n]))
    && (forall p: Position, e :: p.Holds(o, node, e) && Between(p, from, to) ==> p in ps)
  }

  lemma Stretches(es: seq<Entry>, ps: seq<Position>, es': seq<Entry>, ps': seq<Position>, o: Endpoints, node: string,
                  from: Position, mid: Position, to: Position)
    requires IsStretch(es, ps, o, node, from, mid) && IsStretch(es', ps', o, node, mid, to)
    requires !mid.Before(from) && !to.Before(mid)
    ensures IsStretch(es + es', ps + ps', o, node, from, to)
  {
    var all := ps + ps';
    forall m, n | 0 <= m < n < |all| ensures all[m].Before(all[n]) {
      if m < |ps| <= n {
        assert ps[m].Before(mid) && !ps'[n - |ps|].Before(mid);
      }
    }
    forall p: Position, e | p.Holds(o, node, e) && Between(p, from, to) ensures p in all {
      if p.Before(mid) {
        assert p in ps;
      } else {
        assert p in ps';
      }
    }
  }

  lemma EmptyStretch(o: Endpoints, node: string, p: Position)
    ensures IsStretch([], [], o, node, p, p)
  {
  }

  /** Where no position lies between, the end of a stretch can move. */
  lemma StretchTo(es: seq<Entry>, ps: seq<Position>, o: Endpoints, node: string,
                  from: Position, mid: Position, to: Position)
    requires IsStretch(es, ps, o, node, from, mid) && !to.Before(mid)
    requires forall p: Position, e :: p.Holds(o, node, e) && p.Before(to) ==> p.Before(mid)
    ensures IsStretch(es, ps, o, node, from, to)
  {
  }

  lemma {:induction false} PortStretch(o: Endpoints, node: string, i: nat, j: nat, n: nat) returns (ps: seq<Position>)
    requires i < |o.subsets| && j < |o.subsets[i].addresses| && n <= |o.subsets[i].ports|
    ensures IsStretch(PortEntries(o.name, o.subsets[i].addresses[j], o.subsets[i].ports[..n], node), ps, o, node,
                      Position(i, j, 0), Position(i, j, n))
  {
    var a, ports := o.subsets[i].addresses[j], o.subsets[i].ports;
    if n == 0 {
      ps := [];
      EmptyStretch(o, node, Position(i, j, 0));
    } else {
      var m := n - 1;
      ps := PortStretch(o, node, i, j, m);
      var es := PortEntries(o.name, a, ports[..m], node);
      var last := if OnNode(a, node) then [MakeEntry(o.name, a, ports[m], node)] else [];
      var at := if OnNode(a, node) then [Position(i, j, m)] else [];
      assert ports[..n][..m] == ports[..m];
      OnePort(o, node, i, j, m);
      Stretches(es, ps, last, at, o, node, Position(i, j, 0), Position(i, j, m), Position(i, j, n));
      ps := ps + at;
    }
  }

  lemma OnePort(o: Endpoints, node: string, i: nat, j: nat, k: nat)
    requires i < |o.subsets| && j < |o.subsets[i].addresses| && k < |o.subsets[i].ports|
    ensures var a := o.subsets[i].addresses[j];
            IsStretch(if OnNode(a, node) then [MakeEntry(o.name, a, o.subsets[i].ports[k], node)] else [],
                      if OnNode(a, node) then [Position(i, j, k)] else [], o, node,
                      Position(i, j, k), Position(i, j, k + 1))
  {
  }

  lemma {:induction false} AddressStretch(o: Endpoints, node: string, i: nat, n: nat) returns (ps: seq<Position>)
    requires i < |o.subsets| && n <= |o.subsets[i].addresses|
    ensures IsStretch(AddressEntries(o.name, o.subsets[i].addresses[..n], o.subsets[i].ports, node), ps, o, node,
                      Position(i, 0, 0), Position(i, n, 0))
  {
    hide IsStretch, PortEntries;
    var addresses, ports := o.subsets[i].addresses, o.subsets[i].ports;
    if n == 0 {
      ps := [];
      EmptyStretch(o, node, Position(i, 0, 0));
    } else {
      var m := n - 1;
      ps := AddressStretch(o, node, i, m);
      var at := PortStretch(o, node, i, m, |ports|);
      assert ports[..|ports|] == ports && addresses[..n][..m] == addresses[..m];
      var last := PortEntries(o.name, addresses[m], ports, node);
      StretchTo(last, at, o, node, Position(i, m, 0), Position(i, m, |ports|), Position(i, n, 0));
      Stretches(AddressEntries(o.name, addresses[..m], ports, node), ps, last, at, o, node,
                Position(i, 0, 0), Position(i, m, 0), Position(i, n, 0));
      ps := ps + at;
    }
  }

  lemma {:induction false} SubsetStretch(o: Endpoints, node: string, n: nat) returns (ps: seq<Position>)
    requires n <= |o.subsets|
    ensures IsStretch(SubsetEntries(o.name, o.subsets[..n], node), ps, o, node, Position(0, 0, 0), Position(n, 0, 0))
  {
    hide IsStretch, AddressEntries;
    if n == 0 {
      ps := [];
      EmptyStretch(o, node, Position(0, 0, 0));
    } else {
      var m := n - 1;
      ps := SubsetStretch(o, node, m);
      var addresses, ports := o.subsets[m].addresses, o.subsets[m].ports;
      var at := AddressStretch(o, node, m, |addresses|);
      assert addresses[..|addresses|] == addresses && o.subsets[..n][..m] == o.subsets[..m];
      var last := AddressEntries(o.name, addresses, ports, node);
      StretchTo(last, at, o, node, Position(m, 0, 0), Position(m, |addresses|, 0), Position(n, 0, 0));
      Stretches(SubsetEntries(o.name, o.subsets[..m], node), ps, last, at, o, node,
                Position(0, 0, 0), Position(m, 0, 0), Position(n, 0, 0));
      ps := ps + at;
    }
  }

  /** The positions of the entries: one for each, in the order of the loops, and every position on the node. */
  ghost predicate ArePositionsOf(ps: seq<Position>, o: Endpoints, node: string, es: seq<Entry>) {
    && |es| == |ps|
    && (forall n :: 0 <= n < |ps| ==> ps[n].Holds(o, node, es[n]))
    && (forall m, n :: 0 <= m < n < |ps| ==> ps[m].Before(ps[n]))
    && (forall p: Position, e :: p.Holds(o, node, e) ==> p in ps)
  }

  /** What the nested loops go through, without omission and in order. */
  lemma EntriesExact(o: Endpoints, node: string)
    ensures exists ps: seq<Position> :: ArePositionsOf(ps, o, node, Entries(o, node))
    ensures forall e :: e in Entries(o, node) <==> exists p: Position :: p.Holds(o, node, e)
  {
    var ps := SubsetStretch(o, node, |o.subsets|);
    assert o.subsets[..|o.subsets|] == o.subsets;
    var es := Entries(o, node);
    assert IsStretch(es, ps, o, node, Position(0, 0, 0), Position(|o.subsets|, 0, 0));
    forall p: Position, e | p.Holds(o, node, e) ensures p in ps && e in es {
      assert Between(p, Position(0, 0, 0), Position(|o.subsets|, 0, 0));
      var n :| 0 <= n < |ps| && ps[n] == p;
      assert es[n] == e;
    }
    assert ArePositionsOf(ps, o, node, es);
    forall e | e in es ensures exists p: Position :: p.Holds(o, node, e) {
      var n :| 0 <= n < |es| && es[n] == e;
      assert ps[n].Holds(o, node, e);
    }
  }

  // ---------------------------------------------------------------- one loop iteration

  /** What the model cannot see: how an IP string becomes a map key, and which kernel map writes fail. */
  datatype Env = Env(ipKey: string -> u32, putOk: nat -> bool)

  datatype Index = Index(providers: map<Endpoint, Provider>, filter: set<u32>, watched: bool, puts: nat)

  /** FilterIp.Put(key): refused when the map is full, or for reasons of the kernel's own. */
  predicate CanPut(env: Env, filter: set<u32>, puts: nat, key: u32) {
    env.putOk(puts) && (key in filter || |filter| < MAX_MAP_FILTER_IP)
  }

  function FilterPut(env: Env, filter: set<u32>, puts: nat, key: u32): set<u32> {
    if CanPut(env, filter, puts, key) then filter + {key} else filter
  }

  function PutEntry(env: Env, s: Index, e: Entry): Index {
    var providers := s.providers[e.endpoint := e.provider];
    if s.watched
    then Index(providers, FilterPut(env, s.filter, s.puts, env.ipKey(e.endpoint.ip)), true, s.puts + 1)
    else s.(providers := providers)
  }

  function DeleteEntry(env: Env, s: Index, e: Entry): Index {
    s.(providers := s.providers - {e.endpoint},
       filter := if s.watched then s.filter - {env.ipKey(e.endpoint.ip)} else s.filter)
  }

  function PutAll(env: Env, s: Index, es: seq<Entry>): Index {
    if es == [] then s else PutEntry(env, PutAll(env, s, es[..|es| - 1]), es[|es| - 1])
  }

  function DeleteAll(env: Env, s: Index, es: seq<Entry>): Index {
    if es == [] then s else DeleteEntry(env, DeleteAll(env, s, es[..|es| - 1]), es[|es| - 1])
  }

  lemma AppendEntry(env: Env, s: Index, es: seq<Entry>, e: Entry)
    ensures PutAll(env, s, es + [e]) == PutEntry(env, PutAll(env, s, es), e)
    ensures DeleteAll(env, s, es + [e]) == DeleteEntry(env, DeleteAll(env, s, es), e)
  {
    assert (es + [e])[..|es|] == es;
  }

  lemma AppendNone(env: Env, s: Index)
    ensures PutAll(env, s, []) == s && DeleteAll(env, s, []) == s
  {
  }

  lemma {:induction false} AppendEntries(env: Env, s: Index, a: seq<Entry>, b: seq<Entry>)
    ensures PutAll(env, s, a + b) == PutAll(env, PutAll(env, s, a), b)
    ensures DeleteAll(env, s, a + b) == DeleteAll(env, DeleteAll(env, s, a), b)
  {
    if b == [] {
      assert a + b == a;
    } else {
      var n := |b| - 1;
      AppendEntries(env, s, a, b[..n]);
      assert a + b == (a + b[..n]) + [b[n]];
      AppendEntry(env, s, a + b[..n], b[n]);
    }
  }

  function IpKeys(env: Env, eps: set<Endpoint>): set<u32> {
    set e | e in eps :: env.ipKey(e.ip)
  }

  lemma NoIpKeys(env: Env)
    ensures IpKeys(env, {}) == {}
  {
  }

  lemma IpKeysOf(env: Env, eps: set<Endpoint>, e: Endpoint)
    requires e in eps
    ensures env.ipKey(e.ip) in IpKeys(env, eps)
  {
  }

  lemma IpKeysGrow(env: Env, eps: set<Endpoint>, e: Endpoint)
    ensures IpKeys(env, eps + {e}) == IpKeys(env, eps) + {env.ipKey(e.ip)}
  {
  }

  lemma RoomFor(filter: set<u32>, key: u32, whole: set<u32>)
    requires filter <= whole && key in whole
    ensures key in filter || |filter| < |whole|
  {
    if key !in filter {
      SubsetSize(filter + {key}, whole);
    }
  }

  // ---------------------------------------------------------------- the start of the plugin

  /** Every indexed endpoint once; the iteration over a Go map may take any such order. */
  predicate IsOrderOf(order: seq<Endpoint>, eps: set<Endpoint>) {
    Listed(order) == eps && |order| == |eps|
  }

  function Listed(order: seq<Endpoint>): set<Endpoint> {
    set e | e in order
  }

  /** The order covers all of eps but todo. */
  predicate IsOrderBut(order: seq<Endpoint>, todo: set<Endpoint>, eps: set<Endpoint>) {
    todo <= eps && IsOrderOf(order, eps - todo)
  }

  lemma NothingLeft(order: seq<Endpoint>, eps: set<Endpoint>)
    ensures IsOrderBut(order, {}, eps) <==> IsOrderOf(order, eps)
    ensures IsOrderBut([], eps, eps)
  {
    assert eps - {} == eps && eps - eps == {};
    assert Listed([]) == {};
  }

  lemma OneMore(order: seq<Endpoint>, todo: set<Endpoint>, eps: set<Endpoint>, e: Endpoint)
    requires IsOrderBut(order, todo, eps) && e in todo
    ensures IsOrderBut(order + [e], todo - {e}, eps)
  {
    assert Listed(order + [e]) == Listed(order) + {e};
    assert eps - (todo - {e}) == (eps - todo) + {e};
  }

  lemma {:induction false} SomeOrder(order: seq<Endpoint>, todo: set<Endpoint>, eps: set<Endpoint>)
    returns (rest: seq<Endpoint>)
    requires IsOrderBut(order, todo, eps)
    ensures IsOrderOf(order + rest, eps)
    decreases |todo|
  {
    if todo == {} {
      rest := [];
      assert order + rest == order && eps - todo == eps;
    } else {
      var e :| e in todo;
      OneMore(order, todo, eps, e);
      rest := SomeOrder(order + [e], todo - {e}, eps);
      assert order + ([e] + rest) == (order + [e]) + rest;
      rest := [e] + rest;
    }
  }

  datatype Written = Written(filter: set<u32>, puts: nat, ok: bool)

  /** WriteFilterIP: the writes in order, up to the first that fails. */
  function WriteAll(env: Env, filter: set<u32>, puts: nat, order: seq<Endpoint>): Written
    decreases |order|
  {
    if order == [] then Written(filter, puts, true)
    else
      var key := env.ipKey(order[0].ip);
      if CanPut(env, filter, puts, key) then WriteAll(env, filter + {key}, puts + 1, order[1..])
      else Written(filter, puts + 1, false)
  }

  lemma {:induction false} WriteAllAppend(env: Env, filter: set<u32>, puts: nat, a: seq<Endpoint>, b: seq<Endpoint>)
    requires WriteAll(env, filter, puts, a).ok
    ensures var w := WriteAll(env, filter, puts, a);
            WriteAll(env, filter, puts, a + b) == WriteAll(env, w.filter, w.puts, b)
    decreases |a|
  {
    if a == [] {
      assert a + b == b;
    } else {
      assert (a + b)[1..] == a[1..] + b;
      WriteAllAppend(env, filter + {env.ipKey(a[0].ip)}, puts + 1, a[1..], b);
    }
  }

  lemma WriteNone(env: Env, filter: set<u32>, puts: nat)
    ensures WriteAll(env, filter, puts, []) == Written(filter, puts, true)
  {
  }

  lemma WriteOne(env: Env, filter: set<u32>, puts: nat, e: Endpoint, rest: seq<Endpoint>)
    ensures var ok := CanPut(env, filter, puts, env.ipKey(e.ip));
            && WriteAll(env, filter, puts, [e]) ==
                 Written(FilterPut(env, filter, puts, env.ipKey(e.ip)), puts + 1, ok)
            && (!ok ==> WriteAll(env, filter, puts, [e] + rest) == WriteAll(env, filter, puts, [e]))
  {
  }

  /** When the initial write succeeds, and what it leaves behind if it does and if it does not. */
  lemma {:induction false} WriteAllExact(env: Env, filter: set<u32>, puts: nat, order: seq<Endpoint>)
    ensures var w := WriteAll(env, filter, puts, order);
            var whole := filter + IpKeys(env, Listed(order));
            && filter <= w.filter <= whole
            && (w.ok ==> w.filter == whole && w.puts == puts + |order|)
            && (|filter| <= 300 ==>
                  (w.ok <==> (forall n :: puts <= n < puts + |order| ==> env.putOk(n)) && |whole| <= 300))
    decreases |order|
  {
    hide IpKeys;
    if order == [] {
      assert Listed(order) == {};
      NoIpKeys(env);
    } else {
      var key := env.ipKey(order[0].ip);
      var whole := filter + IpKeys(env, Listed(order));
      assert Listed(order) == Listed(order[1..]) + {order[0]};
      IpKeysGrow(env, Listed(order[1..]), order[0]);
      assert whole == (filter + {key}) + IpKeys(env, Listed(order[1..]));
      if CanPut(env, filter, puts, key) {
        WriteAllExact(env, filter + {key}, puts + 1, order[1..]);
        assert key in filter ==> filter + {key} == filter;
      } else {
        RoomFor(filter, key, whole);
        assert env.putOk(puts) ==> |filter| < |whole|;
      }
    }
  }

  /** A failed write is the last one, and all before it are in the filter. */
  lemma {:induction false} WriteAllStops(env: Env, filter: set<u32>, puts: nat, order: seq<Endpoint>)
    requires !WriteAll(env, filter, puts, order).ok
    ensures var w := WriteAll(env, filter, puts, order);
            puts < w.puts <= puts + |order| && w.filter == filter + IpKeys(env, Listed(order[..w.puts - puts - 1]))
    decreases |order|
  {
    hide IpKeys;
    var key := env.ipKey(order[0].ip);
    if CanPut(env, filter, puts, key) {
      WriteAllStops(env, filter + {key}, puts + 1, order[1..]);
      var n := WriteAll(env, filter, puts, order).puts - puts - 1;
      assert order[..n] == [order[0]] + order[1..][..n - 1];
      assert Listed(order[..n]) == Listed(order[1..][..n - 1]) + {order[0]};
      IpKeysGrow(env, Listed(order[1..][..n - 1]), order[0]);
    } else {
      assert Listed(order[..0]) == {};
      NoIpKeys(env);
    }
  }

  /** HttpEbpf.Start: the initial write, and the registration only if all of it succeeds. */
  function StartIndex(env: Env, s: Index, order: seq<Endpoint>): Index {
    var w := WriteAll(env, s.filter, s.puts, order);
    Index(s.providers, w.filter, w.ok, w.puts)
  }

  // ---------------------------------------------------------------- the classes

  class HttpEbpf {
    const env: Env
    var filterIp: set<u32>
    var puts: nat

    constructor (env: Env)
      ensures this.env == env && filterIp == {} && puts == 0
    {
      this.env := env;
      filterIp, puts := {}, 0;
    }

    method Put(key: u32) returns (ok: bool)
      modifies this
      ensures filterIp == FilterPut(env, old(filterIp), old(puts), key) && puts == old(puts) + 1
      ensures ok <==> CanPut(env, old(filterIp), old(puts), key)
      ensures ok <==> env.putOk(old(puts)) && (key in old(filterIp) || |old(filterIp)| < 300)
      ensures filterIp == if ok then old(filterIp) + {key} else old(filterIp)
    {
      ok := env.putOk(puts) && (key in filterIp || |filterIp| < MAX_MAP_FILTER_IP);
      if ok {
        filterIp := filterIp + {key};
      }
      puts := puts + 1;
    }

    method AddFilterIP(e: Entry) returns (ok: bool)
      modifies this
      ensures filterIp == FilterPut(env, old(filterIp), old(puts), env.ipKey(e.endpoint.ip))
      ensures puts == old(puts) + 1
      ensures ok <==> env.putOk(old(puts)) && (env.ipKey(e.endpoint.ip) in old(filterIp) || |old(filterIp)| < 300)
    {
      ok := Put(env.ipKey(e.endpoint.ip));
    }

    method DeleteFilterIP(e: Entry) returns (ok: bool)
      modifies `filterIp
      ensures filterIp == old(filterIp) - {env.ipKey(e.endpoint.ip)}
      ensures ok <==> env.ipKey(e.endpoint.ip) in old(filterIp)
    {
      ok := env.ipKey(e.endpoint.ip) in filterIp;
      filterIp := filterIp - {env.ipKey(e.endpoint.ip)};
    }

    /** The order of the range loop is the method's to choose. */
    method WriteFilterIP(providers: map<Endpoint, Provider>) returns (ok: bool, ghost order: seq<Endpoint>)
      modifies this
      ensures IsOrderOf(order, providers.Keys)
      ensures Written(filterIp, puts, ok) == WriteAll(env, old(filterIp), old(puts), order)
    {
      hide WriteAll, IsOrderBut, IsOrderOf, FilterPut, CanPut;
      var todo := providers.Keys;
      order := [];
      NothingLeft(order, providers.Keys);
      assert WriteAll(env, filterIp, puts, []) == Written(filterIp, puts, true) by {
        WriteNone(env, filterIp, puts);
      }
      while todo != {}
        invariant IsOrderBut(order, todo, providers.Keys)
        invariant WriteAll(env, old(filterIp), old(puts), order) == Written(filterIp, puts, true)
        decreases |todo|
      {
        var e :| e in todo;
        OneMore(order, todo, providers.Keys, e);
        ghost var rest := SomeOrder(order + [e], todo - {e}, providers.Keys);
        WriteOne(env, filterIp, puts, e, rest);
        WriteAllAppend(env, old(filterIp), old(puts), order, [e]);
        WriteAllAppend(env, old(filterIp), old(puts), order, [e] + rest);
        ok := Put(env.ipKey(e.ip));
        if !ok {
          assert (order + [e]) + rest == order + ([e] + rest);
          order := order + [e] + rest;
          return;
        }
        order := order + [e];
        todo := todo - {e};
      }
      assert IsOrderOf(order, providers.Keys) by {
        NothingLeft(order, providers.Keys);
      }
      ok := true;
    }
  }

  class Endpoint2Pod {
    var providers: map<Endpoint, Provider>
    const http: HttpEbpf
    var registered: bool

    constructor (http: HttpEbpf)
      ensures this.http == http && providers == map[] && !registered
    {
      this.http := http;
      providers, registered := map[], false;
    }

    function View(): Index
      reads this, http
    {
      Index(providers, http.filterIp, registered, http.puts)
    }

    method GetPodByEndpoint(ip: string, port: int) returns (provider: Option<Provider>)
      ensures provider.Some? <==> Endpoint(ip, port) in providers
      ensures provider.Some? ==> provider.value == providers[Endpoint(ip, port)]
    {
      if Endpoint(ip, port) in providers {
        return Some(providers[Endpoint(ip, port)]);
      }
      return None;
    }

    /** The body of the innermost loop: the map first, then the registered handler, its error ignored. */
    method AddEndpoint(e: Entry)
      modifies `providers, http
      ensures View() == PutEntry(http.env, old(View()), e)
    {
      providers := providers[e.endpoint := e.provider];
      if registered {
        var _ := http.AddFilterIP(e);
      }
    }

    method DeleteEndpoint(e: Entry)
      modifies `providers, http
      ensures View() == DeleteEntry(http.env, old(View()), e)
    {
      providers := providers - {e.endpoint};
      if registered {
        var _ := http.DeleteFilterIP(e);
      }
    }

    /** The innermost loop of addEndpoints. */
    method AddPorts(name: string, a: Address, ports: seq<int>, node: string)
      modifies `providers, http
      ensures View() == PutAll(http.env, old(View()), PortEntries(name, a, ports, node))
    {
      hide PutEntry, MakeEntry, OnNode;
      for k := 0 to |ports|
        invariant View() == PutAll(http.env, old(View()), PortEntries(name, a, ports[..k], node))
      {
        ghost var done := PortEntries(name, a, ports[..k], node);
        assert ports[..k + 1][..k] == ports[..k] && done + [] == done;
        if OnNode(a, node) {
          var e := MakeEntry(name, a, ports[k], node);
          AddEndpoint(e);
          AppendEntry(http.env, old(View()), done, e);
        }
      }
      assert ports[..|ports|] == ports;
    }

    method AddAddresses(name: string, addresses: seq<Address>, ports: seq<int>, node: string)
      modifies `providers, http
      ensures View() == PutAll(http.env, old(View()), AddressEntries(name, addresses, ports, node))
    {
      hide PutAll, PortEntries;
      AppendNone(http.env, View());
      for j := 0 to |addresses|
        invariant View() == PutAll(http.env, old(View()), AddressEntries(name, addresses[..j], ports, node))
      {
        ghost var done := AddressEntries(name, addresses[..j], ports, node);
        assert addresses[..j + 1][..j] == addresses[..j];
        AddPorts(name, addresses[j], ports, node);
        AppendEntries(http.env, old(View()), done, PortEntries(name, addresses[j], ports, node));
      }
      assert addresses[..|addresses|] == addresses;
    }

    method AddEndpoints(o: Endpoints, node: string)
      modifies `providers, http
      ensures View() == PutAll(http.env, old(View()), Entries(o, node))
    {
      hide PutAll, AddressEntries;
      AppendNone(http.env, View());
      for i := 0 to |o.subsets|
        invariant View() == PutAll(http.env, old(View()), SubsetEntries(o.name, o.subsets[..i], node))
      {
        ghost var done := SubsetEntries(o.name, o.subsets[..i], node);
        assert o.subsets[..i + 1][..i] == o.subsets[..i];
        AddAddresses(o.name, o.subsets[i].addresses, o.subsets[i].ports, node);
        AppendEntries(http.env, old(View()), done,
                      AddressEntries(o.name, o.subsets[i].addresses, o.subsets[i].ports, node));
      }
      assert o.subsets[..|o.subsets|] == o.subsets;
    }

    /** The innermost loop of deleteEndpoints. */
    method DeletePorts(name: string, a: Address, ports: seq<int>, node: string)
      modifies `providers, http
      ensures View() == DeleteAll(http.env, old(View()), PortEntries(name, a, ports, node))
    {
      hide DeleteEntry, MakeEntry, OnNode;
      for k := 0 to |ports|
        invariant View() == DeleteAll(http.env, old(View()), PortEntries(name, a, ports[..k], node))
      {
        ghost var done := PortEntries(name, a, ports[..k], node);
        assert ports[..k + 1][..k] == ports[..k] && done + [] == done;
        if OnNode(a, node) {
          var e := MakeEntry(name, a, ports[k], node);
          DeleteEndpoint(e);
          AppendEntry(http.env, old(View()), done, e);
        }
      }
      assert ports[..|ports|] == ports;
    }

    method DeleteAddresses(name: string, addresses: seq<Address>, ports: seq<int>, node: string)
      modifies `providers, http
      ensures View() == DeleteAll(http.env, old(View()), AddressEntries(name, addresses, ports, node))
    {
      hide DeleteAll, PortEntries;
      AppendNone(http.env, View());
      for j := 0 to |addresses|
        invariant View() == DeleteAll(http.env, old(View()), AddressEntries(name, addresses[..j], ports, node))
      {
        ghost var done := AddressEntries(name, addresses[..j], ports, node);
        assert addresses[..j + 1][..j] == addresses[..j];
        DeletePorts(name, addresses[j], ports, node);
        AppendEntries(http.env, old(View()), done, PortEntries(name, addresses[j], ports, node));
      }
      assert addresses[..|addresses|] == addresses;
    }

    method DeleteEndpoints(o: Endpoints, node: string)
      modifies `providers, http
      ensures View() == DeleteAll(http.env, old(View()), Entries(o, node))
    {
      hide DeleteAll, AddressEntries;
      AppendNone(http.env, View());
      for i := 0 to |o.subsets|
        invariant View() == DeleteAll(http.env, old(View()), SubsetEntries(o.name, o.subsets[..i], node))
      {
        ghost var done := SubsetEntries(o.name, o.subsets[..i], node);
        assert o.subsets[..i + 1][..i] == o.subsets[..i];
        DeleteAddresses(o.name, o.subsets[i].addresses, o.subsets[i].ports, node);
        AppendEntries(http.env, old(View()), done,
                      AddressEntries(o.name, o.subsets[i].addresses, o.subsets[i].ports, node));
      }
      assert o.subsets[..|o.subsets|] == o.subsets;
    }

    /** The source repeats the loops of deleteEndpoints and addEndpoints here. */
    method UpdateEndpoints(was: Endpoints, now: Endpoints, node: string)
      modifies `providers, http
      ensures View() == PutAll(http.env, DeleteAll(http.env, old(View()), Entries(was, node)), Entries(now, node))
    {
      DeleteEndpoints(was, node);
      AddEndpoints(now, node);
    }

    /** HttpEbpf.Start, with no other event in between. */
    method Start() returns (ok: bool, ghost order: seq<Endpoint>)
      requires !registered
      modifies `registered, http
      ensures IsOrderOf(order, providers.Keys)
      ensures View() == StartIndex(http.env, old(View()), order)
      ensures ok == registered
    {
      ok, order := http.WriteFilterIP(providers);
      registered := ok;
    }
  }
}
