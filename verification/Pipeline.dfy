/** Plugins, the channel, the consumer in main and the committer, as a state machine over their steps. */
module Pipeline {
  import opened Influx

  const CAPACITY := 1000

  datatype Item<M> = Item(plugin: string, metric: M)

  /** The select loop: waiting, about to call Write, inside Write with the mutex, or gone after the signal. */
  datatype Consumer<M> = Idle | Holding(item: Item<M>) | Writing(item: Item<M>) | Stopped

  /** The ticker goroutine: between ticks, waiting for the mutex, or in Commit. */
  datatype Committer = Sleeping | Waiting | Committing

  datatype State<M> = State(
    blocked: map<string, M>,   // plugins at the send statement, with the metric they want to send
    sent: seq<Item<M>>,        // every item the channel has accepted, in order
    ch: seq<Item<M>>,
    consumer: Consumer<M>,
    committer: Committer,
    written: seq<Item<M>>,     // every item passed to Write and appended, in order
    batches: seq<seq<Item<M>>>,
    live: seq<Item<M>>)
  {
    ghost predicate MutexFree() {
      !consumer.Writing? && !committer.Committing?
    }

    ghost function Held(): seq<Item<M>> {
      if consumer.Holding? || consumer.Writing? then [consumer.item] else []
    }
  }

  datatype Action<M> =
    | Offer(plugin: string, metric: M)
    | Send(plugin: string)
    | Receive
    | LockForWrite
    | Append
    | Tick
    | LockForCommit
    | Commit(ok: bool)
    | Stop

  ghost function Initial<M>(): State<M> {
    State(map[], [], [], Idle, Sleeping, [], [], [])
  }

  ghost predicate Enabled<M(!new)>(s: State<M>, a: Action<M>) {
    match a
    case Offer(p, _) => p !in s.blocked
    case Send(p) => p in s.blocked && |s.ch| < CAPACITY
    case Receive => s.consumer.Idle? && s.ch != []
    case LockForWrite => s.consumer.Holding? && s.MutexFree()
    case Append => s.consumer.Writing?
    case Tick => s.committer.Sleeping?
    case LockForCommit => s.committer.Waiting? && s.MutexFree()
    case Commit(_) => s.committer.Committing?
    case Stop => s.consumer.Idle?
  }

  /** Steps that need nothing from outside: no new metric, no timer, no signal. */
  predicate Internal<M>(a: Action<M>) {
    !a.Offer? && !a.Tick? && !a.Stop?
  }

  ghost function Step<M(!new)>(s: State<M>, a: Action<M>): State<M>
    requires Enabled(s, a)
  {
    match a
    case Offer(p, m) => s.(blocked := s.blocked[p := m])
    case Send(p) =>
      var item := Item(p, s.blocked[p]);
      s.(blocked := s.blocked - {p}, sent := s.sent + [item], ch := s.ch + [item])
    case Receive => s.(consumer := Holding(s.ch[0]), ch := s.ch[1..])
    case LockForWrite => s.(consumer := Writing(s.consumer.item))
    case Append =>
      s.(consumer := Idle, written := s.written + [s.consumer.item], live := s.live + [s.consumer.item])
    case Tick => s.(committer := Waiting)
    case LockForCommit => s.(committer := Committing)
    case Commit(ok) =>
      if ok then s.(committer := Sleeping, batches := s.batches + [s.live], live := [])
      else s.(committer := Sleeping)
    case Stop => s.(consumer := Stopped)
  }

  /** A run is any interleaving of enabled steps. */
  ghost predicate IsRun<M(!new)>(states: seq<State<M>>, actions: seq<Action<M>>) {
    && |states| == |actions| + 1
    && forall i :: 0 <= i < |actions| ==> Enabled(states[i], actions[i]) && states[i + 1] == Step(states[i], actions[i])
  }

  ghost predicate Inv<M(!new)>(s: State<M>) {
    && |s.ch| <= CAPACITY
    && !(s.consumer.Writing? && s.committer.Committing?)
    && s.sent == s.written + s.Held() + s.ch
    && s.written == Concat(s.batches) + s.live
  }

  lemma InvStep<M(!new)>(s: State<M>, a: Action<M>)
    requires Inv(s) && Enabled(s, a)
    ensures Inv(Step(s, a))
  {
    hide Concat;
    var s' := Step(s, a);
    match a
    case Send(p) =>
      assert s'.written + s'.Held() + s'.ch == (s.written + s.Held() + s.ch) + [Item(p, s.blocked[p])];
    case Receive =>
      assert s.ch == [s.ch[0]] + s.ch[1..];
      assert s'.written + s'.Held() + s'.ch == s.written + s.Held() + s.ch;
    case Append =>
      assert s'.written + s'.Held() + s'.ch == s.written + s.Held() + s.ch;
      assert Concat(s.batches) + (s.live + [s.consumer.item]) == (Concat(s.batches) + s.live) + [s.consumer.item];
    case Commit(ok) =>
      ConcatAppend(s.batches, s.live);
      assert Concat(s.batches) + s.live + [] == Concat(s.batches) + s.live;
    case _ =>
  }

  function On<M>(items: seq<Item<M>>, plugin: string): seq<Item<M>> {
    if items == [] then []
    else
      On(items[..|items| - 1], plugin) + if items[|items| - 1].plugin == plugin then [items[|items| - 1]] else []
  }

  lemma {:induction false} OnConcat<M>(a: seq<Item<M>>, b: seq<Item<M>>, plugin: string)
    ensures On(a + b, plugin) == On(a, plugin) + On(b, plugin)
  {
    if b == [] {
      assert a + b == a;
    } else {
      var n := |b| - 1;
      assert (a + b)[..|a + b| - 1] == a + b[..n];
      OnConcat(a, b[..n], plugin);
    }
  }

  lemma {:induction false} InvAlways<M(!new)>(states: seq<State<M>>, actions: seq<Action<M>>, n: nat)
    requires IsRun(states, actions) && Inv(states[0]) && n <= |actions|
    ensures Inv(states[n])
  {
    hide Inv, Step, Enabled;
    if n > 0 {
      InvAlways(states, actions, n - 1);
      InvStep(states[n - 1], actions[n - 1]);
    }
  }

  /** Conservation and order, over every interleaving: nothing is lost, repeated or reordered between the
      channel and the database, failed commits included; and the channel never holds more than 1000. */
  lemma PipelineConserves<M(!new)>(states: seq<State<M>>, actions: seq<Action<M>>, n: nat, plugin: string)
    requires IsRun(states, actions) && states[0] == Initial() && n <= |actions|
    ensures var s := states[n];
            && |s.ch| <= 1000
            && s.sent == Concat(s.batches) + s.live + s.Held() + s.ch
            && On(s.sent, plugin) == On(s.written, plugin) + On(s.Held(), plugin) + On(s.ch, plugin)
  {
    InvAlways(states, actions, n);
    var s := states[n];
    OnConcat(s.written + s.Held(), s.ch, plugin);
    OnConcat(s.written, s.Held(), plugin);
  }

  // ---------------------------------------------------------------- before the channel, and after the buffer

  /** The metrics a plugin has come up with. */
  function Offered<M>(actions: seq<Action<M>>, plugin: string): seq<M> {
    if actions == [] then []
    else
      var a := actions[|actions| - 1];
      Offered(actions[..|actions| - 1], plugin) + if a.Offer? && a.plugin == plugin then [a.metric] else []
  }

  function MetricsOf<M>(items: seq<Item<M>>, plugin: string): seq<M> {
    if items == [] then []
    else
      var item := items[|items| - 1];
      MetricsOf(items[..|items| - 1], plugin) + if item.plugin == plugin then [item.metric] else []
  }

  ghost predicate OffersKept<M(!new)>(s: State<M>, actions: seq<Action<M>>, plugin: string) {
    Offered(actions, plugin) ==
      MetricsOf(s.sent, plugin) + if plugin in s.blocked then [s.blocked[plugin]] else []
  }

  lemma OfferedAppend<M>(actions: seq<Action<M>>, a: Action<M>, plugin: string)
    ensures Offered(actions + [a], plugin) ==
            Offered(actions, plugin) + if a.Offer? && a.plugin == plugin then [a.metric] else []
  {
    assert (actions + [a])[..|actions|] == actions;
  }

  lemma MetricsAppend<M>(items: seq<Item<M>>, item: Item<M>, plugin: string)
    ensures MetricsOf(items + [item], plugin) ==
            MetricsOf(items, plugin) + if item.plugin == plugin then [item.metric] else []
  {
    assert (items + [item])[..|items|] == items;
  }

  lemma OffersKeptStep<M(!new)>(s: State<M>, a: Action<M>, before: seq<Action<M>>, plugin: string)
    requires Enabled(s, a) && OffersKept(s, before, plugin)
    ensures OffersKept(Step(s, a), before + [a], plugin)
  {
    hide Offered, MetricsOf;
    OfferedAppend(before, a, plugin);
    if a.Send? {
      MetricsAppend(s.sent, Item(a.plugin, s.blocked[a.plugin]), plugin);
    }
  }

  /** Every interleaving: what a plugin came up with is what the channel took from it, in order, and then the one
      metric it is still waiting to send. */
  lemma {:induction false} OffersConserved<M(!new)>(states: seq<State<M>>, actions: seq<Action<M>>, n: nat,
                                                    plugin: string)
    requires IsRun(states, actions) && states[0] == Initial() && n <= |actions|
    ensures Offered(actions[..n], plugin) ==
            MetricsOf(states[n].sent, plugin) + if plugin in states[n].blocked then [states[n].blocked[plugin]] else []
  {
    if n == 0 {
      assert actions[..0] == [];
    } else {
      OffersConserved(states, actions, n - 1, plugin);
      assert OffersKept(states[n - 1], actions[..n - 1], plugin);
      assert actions[..n] == actions[..n - 1] + [actions[n - 1]];
      assert Enabled(states[n - 1], actions[n - 1]) && states[n] == Step(states[n - 1], actions[n - 1]);
      hide Step, Enabled;
      OffersKeptStep(states[n - 1], actions[n - 1], actions[..n - 1], plugin);
    }
  }

  function Ticks<M>(actions: seq<Action<M>>): nat {
    if actions == [] then 0
    else Ticks(actions[..|actions| - 1]) + if actions[|actions| - 1].Tick? then 1 else 0
  }

  function Commits<M>(actions: seq<Action<M>>): nat {
    if actions == [] then 0
    else Commits(actions[..|actions| - 1]) + if actions[|actions| - 1].Commit? then 1 else 0
  }

  /** One attempt to commit for every tick, but for the one under way. */
  lemma {:induction false} TicksCommitted<M(!new)>(states: seq<State<M>>, actions: seq<Action<M>>, n: nat)
    requires IsRun(states, actions) && states[0] == Initial() && n <= |actions|
    ensures Ticks(actions[..n]) == Commits(actions[..n]) + if states[n].committer.Sleeping? then 0 else 1
  {
    if n == 0 {
      assert actions[..0] == [];
    } else {
      TicksCommitted(states, actions, n - 1);
      assert actions[..n][..n - 1] == actions[..n - 1];
      assert Enabled(states[n - 1], actions[n - 1]) && states[n] == Step(states[n - 1], actions[n - 1]);
    }
  }

  /** A successful commit stores everything written so far and empties the buffer; a failed one changes neither. */
  lemma CommitExact<M(!new)>(s: State<M>, ok: bool)
    requires Inv(s) && Enabled(s, Commit(ok))
    ensures var s' := Step(s, Commit(ok));
            if ok then Concat(s'.batches) == s'.written == s.written && s'.live == []
            else s'.batches == s.batches && s'.live == s.live
  {
    ConcatAppend(s.batches, s.live);
    hide Concat;
  }

  /** After the stop signal main writes nothing any more. */
  lemma {:induction false} StopIsFinal<M(!new)>(states: seq<State<M>>, actions: seq<Action<M>>, i: nat, n: nat)
    requires IsRun(states, actions) && i < n <= |actions| && actions[i].Stop?
    ensures states[n].consumer.Stopped? && states[n].written == states[i].written
  {
    if n > i + 1 {
      StopIsFinal(states, actions, i, n - 1);
    }
    assert Enabled(states[n - 1], actions[n - 1]) && states[n] == Step(states[n - 1], actions[n - 1]);
  }

  // ---------------------------------------------------------------- nobody is stuck

  /** Internal steps still to be made for the work at hand. */
  ghost function Rank<M>(s: State<M>): nat {
    4 * |s.blocked.Keys| + 3 * |s.ch|
    + (if s.consumer.Holding? then 2 else if s.consumer.Writing? then 1 else 0)
    + (if s.committer.Waiting? then 2 else if s.committer.Committing? then 1 else 0)
  }

  ghost predicate Quiet<M(!new)>(s: State<M>) {
    s.blocked == map[] && s.ch == [] && s.consumer.Idle? && s.committer.Sleeping?
  }

  /** Every internal step is one step of progress, whoever is scheduled. */
  lemma InternalStepsProgress<M(!new)>(s: State<M>, a: Action<M>)
    requires Inv(s) && Enabled(s, a) && Internal(a)
    ensures Rank(Step(s, a)) == Rank(s) - 1
    ensures Step(s, a).consumer.Stopped? == s.consumer.Stopped?
  {
    if a.Send? {
      assert (s.blocked - {a.plugin}).Keys == s.blocked.Keys - {a.plugin};
      assert |s.blocked.Keys - {a.plugin}| == |s.blocked.Keys| - 1;
    }
  }

  /** Before the stop signal, a full channel or a held mutex never leaves everybody waiting. */
  lemma NeverStuck<M(!new)>(s: State<M>)
    requires Inv(s) && !s.consumer.Stopped?
    ensures Quiet(s) || exists a: Action<M> :: Internal(a) && Enabled(s, a)
    ensures Quiet(s) <==> Rank(s) == 0
    ensures forall p :: p in s.blocked ==> (Enabled(s, Send(p)) <==> |s.ch| < 1000)
  {
    if s.committer.Committing? {
      assert Enabled(s, Commit(true)) && Internal<M>(Commit(true));
    } else if s.consumer.Writing? {
      assert Enabled(s, Append) && Internal<M>(Append);
    } else if s.committer.Waiting? {
      assert Enabled(s, LockForCommit) && Internal<M>(LockForCommit);
    } else if s.consumer.Holding? {
      assert Enabled(s, LockForWrite) && Internal<M>(LockForWrite);
    } else if s.ch != [] {
      assert Enabled(s, Receive) && Internal<M>(Receive);
    } else if s.blocked != map[] {
      var p :| p in s.blocked;
      assert p in s.blocked.Keys;
      assert Enabled(s, Send(p)) && Internal<M>(Send(p));
    }
    if Rank(s) == 0 {
      assert s.blocked.Keys == {};
    }
  }

  lemma {:induction false} RankFalls<M(!new)>(states: seq<State<M>>, actions: seq<Action<M>>, n: nat)
    requires IsRun(states, actions) && Inv(states[0]) && !states[0].consumer.Stopped? && n <= |actions|
    requires forall i :: 0 <= i < |actions| ==> Internal(actions[i])
    ensures Inv(states[n]) && !states[n].consumer.Stopped?
    ensures Rank(states[n]) == Rank(states[0]) - n
  {
    hide Inv, Step, Enabled, Rank, Internal;
    if n > 0 {
      RankFalls(states, actions, n - 1);
      InvStep(states[n - 1], actions[n - 1]);
      InternalStepsProgress(states[n - 1], actions[n - 1]);
    }
  }

  /** From any reachable state before the stop signal, an internal schedule has at most Rank(s) steps; it ends
      with nothing left to do exactly when it has that many, and then everything sent is also written. */
  lemma Drains<M(!new)>(states: seq<State<M>>, actions: seq<Action<M>>)
    requires IsRun(states, actions) && Inv(states[0]) && !states[0].consumer.Stopped?
    requires forall i :: 0 <= i < |actions| ==> Internal(actions[i])
    ensures |actions| <= Rank(states[0])
    ensures |actions| == Rank(states[0]) <==> Quiet(states[|actions|])
    ensures Quiet(states[|actions|]) ==>
              states[|actions|].sent == states[|actions|].written ==
              Concat(states[|actions|].batches) + states[|actions|].live
  {
    RankFalls(states, actions, |actions|);
    NeverStuck(states[|actions|]);
  }
}
