/** The per-pod rate/errors/duration window of plugins/http/http.go. */
module RedWindow {
  import opened Decode

  datatype Red = Red(
    podName: string, nodeName: string, nameSpace: string, serviceName: string,
    requestCount: int, errCount: int, durationCount: int)

  datatype Report = Report(red: Red, qps: real, errRate: real, duration: real)

  datatype Metric = TrafficMetric(traffic: Traffic) | RedMetric(report: Report)

  // ---------------------------------------------------------------- one message

  predicate IsDigits(s: string) {
    s != [] && forall i :: 0 <= i < |s| ==> '0' <= s[i] <= '9'
  }

  function Digits(s: string): int {
    if s == [] then 0 else 10 * Digits(s[..|s| - 1]) + (s[|s| - 1] as int - '0' as int)
  }

  /** strconv.Atoi with its error ignored: a sign, then digits, or zero. */
  function Atoi(s: string): int {
    if IsDigits(s) then Digits(s)
    else if s != [] && s[0] == '+' && IsDigits(s[1..]) then Digits(s[1..])
    else if s != [] && s[0] == '-' && IsDigits(s[1..]) then -Digits(s[1..])
    else 0
  }

  function IsErr(m: Traffic): int {
    if Atoi(m.code) > 499 then 1 else 0
  }

  /** Conversion of a float to int drops the fraction. */
  function Truncate(x: real): int {
    if x >= 0.0 then x.Floor else -((-x).Floor)
  }

  /** On the three characters of a status, the error test is on the first: three digits from 500 up. */
  lemma IsErrOfStatus(m: Traffic)
    requires |m.code| == 3
    ensures Atoi(m.code) > 499 <==>
            '5' <= m.code[0] <= '9' && '0' <= m.code[1] <= '9' && '0' <= m.code[2] <= '9'
    ensures IsErr(m) == if Atoi(m.code) > 499 then 1 else 0
  {
    var c := m.code;
    if IsDigits(c) {
      assert c[..2][..1] == c[..1] && c[..1][..0] == [];
      assert Digits(c[..1]) == c[0] as int - '0' as int;
      assert Digits(c[..2]) == 10 * Digits(c[..1]) + (c[1] as int - '0' as int);
    } else if IsDigits(c[1..]) {
      assert c[1..][..1][..0] == [];
      assert Digits(c[1..][..1]) == c[1] as int - '0' as int;
    }
  }

  // ---------------------------------------------------------------- a window of messages, declaratively

  function Pods(w: seq<Traffic>): set<string> {
    if w == [] then {} else Pods(w[..|w| - 1]) + {w[|w| - 1].provider.podName}
  }

  datatype Tally = Tally(requests: int, errors: int, duration: int)
  {
    function Plus(t: Tally): Tally {
      Tally(requests + t.requests, errors + t.errors, duration + t.duration)
    }
  }

  const ZERO := Tally(0, 0, 0)

  /** What one message adds to a pod's tally. */
  function Weight(m: Traffic, pod: string): Tally {
    if m.provider.podName == pod then Tally(1, IsErr(m), Truncate(m.duration)) else ZERO
  }

  function TallyOf(w: seq<Traffic>, pod: string): Tally {
    if w == [] then ZERO else TallyOf(w[..|w| - 1], pod).Plus(Weight(w[|w| - 1], pod))
  }

  function TotalDuration(w: seq<Traffic>, pod: string): real {
    if w == [] then 0.0
    else TotalDuration(w[..|w| - 1], pod) +
         if w[|w| - 1].provider.podName == pod then w[|w| - 1].duration else 0.0
  }

  function FirstOf(w: seq<Traffic>, pod: string): Traffic
    requires pod in Pods(w)
  {
    var p := w[..|w| - 1];
    if pod in Pods(p) then FirstOf(p, pod) else w[|w| - 1]
  }

  /** The entry of a pod: labels of its first message in the window, counts of all of them. */
  function RedOf(w: seq<Traffic>, pod: string): Red
    requires pod in Pods(w)
  {
    var p := FirstOf(w, pod).provider;
    var t := TallyOf(w, pod);
    Red(pod, p.nodeName, p.nameSpace, p.nameSpace, t.requests, t.errors, t.duration)
  }

  function WindowMap(w: seq<Traffic>): map<string, Red> {
    map pod | pod in Pods(w) :: RedOf(w, pod)
  }

  function MakeReport(red: Red): Report
    requires red.requestCount != 0
  {
    Report(red, red.requestCount as real / 60.0,
           red.errCount as real / red.requestCount as real * 100.0,
           red.durationCount as real / red.requestCount as real)
  }

  predicate IsReportOf(x: Metric, m: map<string, Red>) {
    && x.RedMetric? && x.report.red.podName in m && x.report.red == m[x.report.red.podName]
    && x.report.red.requestCount != 0 && x.report == MakeReport(x.report.red)
  }

  function PodOf(x: Metric): string {
    if x.RedMetric? then x.report.red.podName else ""
  }

  function Named(out: seq<Metric>): set<string> {
    if out == [] then {} else Named(out[..|out| - 1]) + {PodOf(out[|out| - 1])}
  }

  predicate Distinct(out: seq<Metric>) {
    out == [] || (Distinct(out[..|out| - 1]) && PodOf(out[|out| - 1]) !in Named(out[..|out| - 1]))
  }

  /** Exactly one report per pod of the map, in any order. */
  ghost predicate ReportsOf(out: seq<Metric>, m: map<string, Red>) {
    Distinct(out) && Named(out) == m.Keys && forall x :: x in out ==> IsReportOf(x, m)
  }

  // ---------------------------------------------------------------- the same reports, by the messages alone

  function DurationSum(w: seq<Traffic>, pod: string): int {
    if w == [] then 0
    else
      var x := w[|w| - 1].duration;
      DurationSum(w[..|w| - 1], pod) +
      if w[|w| - 1].provider.podName != pod then 0 else if x >= 0.0 then x.Floor else -((-x).Floor)
  }

  function MessagesOf(w: seq<Traffic>, pod: string): set<nat> {
    set i: nat | i < |w| && w[i].provider.podName == pod
  }

  function ErrorsOf(w: seq<Traffic>, pod: string): set<nat> {
    set i: nat | i < |w| && w[i].provider.podName == pod && Atoi(w[i].code) > 499
  }

  /** The figures of a pod: how many messages it has, how many of them with a code above 499, and the sum of
      their durations without fractions; and the labels of its first message, the namespace standing for the
      service too. */
  ghost predicate IsFigureOf(r: Report, w: seq<Traffic>) {
    var pod := r.red.podName;
    var n, e, d := |MessagesOf(w, pod)|, |ErrorsOf(w, pod)|, DurationSum(w, pod);
    && n > 0 && r.red.requestCount == n && r.red.errCount == e && r.red.durationCount == d
    && r.errRate * n as real == 100.0 * e as real
    && r.qps * 60.0 == n as real
    && r.duration * n as real == d as real
    && exists i: nat :: IsFirstOf(w, pod, i) && r.red.nodeName == w[i].provider.nodeName &&
                   r.red.nameSpace == r.red.serviceName == w[i].provider.nameSpace
  }

  ghost predicate IsFirstOf(w: seq<Traffic>, pod: string, i: nat) {
    i < |w| && w[i].provider.podName == pod && forall k :: 0 <= k < i ==> w[k].provider.podName != pod
  }

  /** One report for each pod of the window, and none else. */
  ghost predicate ReportsWindow(out: seq<Metric>, w: seq<Traffic>) {
    && (forall x :: x in out ==> x.RedMetric? && IsFigureOf(x.report, w))
    && (forall i, j :: 0 <= i < j < |out| ==> out[i].report.red.podName != out[j].report.red.podName)
    && (forall k :: 0 <= k < |w| ==>
          exists x :: x in out && x.RedMetric? && x.report.red.podName == w[k].provider.podName)
  }

  lemma MessagesGrow(w: seq<Traffic>, pod: string)
    requires w != []
    ensures var n := |w| - 1;
            |MessagesOf(w, pod)| == |MessagesOf(w[..n], pod)| + if w[n].provider.podName == pod then 1 else 0
  {
    var n := |w| - 1;
    var was := MessagesOf(w[..n], pod);
    assert n !in was;
    assert MessagesOf(w, pod) == if w[n].provider.podName == pod then was + {n} else was;
  }

  lemma ErrorsGrow(w: seq<Traffic>, pod: string)
    requires w != []
    ensures var n := |w| - 1;
            |ErrorsOf(w, pod)| ==
              |ErrorsOf(w[..n], pod)| + if w[n].provider.podName == pod && Atoi(w[n].code) > 499 then 1 else 0
  {
    hide Atoi;
    var n := |w| - 1;
    var was := ErrorsOf(w[..n], pod);
    assert n !in was;
    assert ErrorsOf(w, pod) == if w[n].provider.podName == pod && Atoi(w[n].code) > 499 then was + {n} else was;
  }

  lemma {:induction false} CountsExact(w: seq<Traffic>, pod: string)
    ensures TallyOf(w, pod) == Tally(|MessagesOf(w, pod)|, |ErrorsOf(w, pod)|, DurationSum(w, pod))
  {
    hide Atoi, MessagesOf, ErrorsOf;
    if w == [] {
      NoneCounted(pod);
    } else {
      CountsExact(w[..|w| - 1], pod);
      MessagesGrow(w, pod);
      ErrorsGrow(w, pod);
    }
  }

  lemma NoneCounted(pod: string)
    ensures MessagesOf([], pod) == {} && ErrorsOf([], pod) == {}
  {
  }

  lemma {:induction false} FirstExact(w: seq<Traffic>, pod: string)
    ensures pod in Pods(w) ==> exists i: nat :: IsFirstOf(w, pod, i) && w[i] == FirstOf(w, pod)
    ensures forall k :: 0 <= k < |w| && w[k].provider.podName == pod ==> pod in Pods(w)
    ensures pod in Pods(w) ==> exists k :: 0 <= k < |w| && w[k].provider.podName == pod
  {
    if w != [] {
      var n := |w| - 1;
      var p := w[..n];
      FirstExact(p, pod);
      if pod in Pods(p) {
        var i: nat :| IsFirstOf(p, pod, i) && p[i] == FirstOf(p, pod);
        assert IsFirstOf(w, pod, i) && w[i] == FirstOf(w, pod);
      } else if w[n].provider.podName == pod {
        assert IsFirstOf(w, pod, n) && w[n] == FirstOf(w, pod);
      }
    }
  }

  lemma {:induction false} NamedExact(out: seq<Metric>, pod: string)
    ensures pod in Named(out) <==> exists x :: x in out && PodOf(x) == pod
  {
    if out != [] {
      NamedExact(out[..|out| - 1], pod);
      assert out == out[..|out| - 1] + [out[|out| - 1]];
    }
  }

  lemma {:induction false} DistinctExact(out: seq<Metric>, i: nat, j: nat)
    requires Distinct(out) && i < j < |out|
    ensures PodOf(out[i]) != PodOf(out[j])
  {
    var n := |out| - 1;
    if j < n {
      DistinctExact(out[..n], i, j);
    } else {
      NamedExact(out[..n], PodOf(out[i]));
      assert out[..n][i] in out[..n];
    }
  }

  lemma FigureOf(x: Metric, w: seq<Traffic>)
    requires IsReportOf(x, WindowMap(w))
    ensures IsFigureOf(x.report, w)
  {
    hide TallyOf, FirstOf, Pods, MessagesOf, ErrorsOf, DurationSum, IsFirstOf;
    var pod := x.report.red.podName;
    CountsExact(w, pod);
    CountsPositive(w, pod);
    FirstExact(w, pod);
    var n := x.report.red.requestCount as real;
    Undivide(x.report.red.errCount as real, n);
    Undivide(x.report.red.durationCount as real, n);
    assert x.report.errRate * n == (x.report.red.errCount as real / n * n) * 100.0;
  }

  lemma Undivide(a: real, n: real)
    requires n != 0.0
    ensures a / n * n == a
  {
  }

  /** What a tick sends are the figures of its window. */
  lemma ReportsAreFigures(out: seq<Metric>, w: seq<Traffic>)
    requires ReportsOf(out, WindowMap(w))
    ensures ReportsWindow(out, w)
  {
    hide IsReportOf, IsFigureOf, WindowMap, PodOf, Distinct, Named;
    forall x | x in out ensures x.RedMetric? && IsFigureOf(x.report, w) {
      assert IsReportOf(x, WindowMap(w));
      IsARed(x, WindowMap(w));
      FigureOf(x, w);
    }
    forall i, j | 0 <= i < j < |out| ensures out[i].report.red.podName != out[j].report.red.podName {
      DistinctExact(out, i, j);
      assert out[i] in out && out[j] in out;
      IsARed(out[i], WindowMap(w));
      IsARed(out[j], WindowMap(w));
    }
    WindowMapKeys(w);
    forall k | 0 <= k < |w|
      ensures exists x :: x in out && x.RedMetric? && x.report.red.podName == w[k].provider.podName
    {
      FirstExact(w, w[k].provider.podName);
      NamedExact(out, w[k].provider.podName);
      var x :| x in out && PodOf(x) == w[k].provider.podName;
      IsARed(x, WindowMap(w));
    }
  }

  lemma IsARed(x: Metric, m: map<string, Red>)
    requires IsReportOf(x, m)
    ensures x.RedMetric? && PodOf(x) == x.report.red.podName
  {
  }

  lemma {:induction false} DistinctSize(out: seq<Metric>)
    requires Distinct(out)
    ensures |Named(out)| == |out|
  {
    if out != [] {
      DistinctSize(out[..|out| - 1]);
    }
  }

  // ---------------------------------------------------------------- runs of the loop of Gather

  /** A round of the select: a message, or a tick with the reports it sends in the order of its map iteration. */
  datatype Input = Message(m: Traffic) | Tick(out: seq<Metric>)

  datatype Gathering = Gathering(sent: seq<Metric>, window: seq<Traffic>)

  function GatherStep(g: Gathering, i: Input): Gathering {
    match i
    case Message(m) => Gathering(g.sent + [TrafficMetric(m)], g.window + [m])
    case Tick(out) => Gathering(g.sent + out, [])
  }

  function Gather(inputs: seq<Input>): Gathering {
    if inputs == [] then Gathering([], []) else GatherStep(Gather(inputs[..|inputs| - 1]), inputs[|inputs| - 1])
  }

  function Messages(inputs: seq<Input>): seq<Traffic> {
    if inputs == [] then []
    else
      var i := inputs[|inputs| - 1];
      Messages(inputs[..|inputs| - 1]) + if i.Message? then [i.m] else []
  }

  /** Every tick reports the window it finds. */
  ghost predicate TicksReport(inputs: seq<Input>) {
    inputs == [] ||
    (var p, i := inputs[..|inputs| - 1], inputs[|inputs| - 1];
     TicksReport(p) && (i.Tick? ==> ReportsOf(i.out, WindowMap(Gather(p).window))))
  }

  /** What was reported of a pod, plus the open window, is what its messages add up to. */
  ghost predicate Accounts(g: Gathering, history: seq<Traffic>) {
    && (forall pod :: Reported(g.sent, pod).Plus(TallyOf(g.window, pod)) == TallyOf(history, pod))
    && TrafficOf(g.sent) == history
  }

  lemma NothingToAccount()
    ensures Accounts(Gathering([], []), [])
  {
    EmptyWindow();
  }

  lemma AccountsMessage(g: Gathering, history: seq<Traffic>, m: Traffic)
    requires Accounts(g, history)
    ensures Accounts(GatherStep(g, Message(m)), history + [m])
  {
    hide TallyOf, Reported, TrafficOf;
    SentAppend(g.sent, g.window, history, m);
  }

  lemma AccountsTick(g: Gathering, history: seq<Traffic>, out: seq<Metric>)
    requires Accounts(g, history) && ReportsOf(out, WindowMap(g.window))
    ensures Accounts(GatherStep(g, Tick(out)), history)
  {
    hide TallyOf, Reported, TrafficOf, WindowMap, ReportsOf;
    EmptyWindow();
    ReportsTally(g.sent, out, g.window);
  }

  /** Every run, with ticks anywhere between the messages. */
  lemma {:induction false} GatherAccounts(inputs: seq<Input>)
    requires TicksReport(inputs)
    ensures Accounts(Gather(inputs), Messages(inputs))
  {
    hide WindowMap, ReportsOf, Accounts, GatherStep;
    if inputs == [] {
      NothingToAccount();
    } else {
      var p, i := inputs[..|inputs| - 1], inputs[|inputs| - 1];
      GatherAccounts(p);
      match i
      case Message(m) => AccountsMessage(Gather(p), Messages(p), m);
      case Tick(out) =>
        AccountsTick(Gather(p), Messages(p), out);
        assert Messages(p) + [] == Messages(p);
    }
  }

  lemma {:induction false} WindowOfMessages(inputs: seq<Input>)
    ensures forall m :: m in Gather(inputs).window ==> m in Messages(inputs)
  {
    if inputs != [] {
      WindowOfMessages(inputs[..|inputs| - 1]);
    }
  }

  // ---------------------------------------------------------------- the loop of Gather

  class Gatherer {
    var redMetric: map<string, Red>
    var sent: seq<Metric>
    ghost var window: seq<Traffic>
    ghost var history: seq<Traffic>

    ghost function View(): Gathering
      reads this
    {
      Gathering(sent, window)
    }

    ghost predicate Valid()
      reads this
    {
      redMetric == WindowMap(window) && Accounts(View(), history)
    }

    constructor ()
      ensures Valid() && window == history == [] && sent == []
    {
      redMetric, sent, window, history := map[], [], [], [];
      new;
      hide WindowMap, Accounts;
      EmptyWindow();
      NothingToAccount();
    }

    /** case m := <-ch */
    method OnTraffic(m: Traffic)
      requires Valid()
      modifies this
      ensures Valid() && window == old(window) + [m] && history == old(history) + [m]
      ensures View() == GatherStep(old(View()), Message(m))
    {
      hide Atoi, Truncate, WindowMap, Accounts;
      var isErr := 0;
      var codeNum := Atoi(m.code);
      if codeNum > 499 {
        isErr := 1;
      }
      var pod := m.provider.podName;
      if pod in redMetric {
        var v := redMetric[pod];
        v := v.(requestCount := v.requestCount + 1);
        v := v.(errCount := v.errCount + isErr);
        v := v.(durationCount := v.durationCount + Truncate(m.duration));
        redMetric := redMetric[pod := v];
      } else {
        redMetric := redMetric[pod := Red(pod, m.provider.nodeName, m.provider.nameSpace, m.provider.nameSpace,
                                          1, isErr, Truncate(m.duration))];
      }
      sent := sent + [TrafficMetric(m)];
      WindowMapMessage(window, m);
      AccountsMessage(old(View()), history, m);
      window, history := window + [m], history + [m];
    }

    /** case <-calTicker.C: one report per entry, each entry deleted as it is sent. */
    method OnTick()
      requires Valid()
      modifies this
      ensures Valid() && window == [] && history == old(history) && redMetric == map[]
      ensures |sent| == |old(sent)| + |Pods(old(window))| && old(sent) <= sent
      ensures View() == GatherStep(old(View()), Tick(sent[|old(sent)|..]))
      ensures ReportsOf(sent[|old(sent)|..], WindowMap(old(window)))
      ensures ReportsWindow(sent[|old(sent)|..], old(window))
    {
      hide RedOf, MakeReport, ReportsOf, ReportsWindow, Pods, WindowMap, Accounts;
      ghost var all := redMetric;
      ghost var before := sent;
      ghost var out: seq<Metric> := [];
      NothingReported(all);
      WindowMapKeys(window);
      while redMetric != map[]
        invariant redMetric.Keys <= all.Keys
        invariant forall pod :: pod in redMetric ==> redMetric[pod] == all[pod]
        invariant sent == before + out
        invariant ReportsOf(out, Except(all, redMetric.Keys))
        invariant window == old(window) && history == old(history)
        decreases |redMetric.Keys|
      {
        var k :| k in redMetric;
        var v := redMetric[k];
        var report := RedMetric(MakeReport(v));
        ReportsGrow(out, all, redMetric.Keys, k);
        sent := sent + [report];
        out := out + [report];
        assert (redMetric - {k}).Keys == redMetric.Keys - {k};
        redMetric := redMetric - {k};
      }
      assert Except(all, {}) == all;
      OutCount(out, all);
      ReportsAreFigures(out, window);
      AccountsTick(Gathering(before, window), history, out);
      assert sent[|before|..] == out;
      EmptyWindow();
      window := [];
    }
  }

  function Except(m: map<string, Red>, left: set<string>): map<string, Red> {
    map pod | pod in m && pod !in left :: m[pod]
  }

  lemma NothingReported(m: map<string, Red>)
    ensures ReportsOf([], Except(m, m.Keys))
  {
    assert Except(m, m.Keys) == map[];
  }

  lemma WindowMapKeys(w: seq<Traffic>)
    ensures WindowMap(w).Keys == Pods(w)
    ensures forall pod :: pod in WindowMap(w) ==>
              WindowMap(w)[pod].podName == pod && WindowMap(w)[pod].requestCount != 0
  {
    forall pod ensures TallyOf(w, pod).requests > 0 || pod !in Pods(w) {
      CountsPositive(w, pod);
    }
  }

  lemma OutCount(out: seq<Metric>, m: map<string, Red>)
    requires ReportsOf(out, m)
    ensures |out| == |m.Keys|
  {
    DistinctSize(out);
  }

  lemma EmptyWindow()
    ensures WindowMap([]) == map[]
    ensures forall pod :: TallyOf([], pod) == ZERO && Reported([], pod) == ZERO
    ensures TrafficOf([]) == []
  {
  }

  lemma FirstAppend(w: seq<Traffic>, m: Traffic, pod: string)
    ensures Pods(w + [m]) == Pods(w) + {m.provider.podName}
    ensures pod in Pods(w + [m]) ==> FirstOf(w + [m], pod) == if pod in Pods(w) then FirstOf(w, pod) else m
  {
    assert (w + [m])[..|w|] == w;
  }

  lemma RedAppend(w: seq<Traffic>, m: Traffic, pod: string)
    requires pod in Pods(w) || pod == m.provider.podName
    ensures pod in Pods(w + [m])
    ensures RedOf(w + [m], pod) ==
              if pod != m.provider.podName then RedOf(w, pod)
              else if pod in Pods(w) then
                var v := RedOf(w, pod);
                v.(requestCount := v.requestCount + 1, errCount := v.errCount + IsErr(m),
                   durationCount := v.durationCount + Truncate(m.duration))
              else Red(pod, m.provider.nodeName, m.provider.nameSpace, m.provider.nameSpace,
                       1, IsErr(m), Truncate(m.duration))
  {
    FirstAppend(w, m, pod);
    TallyAppend(w, m, pod);
    if pod !in Pods(w) {
      NoMessages(w, pod);
    }
    hide FirstOf, TallyOf, Pods, IsErr, Truncate;
  }

  lemma WindowMapAppend(w: seq<Traffic>, m: Traffic)
    ensures var pod := m.provider.podName;
            pod in Pods(w + [m]) && WindowMap(w + [m]) == WindowMap(w)[pod := RedOf(w + [m], pod)]
  {
    hide FirstOf, TallyOf, Pods, RedOf;
    FirstAppend(w, m, m.provider.podName);
    forall p | p in Pods(w + [m]) ensures p != m.provider.podName ==> p in Pods(w) && RedOf(w + [m], p) == RedOf(w, p) {
      RedAppend(w, m, p);
    }
  }

  /** The same in terms of the map itself. */
  lemma WindowMapMessage(w: seq<Traffic>, m: Traffic)
    ensures var pod := m.provider.podName;
            var was := WindowMap(w);
            WindowMap(w + [m]) ==
              was[pod := if pod in was then
                           was[pod].(requestCount := was[pod].requestCount + 1,
                                     errCount := was[pod].errCount + IsErr(m),
                                     durationCount := was[pod].durationCount + Truncate(m.duration))
                         else Red(pod, m.provider.nodeName, m.provider.nameSpace, m.provider.nameSpace,
                                  1, IsErr(m), Truncate(m.duration))]
  {
    hide IsErr, Truncate, RedOf, Pods;
    WindowMapAppend(w, m);
    RedAppend(w, m, m.provider.podName);
  }

  lemma {:induction false} NoMessages(w: seq<Traffic>, pod: string)
    requires pod !in Pods(w)
    ensures TallyOf(w, pod) == ZERO
  {
    hide IsErr, Truncate;
    if w != [] {
      NoMessages(w[..|w| - 1], pod);
    }
  }

  /** A reported pod has at least one message, so no division by zero, and no more errors than messages. */
  lemma {:induction false} CountsPositive(w: seq<Traffic>, pod: string)
    ensures var t := TallyOf(w, pod); 0 <= t.errors <= t.requests && (pod in Pods(w) ==> t.requests > 0)
  {
    hide Atoi, Truncate;
    if w != [] {
      CountsPositive(w[..|w| - 1], pod);
    }
  }

  lemma ReportsGrow(out: seq<Metric>, all: map<string, Red>, left: set<string>, k: string)
    requires k in left && left <= all.Keys && all[k].requestCount != 0 && all[k].podName == k
    requires ReportsOf(out, Except(all, left))
    ensures ReportsOf(out + [RedMetric(MakeReport(all[k]))], Except(all, left - {k}))
  {
    var report := RedMetric(MakeReport(all[k]));
    assert Except(all, left - {k}).Keys == Except(all, left).Keys + {k};
    assert (out + [report])[..|out|] == out;
  }

  // ---------------------------------------------------------------- accounting over whole runs

  function ReportWeight(m: Metric, pod: string): Tally {
    if m.RedMetric? && m.report.red.podName == pod
    then Tally(m.report.red.requestCount, m.report.red.errCount, m.report.red.durationCount) else ZERO
  }

  /** Everything reported so far about a pod. */
  function Reported(ms: seq<Metric>, pod: string): Tally {
    if ms == [] then ZERO else Reported(ms[..|ms| - 1], pod).Plus(ReportWeight(ms[|ms| - 1], pod))
  }

  function TrafficOf(ms: seq<Metric>): seq<Traffic> {
    if ms == [] then []
    else TrafficOf(ms[..|ms| - 1]) + if ms[|ms| - 1].TrafficMetric? then [ms[|ms| - 1].traffic] else []
  }

  lemma TallyAppend(w: seq<Traffic>, m: Traffic, pod: string)
    ensures TallyOf(w + [m], pod) == TallyOf(w, pod).Plus(Weight(m, pod))
  {
    hide Weight;
    assert (w + [m])[..|w|] == w;
  }

  lemma ReportedAppend(sent: seq<Metric>, m: Traffic, pod: string)
    ensures Reported(sent + [TrafficMetric(m)], pod) == Reported(sent, pod)
  {
    assert (sent + [TrafficMetric(m)])[..|sent|] == sent;
  }

  lemma SentAppend(sent: seq<Metric>, window: seq<Traffic>, history: seq<Traffic>, m: Traffic)
    requires forall pod :: Reported(sent, pod).Plus(TallyOf(window, pod)) == TallyOf(history, pod)
    ensures TrafficOf(sent + [TrafficMetric(m)]) == TrafficOf(sent) + [m]
    ensures forall pod :: Reported(sent + [TrafficMetric(m)], pod).Plus(TallyOf(window + [m], pod)) ==
                          TallyOf(history + [m], pod)
  {
    hide Weight, TallyOf, Reported;
    assert (sent + [TrafficMetric(m)])[..|sent|] == sent;
    forall pod
      ensures Reported(sent + [TrafficMetric(m)], pod).Plus(TallyOf(window + [m], pod)) == TallyOf(history + [m], pod)
    {
      assert Reported(sent, pod).Plus(TallyOf(window, pod)) == TallyOf(history, pod);
      ReportedAppend(sent, m, pod);
      TallyAppend(window, m, pod);
      TallyAppend(history, m, pod);
    }
  }

  lemma {:induction false} ReportedConcat(a: seq<Metric>, b: seq<Metric>, pod: string)
    ensures Reported(a + b, pod) == Reported(a, pod).Plus(Reported(b, pod))
  {
    hide Weight, ReportWeight;
    if b == [] {
      assert a + b == a;
    } else {
      assert (a + b)[..|a + b| - 1] == a + b[..|b| - 1];
      ReportedConcat(a, b[..|b| - 1], pod);
    }
  }

  lemma {:induction false} TrafficOfConcat(a: seq<Metric>, b: seq<Metric>)
    ensures TrafficOf(a + b) == TrafficOf(a) + TrafficOf(b)
  {
    if b == [] {
      assert a + b == a;
    } else {
      assert (a + b)[..|a + b| - 1] == a + b[..|b| - 1];
      TrafficOfConcat(a, b[..|b| - 1]);
    }
  }

  lemma {:induction false} NoTraffic(ms: seq<Metric>)
    requires forall m :: m in ms ==> m.RedMetric?
    ensures TrafficOf(ms) == []
  {
    if ms != [] {
      assert ms[|ms| - 1] in ms;
      NoTraffic(ms[..|ms| - 1]);
    }
  }

  lemma {:induction false} ReportedOnce(out: seq<Metric>, w: seq<Traffic>, pod: string)
    requires Distinct(out) && forall x :: x in out ==> IsReportOf(x, WindowMap(w))
    ensures Reported(out, pod) == if pod in Named(out) then TallyOf(w, pod) else ZERO
  {
    hide TallyOf, FirstOf, Pods;
    if out != [] {
      var n := |out| - 1;
      assert out[n] in out;
      ReportedOnce(out[..n], w, pod);
    }
  }

  lemma ReportsTallyOne(out: seq<Metric>, w: seq<Traffic>, pod: string)
    requires ReportsOf(out, WindowMap(w))
    ensures Reported(out, pod) == TallyOf(w, pod)
  {
    ReportedOnce(out, w, pod);
    if pod !in Pods(w) {
      NoMessages(w, pod);
    }
  }

  /** A tick moves the window's tally of every pod into the reports, and adds nothing else. */
  lemma ReportsTally(before: seq<Metric>, out: seq<Metric>, w: seq<Traffic>)
    requires ReportsOf(out, WindowMap(w))
    ensures TrafficOf(before + out) == TrafficOf(before)
    ensures forall pod :: Reported(before + out, pod) == Reported(before, pod).Plus(TallyOf(w, pod))
  {
    forall pod ensures Reported(before + out, pod) == Reported(before, pod).Plus(TallyOf(w, pod)) {
      ReportedConcat(before, out, pod);
      ReportsTallyOne(out, w, pod);
    }
    TrafficOfConcat(before, out);
    assert forall x :: x in out ==> IsReportOf(x, WindowMap(w));
    NoTraffic(out);
  }

  // ---------------------------------------------------------------- bounds on a report

  lemma TruncateBelow(x: real)
    requires x >= 0.0
    ensures 0 <= Truncate(x) && Truncate(x) as real <= x < Truncate(x) as real + 1.0
    ensures x < 4295.0 ==> Truncate(x) <= 4294
  {
  }

  function RealTally(w: seq<Traffic>, pod: string): (real, real) {
    (TallyOf(w, pod).duration as real, TallyOf(w, pod).requests as real)
  }

  lemma RealTallyStep(w: seq<Traffic>, pod: string)
    requires w != [] && w[|w| - 1].duration >= 0.0
    ensures var n := |w| - 1;
            var own := w[n].provider.podName == pod;
            var (d, r) := RealTally(w[..n], pod);
            var (d', r') := RealTally(w, pod);
            r' == (if own then r + 1.0 else r) &&
            TotalDuration(w, pod) == TotalDuration(w[..n], pod) + (if own then w[n].duration else 0.0) &&
            (if own then d + w[n].duration - 1.0 < d' <= d + w[n].duration else d' == d)
  {
    hide IsErr, Truncate;
    TruncateBelow(w[|w| - 1].duration);
  }

  lemma {:induction false} TruncationError(w: seq<Traffic>, pod: string)
    requires forall m :: m in w ==> m.duration >= 0.0
    ensures var (d, r) := RealTally(w, pod);
            d <= TotalDuration(w, pod) <= d + r && (pod in Pods(w) ==> TotalDuration(w, pod) < d + r)
  {
    hide TallyOf, TotalDuration;
    if w != [] {
      var p := w[..|w| - 1];
      assert w[|w| - 1] in w && forall m' :: m' in p ==> m' in w;
      RealTallyStep(w, pod);
      TruncationError(p, pod);
    } else {
      EmptyTally(pod);
    }
  }

  lemma EmptyTally(pod: string)
    ensures TallyOf([], pod) == ZERO && TotalDuration([], pod) == 0.0
  {
  }

  /** With every duration below 4295 ms, the sum of a window is within 4294 per request. */
  lemma {:induction false} DurationBound(w: seq<Traffic>, pod: string)
    requires forall m :: m in w ==> 0.0 <= m.duration < 4295.0
    ensures 0 <= TallyOf(w, pod).duration <= 4294 * TallyOf(w, pod).requests
  {
    hide IsErr, Truncate;
    if w != [] {
      var p := w[..|w| - 1];
      assert w[|w| - 1] in w && forall m' :: m' in p ==> m' in w;
      TruncateBelow(w[|w| - 1].duration);
      DurationBound(p, pod);
    }
  }

  lemma DivideBounds(a: real, b: real, n: real)
    requires n > 0.0
    ensures a <= b ==> a / n <= b / n
    ensures a < b ==> a / n < b / n
  {
    assert a == a / n * n && b == b / n * n;
  }

  lemma QuotientIs(a: real, n: real, q: real)
    requires n > 0.0 && q * n == a
    ensures a / n == q
  {
    var d := a / n - q;
    assert a / n * n == a;
    assert d * n == 0.0;
    assert d > 0.0 ==> d * n > 0.0;
    assert d < 0.0 ==> (-d) * n > 0.0;
  }

  lemma MeanBounds(errors: real, sum: real, exact: real, n: real)
    requires n > 0.0 && 0.0 <= errors <= n && sum <= exact < sum + n
    ensures 0.0 <= errors / n * 100.0 <= 100.0
    ensures sum / n <= exact / n < sum / n + 1.0
  {
    DivideBounds(0.0, errors, n);
    DivideBounds(errors, n, n);
    DivideBounds(sum, exact, n);
    DivideBounds(exact, sum + n, n);
    assert sum / n * n == sum;
    QuotientIs(sum + n, n, sum / n + 1.0);
    QuotientIs(n, n, 1.0);
  }

  /** Rates in range, and the reported duration below the true mean by less than one. */
  lemma ReportBounds(w: seq<Traffic>, pod: string)
    requires pod in Pods(w) && forall m :: m in w ==> m.duration >= 0.0
    ensures RedOf(w, pod).requestCount > 0
    ensures var r := MakeReport(RedOf(w, pod));
            var mean := TotalDuration(w, pod) / RedOf(w, pod).requestCount as real;
            0.0 <= r.errRate <= 100.0 && r.duration <= mean < r.duration + 1.0
  {
    hide TallyOf, TotalDuration, Pods;
    CountsPositive(w, pod);
    TruncationError(w, pod);
    var t := TallyOf(w, pod);
    MeanBounds(t.errors as real, t.duration as real, TotalDuration(w, pod), t.requests as real);
  }
}
