/** The cache of this node's pods, internal/pid2pod/pid2pod.go, and the cgroup line it is looked up by. */
module PodCache {
  import opened Wire

  datatype Pod = Pod(uid: string, name: string, nodeName: string)

  class Pid2Pod {
    var pods: map<string, Pod>

    constructor ()
      ensures pods == map[]
    {
      pods := map[];
    }

    method AddPod(p: Pod, node: string)
      modifies this
      ensures pods == AddedTo(old(pods), p, node)
    {
      if p.nodeName != node {
        return;
      }
      pods := pods[p.uid := p];
    }

    method DeletePod(p: Pod, node: string)
      modifies this
      ensures pods == DeletedFrom(old(pods), p, node)
    {
      if p.nodeName != node {
        return;
      }
      pods := pods - {p.uid};
    }

    /** The old pod is not looked at. */
    method UpdatePod(was: Pod, now: Pod, node: string)
      modifies this
      ensures pods == AddedTo(old(pods), now, node)
    {
      if now.nodeName != node {
        return;
      }
      pods := pods[now.uid := now];
    }
  }

  function AddedTo(pods: map<string, Pod>, p: Pod, node: string): map<string, Pod> {
    if p.nodeName == node then pods[p.uid := p] else pods
  }

  function DeletedFrom(pods: map<string, Pod>, p: Pod, node: string): map<string, Pod> {
    if p.nodeName == node then pods - {p.uid} else pods
  }

  // ---------------------------------------------------------------- runs

  /** The informer's own store: live pods by namespaced name. */
  type Live = map<string, Pod>

  datatype Event = Added(id: string, pod: Pod) | Deleted(id: string) | Updated(id: string, pod: Pod)

  datatype System = System(live: Live, pods: map<string, Pod>)

  /** No two live pods have the same UID. */
  ghost predicate UniqueUids(live: Live) {
    forall id, id' :: id in live && id' in live && live[id].uid == live[id'].uid ==> id == id'
  }

  ghost predicate Legal(s: System, ev: Event) {
    match ev
    case Added(id, p) => id !in s.live && UniqueUids(s.live[id := p])
    case Deleted(id) => id in s.live
    case Updated(id, p) => id in s.live && UniqueUids(s.live[id := p])
  }

  function Step(s: System, ev: Event, node: string): System {
    match ev
    case Added(id, p) => System(s.live[id := p], AddedTo(s.pods, p, node))
    case Deleted(id) =>
      if id in s.live then System(s.live - {id}, DeletedFrom(s.pods, s.live[id], node)) else s
    case Updated(id, p) => System(s.live[id := p], AddedTo(s.pods, p, node))
  }

  /** What the cache stands for: the live pods of this node, by UID. */
  ghost predicate IsNodeView(s: System, node: string) {
    && (forall id :: id in s.live && s.live[id].nodeName == node ==>
          s.live[id].uid in s.pods && s.pods[s.live[id].uid] == s.live[id])
    && (forall uid :: uid in s.pods ==> exists id :: id in s.live && s.live[id] == s.pods[uid])
    && (forall uid :: uid in s.pods ==> s.pods[uid].uid == uid && s.pods[uid].nodeName == node)
  }

  ghost predicate StaysPut(s: System, ev: Event, node: string)
    requires Legal(s, ev)
  {
    ev.Updated? && s.live[ev.id].nodeName == node ==> ev.pod.nodeName == node && ev.pod.uid == s.live[ev.id].uid
  }

  lemma LiveStaysCached(s: System, ev: Event, node: string, id: string)
    requires IsNodeView(s, node) && UniqueUids(s.live) && Legal(s, ev) && StaysPut(s, ev, node)
    requires id in Step(s, ev, node).live && Step(s, ev, node).live[id].nodeName == node
    ensures var s' := Step(s, ev, node);
            s'.live[id].uid in s'.pods && s'.pods[s'.live[id].uid] == s'.live[id]
  {
    var s' := Step(s, ev, node);
    if !ev.Deleted? && id != ev.id {
      assert s'.live[ev.id] == ev.pod && s'.live[id] == s.live[id];
    }
  }

  lemma CachedStaysLive(s: System, ev: Event, node: string, uid: string)
    requires IsNodeView(s, node) && UniqueUids(s.live) && Legal(s, ev) && StaysPut(s, ev, node)
    requires uid in Step(s, ev, node).pods
    ensures var s' := Step(s, ev, node);
            (exists id :: id in s'.live && s'.live[id] == s'.pods[uid]) &&
            s'.pods[uid].uid == uid && s'.pods[uid].nodeName == node
  {
    var s' := Step(s, ev, node);
    if ev.Deleted? || uid != ev.pod.uid || ev.pod.nodeName != node {
      assert uid in s.pods && s'.pods[uid] == s.pods[uid];
      var id :| id in s.live && s.live[id] == s.pods[uid];
      assert id in s'.live && s'.live[id] == s'.pods[uid];
    } else {
      assert s'.live[ev.id] == s'.pods[uid];
    }
  }

  /** Exactly which events keep the cache right: an update must leave a pod of this node on this node, under
      its UID. Additions and deletions always do, and so do updates of pods seen elsewhere or unscheduled. */
  lemma NodeViewExact(s: System, ev: Event, node: string)
    requires IsNodeView(s, node) && UniqueUids(s.live) && Legal(s, ev)
    ensures IsNodeView(Step(s, ev, node), node) <==>
            (ev.Updated? && s.live[ev.id].nodeName == node ==>
               ev.pod.nodeName == node && ev.pod.uid == s.live[ev.id].uid)
  {
    hide UniqueUids, AddedTo, DeletedFrom, Step;
    var s' := Step(s, ev, node);
    if !StaysPut(s, ev, node) {
      StaleEntry(s, ev, node);
    } else {
      forall id | id in s'.live && s'.live[id].nodeName == node
        ensures s'.live[id].uid in s'.pods && s'.pods[s'.live[id].uid] == s'.live[id]
      {
        LiveStaysCached(s, ev, node, id);
      }
      forall uid | uid in s'.pods
        ensures exists id :: id in s'.live && s'.live[id] == s'.pods[uid]
        ensures s'.pods[uid].uid == uid && s'.pods[uid].nodeName == node
      {
        CachedStaysLive(s, ev, node, uid);
      }
    }
  }

  /** Moving a pod off the node, or changing its UID, leaves the old entry behind. */
  lemma StaleEntry(s: System, ev: Event, node: string)
    requires IsNodeView(s, node) && UniqueUids(s.live) && Legal(s, ev) && ev.Updated?
    requires s.live[ev.id].nodeName == node
    requires ev.pod.nodeName != node || ev.pod.uid != s.live[ev.id].uid
    ensures !IsNodeView(Step(s, ev, node), node)
  {
    var s' := Step(s, ev, node);
    var was := s.live[ev.id];
    assert was.uid in s'.pods && s'.pods[was.uid] == was;
    forall id | id in s'.live ensures s'.live[id] != was {
      assert id != ev.id ==> s.live[id].uid != was.uid;
    }
  }

  function Run(evs: seq<Event>, node: string): System {
    if evs == [] then System(map[], map[]) else Step(Run(evs[..|evs| - 1], node), evs[|evs| - 1], node)
  }

  /** A pod keeps its UID across updates, and its node name once it has one. */
  ghost predicate Settled(s: System, ev: Event) {
    ev.Updated? && ev.id in s.live ==>
      ev.pod.uid == s.live[ev.id].uid && (s.live[ev.id].nodeName != "" ==> ev.pod.nodeName == s.live[ev.id].nodeName)
  }

  ghost predicate WellBehaved(evs: seq<Event>, node: string) {
    forall n :: 0 <= n < |evs| ==>
      Legal(Run(evs[..n], node), evs[n]) && Settled(Run(evs[..n], node), evs[n])
  }

  /** Over every run the API server can produce, the cache is the live pods of this node, those first seen
      unscheduled included. */
  lemma {:induction false} CacheIsNodeView(evs: seq<Event>, node: string)
    requires WellBehaved(evs, node) && node != ""
    ensures IsNodeView(Run(evs, node), node) && UniqueUids(Run(evs, node).live)
  {
    if evs != [] {
      var n := |evs| - 1;
      var p := evs[..n];
      forall i | 0 <= i < n ensures Legal(Run(p[..i], node), p[i]) && Settled(Run(p[..i], node), p[i]) {
        assert p[..i] == evs[..i] && p[i] == evs[i];
      }
      CacheIsNodeView(p, node);
      NodeViewExact(Run(p, node), evs[n], node);
    }
  }

  // ---------------------------------------------------------------- cgroup lines

  const SLICE := ":/kubepods.slice/kubepods-burstable.slice/kubepods-burstable-pod"
  const SCOPE := ".slice/cri-containerd-"
  const POD_ID := 36
  const CONTAINER_ID := 64
  const TAIL := |SLICE| + POD_ID + |SCOPE| + CONTAINER_ID + |".scope"|

  predicate IsDigit(c: char) {
    '0' <= c <= '9'
  }

  predicate IsIdChar(c: char) {
    IsDigit(c) || 'a' <= c <= 'f' || c == '_'
  }

  predicate IsId(s: string, n: nat) {
    |s| == n && forall i :: 0 <= i < n ==> IsIdChar(s[i])
  }

  /** A literal of the pattern: its dots match any character of a line. */
  predicate MatchesLiteral(s: string, literal: string) {
    |s| == |literal| && forall i :: 0 <= i < |s| ==> literal[i] == '.' || s[i] == literal[i]
  }

  function PodIdAt(line: string, j: nat): string
    requires j + TAIL <= |line|
  {
    line[j + |SLICE|..][..POD_ID]
  }

  function ContainerIdAt(line: string, j: nat): string
    requires j + TAIL <= |line|
  {
    line[j + |SLICE| + POD_ID + |SCOPE|..][..CONTAINER_ID]
  }

  /** The fixed-width part of the pattern, from ":/kubepods" to the end, at position j. */
  predicate TailAt(line: string, j: nat) {
    && j + TAIL <= |line|
    && MatchesLiteral(line[j..][..|SLICE|], SLICE)
    && IsId(PodIdAt(line, j), POD_ID)
    && MatchesLiteral(line[j + |SLICE| + POD_ID..][..|SCOPE|], SCOPE)
    && IsId(ContainerIdAt(line, j), CONTAINER_ID)
    && MatchesLiteral(line[j + |SLICE| + POD_ID + |SCOPE| + CONTAINER_ID..][..|".scope"|], ".scope")
  }

  /** `\d+:.+` can end at j: a digit, a colon, and at least one character before j. */
  predicate HeadBefore(line: string, j: nat) {
    j <= |line| && exists c :: 1 <= c && c + 2 <= j && line[c] == ':' && IsDigit(line[c - 1])
  }

  /** FindStringSubmatch. The leftmost match takes the first digits and colon; `.+` is greedy, so the tail is
      the last one that can follow any digits and colon. */
  function Submatch(line: string, j: nat): Option<(string, string)>
    requires j <= |line|
    decreases j
  {
    if HeadBefore(line, j) && TailAt(line, j) then Some((PodIdAt(line, j), ContainerIdAt(line, j)))
    else if j == 0 then None
    else Submatch(line, j - 1)
  }

  function MatchLine(line: string): Option<(string, string)> {
    Submatch(line, |line|)
  }

  /** lookupIdByPid over the lines of /proc/<pid>/cgroup: the first line that matches. */
  method LookupIdByPid(lines: seq<string>) returns (ids: Option<(string, string)>)
    ensures ids.None? <==> forall i :: 0 <= i < |lines| ==> MatchLine(lines[i]).None?
    ensures ids.Some? ==> exists i :: 0 <= i < |lines| && MatchLine(lines[i]) == ids &&
                                      forall k :: 0 <= k < i ==> MatchLine(lines[k]).None?
  {
    for i := 0 to |lines|
      invariant forall k :: 0 <= k < i ==> MatchLine(lines[k]).None?
    {
      var parts := MatchLine(lines[i]);
      if parts.Some? {
        return parts;
      }
    }
    return None;
  }

  function Render(hierarchy: string, controllers: string, podId: string, containerId: string): string {
    hierarchy + ":" + controllers + SLICE + podId + SCOPE + containerId + ".scope"
  }

  /** Nothing beyond position j can match when the tail no longer fits. */
  lemma {:induction false} SubmatchSkips(line: string, j: nat, k: nat)
    requires j <= k <= |line| && |line| < j + 1 + TAIL
    ensures Submatch(line, k) == Submatch(line, j)
  {
    if j < k {
      SubmatchSkips(line, j, k - 1);
    }
  }

  /** Round trip: a rendered line gives back its pod and container. */
  lemma RenderRoundTrip(hierarchy: string, controllers: string, podId: string, containerId: string)
    requires hierarchy != [] && IsDigit(hierarchy[|hierarchy| - 1]) && controllers != []
    requires IsId(podId, 36) && IsId(containerId, 64)
    ensures Render(hierarchy, controllers, podId, containerId) ==
            hierarchy + ":" + controllers + ":/kubepods.slice/kubepods-burstable.slice/kubepods-burstable-pod" + podId +
            ".slice/cri-containerd-" + containerId + ".scope"
    ensures MatchLine(Render(hierarchy, controllers, podId, containerId)) == Some((podId, containerId))
  {
    var line := Render(hierarchy, controllers, podId, containerId);
    var c := |hierarchy|;
    var j := c + 1 + |controllers|;
    assert |line| == j + TAIL;
    assert line[j..][..|SLICE|] == SLICE;
    assert PodIdAt(line, j) == podId;
    assert line[j + |SLICE| + POD_ID..][..|SCOPE|] == SCOPE;
    assert ContainerIdAt(line, j) == containerId;
    assert line[j + |SLICE| + POD_ID + |SCOPE| + CONTAINER_ID..][..|".scope"|] == ".scope";
    assert line[c] == ':' && IsDigit(line[c - 1]);
    assert TailAt(line, j);
    assert HeadBefore(line, j);
    SubmatchSkips(line, j, |line|);
  }

  // ---------------------------------------------------------------- the pattern, spelled out

  /** The text is in the line at this place, up to its dots, which stand for any character. */
  predicate Fits(line: string, at: nat, text: string) {
    at + |text| <= |line| && forall i :: 0 <= i < |text| ==> text[i] == '.' || line[at + i] == text[i]
  }

  predicate IsHexOrUnderscore(s: string) {
    forall c :: c in s ==> c in "0123456789abcdef_"
  }

  /** A line of the pattern, with ":/kubepods" at j: before it digits, a colon and at least one character; after
      it the fixed text around 36 and 64 characters of identifiers. */
  ghost predicate HasShape(line: string, j: nat, podId: string, containerId: string) {
    && (exists c: nat :: 1 <= c && c + 2 <= j <= |line| && '0' <= line[c - 1] <= '9' && line[c] == ':')
    && Fits(line, j, ":/kubepods.slice/kubepods-burstable.slice/kubepods-burstable-pod")
    && j + 192 <= |line| && line[j + 64..j + 100] == podId && IsHexOrUnderscore(podId)
    && Fits(line, j + 100, ".slice/cri-containerd-")
    && line[j + 122..j + 186] == containerId && IsHexOrUnderscore(containerId)
    && Fits(line, j + 186, ".scope")
  }

  lemma FitsExact(line: string, at: nat, text: string)
    requires at + |text| <= |line|
    ensures Fits(line, at, text) <==> MatchesLiteral(line[at..][..|text|], text)
  {
    var part := line[at..][..|text|];
    assert forall i :: 0 <= i < |text| ==> part[i] == line[at + i];
  }

  lemma IsIdExact(s: string, n: nat)
    ensures IsId(s, n) <==> |s| == n && IsHexOrUnderscore(s)
  {
    forall c: char ensures IsIdChar(c) <==> c in "0123456789abcdef_" {
      IsIdCharExact(c);
    }
  }

  lemma IsIdCharExact(c: char)
    ensures IsIdChar(c) <==> c in "0123456789abcdef_"
  {
    var all := "0123456789abcdef_";
    if IsDigit(c) {
      assert all[c as int - '0' as int] == c;
    } else if 'a' <= c <= 'f' {
      assert all[10 + (c as int - 'a' as int)] == c;
    } else if c == '_' {
      assert all[16] == c;
    }
  }

  lemma ShapeExact(line: string, j: nat)
    ensures HeadBefore(line, j) && TailAt(line, j) <==>
            j + 192 <= |line| && HasShape(line, j, line[j + 64..j + 100], line[j + 122..j + 186])
    ensures TailAt(line, j) ==>
              PodIdAt(line, j) == line[j + 64..j + 100] && ContainerIdAt(line, j) == line[j + 122..j + 186]
  {
    assert |SLICE| == 64 && |SCOPE| == 22 && TAIL == 192;
    if j + 192 <= |line| {
      hide MatchesLiteral, Fits, IsId, IsHexOrUnderscore;
      assert line[j + 64..][..36] == line[j + 64..j + 100];
      assert line[j + 122..][..64] == line[j + 122..j + 186];
      FitsExact(line, j, SLICE);
      FitsExact(line, j + 100, SCOPE);
      FitsExact(line, j + 186, ".scope");
      IsIdExact(line[j + 64..j + 100], 36);
      IsIdExact(line[j + 122..j + 186], 64);
    }
  }

  lemma {:induction false} SubmatchExact(line: string, n: nat)
    requires n <= |line|
    ensures Submatch(line, n).None? <==> forall j: nat :: j <= n ==> !(HeadBefore(line, j) && TailAt(line, j))
    ensures Submatch(line, n).Some? ==>
              exists j: nat :: j <= n && HeadBefore(line, j) && TailAt(line, j) &&
                Submatch(line, n) == Some((PodIdAt(line, j), ContainerIdAt(line, j))) &&
                forall k: nat :: j < k <= n ==> !(HeadBefore(line, k) && TailAt(line, k))
  {
    hide HeadBefore, TailAt;
    if !(HeadBefore(line, n) && TailAt(line, n)) && n > 0 {
      SubmatchExact(line, n - 1);
    }
  }

  /** Exactly which lines match, and that the identifiers are those of the last place in the line that does. */
  lemma MatchExact(line: string)
    ensures MatchLine(line).None? <==> forall j: nat, p, c :: !HasShape(line, j, p, c)
    ensures MatchLine(line).Some? ==>
              exists j: nat :: HasShape(line, j, MatchLine(line).value.0, MatchLine(line).value.1) &&
                forall k: nat, p, c :: k > j ==> !HasShape(line, k, p, c)
  {
    SubmatchExact(line, |line|);
    hide HasShape, HeadBefore, TailAt;
    forall j: nat, p, c | HasShape(line, j, p, c)
      ensures j <= |line| && HeadBefore(line, j) && TailAt(line, j)
    {
      ShapeIs(line, j, p, c);
      ShapeExact(line, j);
    }
    if MatchLine(line).Some? {
      var j: nat :| j <= |line| && HeadBefore(line, j) && TailAt(line, j) &&
        MatchLine(line) == Some((PodIdAt(line, j), ContainerIdAt(line, j))) &&
        forall k: nat :: j < k <= |line| ==> !(HeadBefore(line, k) && TailAt(line, k));
      ShapeExact(line, j);
    }
  }

  lemma ShapeIs(line: string, j: nat, p: string, c: string)
    requires HasShape(line, j, p, c)
    ensures j + 192 <= |line| && p == line[j + 64..j + 100] && c == line[j + 122..j + 186]
  {
  }
}
