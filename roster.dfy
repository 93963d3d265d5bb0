/** The NPC completion tracker of `Global`: the set of NPC node paths the
    player has talked to, and the two one-way flags (`CanLaunchEnd` and the
    static `HasTalkedToNpc`) set when, on a new insertion, the number of
    distinct paths reaches the current size of the "npc" group. That size
    and group membership come from the scene tree and are parameters. */
module Roster {
  import opened Wrappers

  /** `Global.DirectorEndTimeline`: the director's closing timeline, the one
      the end key starts. */
  const DirectorEndTimeline: string := "timeline_director_end"

  /** What `RegisterNpcTalk` reads of the node it is given: its path and
      whether it belongs to the "npc" group. */
  datatype NpcNode = NpcNode(path: string, inNpcGroup: bool)

  datatype TalkState = TalkState(talked: set<string>, canLaunchEnd: bool, hasTalkedToNpc: bool)

  /** What a call did; `Recorded` carries the progress line's numbers and
      whether the completion condition held. */
  datatype TalkOutcome = NullNode | NotAnNpc | AlreadyTalked | Recorded(count: nat, total: nat, allMet: bool)

  function Initial(): (s: TalkState)
    ensures s.talked == {} && !s.canLaunchEnd && !s.hasTalkedToNpc
  {
    TalkState({}, false, false)
  }

  /** `Global.RegisterNpcTalk(npc)` with `total` the live count of the "npc"
      group at the time of the call. */
  function RegisterTalk(s: TalkState, npc: Option<NpcNode>, total: nat): (r: (TalkState, TalkOutcome))
    ensures npc.None? ==> r == (s, NullNode)
    ensures npc.Some? && !npc.value.inNpcGroup ==> r == (s, NotAnNpc)
    ensures npc.Some? && npc.value.inNpcGroup && npc.value.path in s.talked ==> r == (s, AlreadyTalked)
    ensures r.1.Recorded? <==> npc.Some? && npc.value.inNpcGroup && npc.value.path !in s.talked
    ensures r.1.Recorded? ==>
              && r.0.talked == s.talked + {npc.value.path}
              && |r.0.talked| == |s.talked| + 1 == r.1.count
              && r.1.total == total
              && (r.1.allMet <==> total > 0 && r.1.count >= total)
    ensures r.0.canLaunchEnd <==> s.canLaunchEnd || (r.1.Recorded? && r.1.allMet)
    ensures r.0.hasTalkedToNpc <==> s.hasTalkedToNpc || (r.1.Recorded? && r.1.allMet)
  {
    match npc
    case None => (s, NullNode)
    case Some(node) =>
      if !node.inNpcGroup then (s, NotAnNpc)
      else if node.path in s.talked then (s, AlreadyTalked)
      else
        var talked := s.talked + {node.path};
        var allMet := total > 0 && |talked| >= total;
        var next := if allMet then TalkState(talked, true, true) else s.(talked := talked);
        (next, Recorded(|talked|, total, allMet))
  }

  /** One talk as the engine reports it: the node (null or not) and the
      roster size at that moment. */
  datatype Talk = Talk(npc: Option<NpcNode>, total: nat)

  function RunTalks(s: TalkState, talks: seq<Talk>): TalkState
    decreases |talks|
  {
    if talks == [] then s
    else RunTalks(RegisterTalk(s, talks[0].npc, talks[0].total).0, talks[1..])
  }

  /** Neither flag is ever reset, the talked set only grows, and the two flags
      move together from a state where they agree. */
  lemma {:induction false} LatchesNeverReset(s: TalkState, talks: seq<Talk>)
    ensures s.talked <= RunTalks(s, talks).talked
    ensures s.canLaunchEnd ==> RunTalks(s, talks).canLaunchEnd
    ensures s.hasTalkedToNpc ==> RunTalks(s, talks).hasTalkedToNpc
    ensures s.canLaunchEnd == s.hasTalkedToNpc ==>
              RunTalks(s, talks).canLaunchEnd == RunTalks(s, talks).hasTalkedToNpc
    decreases |talks|
  {
    if talks != [] {
      LatchesNeverReset(RegisterTalk(s, talks[0].npc, talks[0].total).0, talks[1..]);
    }
  }

  /** Talks with the given NPC paths, all in the "npc" group, under a fixed
      roster size. */
  function Visits(paths: seq<string>, total: nat): (t: seq<Talk>)
    ensures |t| == |paths|
    ensures forall i :: 0 <= i < |t| ==> t[i] == Talk(Some(NpcNode(paths[i], true)), total)
  {
    seq(|paths|, i requires 0 <= i < |paths| => Talk(Some(NpcNode(paths[i], true)), total))
  }

  predicate DistinctPaths(paths: seq<string>) {
    forall i, j :: 0 <= i < j < |paths| ==> paths[i] != paths[j]
  }

  /** Visiting NPCs not yet talked to adds each of them to the set. */
  lemma {:induction false} VisitsGrowTalked(s: TalkState, paths: seq<string>, total: nat)
    requires DistinctPaths(paths)
    requires forall i :: 0 <= i < |paths| ==> paths[i] !in s.talked
    ensures RunTalks(s, Visits(paths, total)).talked == s.talked + set p | p in paths
    ensures |RunTalks(s, Visits(paths, total)).talked| == |s.talked| + |paths|
    decreases |paths|
  {
    var t := Visits(paths, total);
    if paths != [] {
      var step := RegisterTalk(s, t[0].npc, t[0].total);
      assert step.1.Recorded?;
      var s1 := step.0;
      assert s1.talked == s.talked + {paths[0]};
      assert Visits(paths[1..], total) == t[1..];
      assert RunTalks(s, t) == RunTalks(s1, t[1..]);
      forall i | 0 <= i < |paths[1..]| ensures paths[1..][i] !in s1.talked {
        assert paths[1..][i] == paths[i + 1] != paths[0];
      }
      VisitsGrowTalked(s1, paths[1..], total);
      PathsCons(paths);
    }
  }

  lemma PathsCons(paths: seq<string>)
    requires paths != []
    ensures (set p | p in paths) == {paths[0]} + set p | p in paths[1..]
  {
    assert paths == [paths[0]] + paths[1..];
  }

  /** With a roster of `n > 0` NPCs, talking to `n` distinct NPCs not yet
      met unlocks the ending, from any state of the tracker. */
  lemma RosterCompletion(s: TalkState, paths: seq<string>, n: nat)
    requires DistinctPaths(paths) && |paths| == n > 0
    requires forall i :: 0 <= i < |paths| ==> paths[i] !in s.talked
    ensures RunTalks(s, Visits(paths, n)).canLaunchEnd
    ensures RunTalks(s, Visits(paths, n)).hasTalkedToNpc
  {
    var t := Visits(paths, n);
    assert Visits(paths[..n - 1], n) == t[..n - 1];
    var before := RunTalks(s, t[..n - 1]);
    AllButLastMet(s, paths, n);
    var step := RegisterTalk(before, t[n - 1].npc, t[n - 1].total);
    assert step.1.Recorded? && step.1.allMet;
    RunTalksSplit(s, t[..n - 1], t[n - 1]);
    assert t[..n - 1] + [t[n - 1]] == t;
  }

  /** Before the last of those talks, `n - 1` new NPCs are recorded and the
      last one is still new. */
  lemma AllButLastMet(s: TalkState, paths: seq<string>, n: nat)
    requires DistinctPaths(paths) && |paths| == n > 0
    requires forall i :: 0 <= i < |paths| ==> paths[i] !in s.talked
    ensures var before := RunTalks(s, Visits(paths[..n - 1], n));
      |before.talked| >= n - 1 && paths[n - 1] !in before.talked
  {
    var prefix := paths[..n - 1];
    assert DistinctPaths(prefix);
    assert forall i :: 0 <= i < |prefix| ==> prefix[i] !in s.talked;
    VisitsGrowTalked(s, prefix, n);
    assert paths[n - 1] !in prefix;
  }

  lemma {:induction false} RunTalksSplit(s: TalkState, talks: seq<Talk>, last: Talk)
    ensures RunTalks(s, talks + [last]) == RegisterTalk(RunTalks(s, talks), last.npc, last.total).0
    decreases |talks|
  {
    if talks == [] {
      assert talks + [last] == [last];
    } else {
      assert (talks + [last])[1..] == talks[1..] + [last];
      RunTalksSplit(RegisterTalk(s, talks[0].npc, talks[0].total).0, talks[1..], last);
    }
  }
}
