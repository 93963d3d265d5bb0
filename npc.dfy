/** The timeline choice of an NPC (`Npc.GetDialogueTimeline`): the director
    plays the closing timeline once `CanLaunchEnd` is set (the number of
    distinct NPCs talked to has reached the size of the "npc" group); otherwise an
    override set in the inspector wins; otherwise the type decides, and every
    type except `Rmouque` shares `AyadiTimeline`. */
module NpcDialogue {
  import opened Wrappers
  import Roster

  datatype NpcType = Rmouque | Ayadi | Lebot | Roy | Directeur | Haristoy

  /** The inspector defaults of the two per-type timelines. */
  const DefaultRmouqueTimeline: string := "Ilias_responsable_informatique"
  const DefaultAyadiTimeline: string := "monsieurAyadi"

  /** What `GetDialogueTimeline` reads of an NPC; `timelineName` is `None`
      when the inspector field is null. */
  datatype NpcConfig = NpcConfig(kind: NpcType, timelineName: Option<string>, rmouqueTimeline: string, ayadiTimeline: string)

  /** `string.IsNullOrEmpty`. */
  predicate IsNullOrEmpty(s: Option<string>) {
    s.None? || s.value == ""
  }

  /** The timeline for this NPC, `hasTalkedToNpc` being the global flag. */
  function DialogueTimeline(c: NpcConfig, hasTalkedToNpc: bool): (r: string)
    ensures r == Roster.DirectorEndTimeline || r == c.rmouqueTimeline || r == c.ayadiTimeline
            || (c.timelineName.Some? && r == c.timelineName.value)
  {
    if c.kind == Directeur && hasTalkedToNpc then Roster.DirectorEndTimeline
    else if !IsNullOrEmpty(c.timelineName) then c.timelineName.value
    else match c.kind
      case Rmouque => c.rmouqueTimeline
      case Ayadi => c.ayadiTimeline
      case Lebot => c.ayadiTimeline
      case Directeur => c.ayadiTimeline
      case Haristoy => c.ayadiTimeline
      case Roy => c.ayadiTimeline
  }

  /** The flag only matters to the director, and for the director it beats
      any override. */
  lemma DirectorEndWins(c: NpcConfig, flag: bool)
    ensures c.kind == Directeur && flag ==> DialogueTimeline(c, flag) == Roster.DirectorEndTimeline
    ensures c.kind != Directeur ==> DialogueTimeline(c, flag) == DialogueTimeline(c, !flag)
  {
  }

  /** Below the director's ending, a non-empty override is played verbatim,
      and an empty or null one falls through to the type. */
  lemma OverrideWins(c: NpcConfig, flag: bool)
    requires !(c.kind == Directeur && flag)
    ensures !IsNullOrEmpty(c.timelineName) ==> DialogueTimeline(c, flag) == c.timelineName.value
    ensures IsNullOrEmpty(c.timelineName) ==>
              DialogueTimeline(c, flag) == DialogueTimeline(c.(timelineName := None), false)
  {
  }

  /** Without an override, `Rmouque` plays its own timeline and every other
      type plays `AyadiTimeline`: there is no dedicated timeline for them. */
  lemma TypeMapping(c: NpcConfig)
    requires IsNullOrEmpty(c.timelineName)
    ensures c.kind == Rmouque ==> DialogueTimeline(c, false) == c.rmouqueTimeline
    ensures c.kind != Rmouque ==> DialogueTimeline(c, false) == c.ayadiTimeline
    ensures forall t: NpcType :: t != Rmouque ==>
              DialogueTimeline(c.(kind := t), false) == DialogueTimeline(c.(kind := Ayadi), false)
  {
  }

  /** With the inspector defaults and no override, every NPC has a timeline
      to play. */
  lemma DefaultsNeverEmpty(kind: NpcType, flag: bool)
    ensures DialogueTimeline(NpcConfig(kind, None, DefaultRmouqueTimeline, DefaultAyadiTimeline), flag) != ""
  {
    var r := DialogueTimeline(NpcConfig(kind, None, DefaultRmouqueTimeline, DefaultAyadiTimeline), flag);
    assert r == Roster.DirectorEndTimeline || r == DefaultRmouqueTimeline || r == DefaultAyadiTimeline;
  }

  /** Once the player has talked to all `n > 0` NPCs of the roster, the
      director's timeline is the closing one. */
  lemma DirectorEndsAfterRoster(c: NpcConfig, paths: seq<string>, n: nat)
    requires c.kind == Directeur
    requires Roster.DistinctPaths(paths) && |paths| == n > 0
    ensures DialogueTimeline(c, Roster.RunTalks(Roster.Initial(), Roster.Visits(paths, n)).hasTalkedToNpc)
            == Roster.DirectorEndTimeline
  {
    Roster.RosterCompletion(Roster.Initial(), paths, n);
  }
}
