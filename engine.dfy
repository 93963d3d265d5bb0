/** The two engine nodes: `Global`, which owns the fear controller and the
    NPC completion tracker, and `GameManager`, which owns the signal ledger
    and writes the end-of-game report. Each state-changing method, and the
    report's loops, are proved against the value-level definitions of the
    Fear, Roster, Ledger and Report modules;
    engine effects come back as results. */
module Engine {
  import opened Wrappers
  import opened Strings
  import Fear
  import Roster
  import Ledger
  import Report

  class Global {
    var currentFear: real
    /** `MaxFear`: nothing in the program writes it after start-up. */
    const maxFear: real
    var lostTriggered: bool
    /** The registered `FearBarUI`, if any. */
    var fearBar: Option<Fear.BarId>
    /** `_talkedNpcs`: the node paths of the NPCs talked to. */
    var talkedNpcs: set<string>
    var canLaunchEnd: bool
    /** The static `HasTalkedToNpc` flag; there is one `Global` per session. */
    var hasTalkedToNpc: bool

    /** The fear controller's state. */
    function FearState(): Fear.FearState
      reads this
    {
      Fear.FearState(currentFear, maxFear, lostTriggered, fearBar)
    }

    /** The completion tracker's state. */
    function TalkState(): Roster.TalkState
      reads this
    {
      Roster.TalkState(talkedNpcs, canLaunchEnd, hasTalkedToNpc)
    }

    ghost predicate Valid()
      reads this
    {
      FearState().Valid() && maxFear == Fear.MaxFear
    }

    constructor()
      ensures Valid()
      ensures FearState() == Fear.Initial() && TalkState() == Roster.Initial()
    {
      currentFear := Fear.InitialFear;
      maxFear := Fear.MaxFear;
      lostTriggered := false;
      fearBar := None;
      talkedNpcs := {};
      canLaunchEnd := false;
      hasTalkedToNpc := false;
    }

    /** `UpdateFearBar`: the push to the registered bar, if there is one. */
    method UpdateFearBar() returns (push: Option<Fear.BarUpdate>)
      ensures push.Some? <==> fearBar.Some?
      ensures push.Some? ==> push.value == Fear.BarUpdate(fearBar.value, currentFear, maxFear)
    {
      if fearBar.Some? {
        push := Some(Fear.BarUpdate(fearBar.value, currentFear, maxFear));
      } else {
        push := None;
      }
    }

    /** `SetFear(fear)`: clamp, push, and ask once for the loss screen. */
    method SetFear(fear: real) returns (push: Option<Fear.BarUpdate>, scene: Option<string>)
      requires Valid()
      modifies this
      ensures Valid()
      ensures var step := Fear.SetFear(old(FearState()), fear);
        FearState() == step.next && push == step.push && scene == step.scene
      ensures TalkState() == old(TalkState())
    {
      currentFear := Fear.Clamp(fear, 0.0, maxFear);
      push := UpdateFearBar();
      scene := None;
      if !lostTriggered && currentFear >= maxFear {
        lostTriggered := true;
        scene := Some(Fear.LossScene);
      }
    }

    /** `AddFear(amount)`. */
    method AddFear(amount: real) returns (push: Option<Fear.BarUpdate>, scene: Option<string>)
      requires Valid()
      modifies this
      ensures Valid()
      ensures var step := Fear.AddFear(old(FearState()), amount);
        FearState() == step.next && push == step.push && scene == step.scene
      ensures TalkState() == old(TalkState())
    {
      push, scene := SetFear(currentFear + amount);
    }

    /** `RegisterFearBarUI(bar)`: the slot takes `bar`, which is told the
        current values at once. */
    method RegisterFearBarUI(bar: Option<Fear.BarId>) returns (push: Option<Fear.BarUpdate>)
      requires Valid()
      modifies this
      ensures Valid()
      ensures var step := Fear.RegisterBar(old(FearState()), bar);
        FearState() == step.next && push == step.push
      ensures TalkState() == old(TalkState())
    {
      fearBar := bar;
      push := UpdateFearBar();
    }

    /** `RegisterNpcTalk(npc)`, `total` being the size of the "npc" group at
        the time of the call. */
    method RegisterNpcTalk(npc: Option<Roster.NpcNode>, total: nat) returns (outcome: Roster.TalkOutcome)
      modifies this
      ensures (TalkState(), outcome) == Roster.RegisterTalk(old(TalkState()), npc, total)
      ensures FearState() == old(FearState())
    {
      if npc.None? {
        return Roster.NullNode;
      }
      if !npc.value.inNpcGroup {
        return Roster.NotAnNpc;
      }
      var key := npc.value.path;
      if key in talkedNpcs {
        return Roster.AlreadyTalked;
      }
      talkedNpcs := talkedNpcs + {key};
      var allMet := total > 0 && |talkedNpcs| >= total;
      if allMet {
        canLaunchEnd := true;
        hasTalkedToNpc := true;
      }
      outcome := Roster.Recorded(|talkedNpcs|, total, allMet);
    }

    /** `Global.GenerateEndGameReport()`: the game manager's report, or a
        fixed sentence when there is no game manager. */
    method GenerateEndGameReport(manager: GameManager?, fmt: real -> string) returns (r: string)
      requires manager != null ==> manager.Valid()
      ensures manager == null ==> r == Report.NoReport
      ensures manager != null ==>
                r == Report.ReportText(manager.signals, manager.catalog,
                                       Some(Report.FearReading(currentFear, maxFear)), fmt)
    {
      if manager != null {
        r := manager.GenerateEndGameReport(this, fmt);
      } else {
        r := Report.NoReport;
      }
    }
  }

  class GameManager {
    /** `_definitionsRapport`: report text by signal key. */
    const catalog: map<string, string>
    /** `_signauxRecus`: the catalog keys received, in arrival order. */
    var signals: seq<string>

    ghost predicate Valid()
      reads this
    {
      && Ledger.IsCatalog(catalog)
      && Ledger.NoDuplicates(signals)
      && forall k :: k in signals ==> k in catalog
    }

    constructor(catalog: map<string, string>)
      requires Ledger.IsCatalog(catalog)
      ensures Valid()
      ensures this.catalog == catalog && signals == []
    {
      this.catalog := catalog;
      signals := [];
    }

    /** `OnDialogicSignal(argument)`, `None` standing for a null argument.
        Returns what happened and the scene asked for, if any. */
    method OnDialogicSignal(argument: Option<string>) returns (outcome: Ledger.SignalOutcome, scene: Option<string>)
      requires Valid()
      modifies this
      ensures Valid()
      ensures (signals, outcome) == Ledger.Record(old(signals), catalog, argument)
      ensures scene.Some? <==> outcome == Ledger.EndReportRequested
      ensures scene.Some? ==> scene.value == Ledger.EndScene
    {
      var key := Ledger.Normalize(argument);
      scene := None;
      if key in catalog {
        if key !in signals {
          signals := signals + [key];
          outcome := Ledger.Stored(key);
        } else {
          outcome := Ledger.AlreadyStored(key);
        }
      } else if key == Ledger.EndReportKey {
        scene := Some(Ledger.EndScene);
        outcome := Ledger.EndReportRequested;
      } else {
        outcome := Ledger.Unknown(key);
      }
    }

    /** `GameManager.GenerateEndGameReport()`: the fear line is read from
        `global` when there is one. */
    method GenerateEndGameReport(global: Global?, fmt: real -> string) returns (r: string)
      requires Valid()
      ensures r == Report.ReportText(signals, catalog,
                                     if global == null then None else Some(Report.FearReading(global.currentFear, global.maxFear)),
                                     fmt)
    {
      assert "" !in catalog by {
        assert "" !in Ledger.CatalogKeys;
      }
      var fear := if global == null then None else Some(Report.FearReading(global.currentFear, global.maxFear));
      var positives, negatives := CountSignals();
      r := Report.Line(Report.Title) + Report.Line(Report.Summary(|signals|, positives, negatives));
      if global != null {
        r := r + Report.Line(Report.FearLine(Report.FearReading(global.currentFear, global.maxFear), fmt));
      }
      assert r == Report.Preamble(signals, fear, fmt);

      var names, groups := GroupBySpeaker();
      if |names| == 0 {
        r := r + Report.Line(Report.NoData);
      } else {
        var sorted := SortAscending(names);
        assert sorted == Report.SpeakerOrder(signals, catalog);
        var details := WriteSections(sorted, groups);
        r := r + (Report.Line(Report.DetailsHeader) + details
                  + Report.Line(Report.ClosingThanks) + Report.Line(Report.ClosingMoral));
      }
    }

    /** The speaker sections, in the given order, from the grouped entries. */
    method WriteSections(sorted: seq<string>, groups: map<string, seq<(string, string)>>) returns (r: string)
      requires forall i :: 0 <= i < |sorted| ==> sorted[i] != [] && sorted[i] in groups
      requires forall name :: name in groups ==> groups[name] == Report.Entries(signals, catalog, name)
      ensures r == Report.Sections(sorted, signals, catalog)
    {
      r := "";
      var j := 0;
      while j < |sorted|
        invariant 0 <= j <= |sorted|
        invariant r == Report.Sections(sorted[..j], signals, catalog)
      {
        var section := WriteSection(sorted[j], groups[sorted[j]]);
        r := r + section;
        j := j + 1;
        assert sorted[..j][..j - 1] == sorted[..j - 1];
      }
      assert sorted[..j] == sorted;
    }

    /** One speaker's block: the capitalised header, the entries, the
        separator. */
    static method WriteSection(name: string, entries: seq<(string, string)>) returns (section: string)
      requires name != []
      ensures section == Report.Section(name, entries)
    {
      var items := WriteItems(entries);
      section := Report.SectionHeader(name) + items + Report.Line(Report.SectionEnd);
    }

    /** One labelled line per entry, in order. */
    static method WriteItems(entries: seq<(string, string)>) returns (items: string)
      ensures items == Report.Items(entries)
    {
      items := "";
      var k := 0;
      while k < |entries|
        invariant 0 <= k <= |entries|
        invariant items == Report.Items(entries[..k])
      {
        items := items + Report.Item(entries[k]);
        k := k + 1;
        assert entries[..k][..k - 1] == entries[..k - 1];
      }
      assert entries[..k] == entries;
    }

    /** The summary's positive and negative counts. */
    method CountSignals() returns (positives: nat, negatives: nat)
      ensures positives == Report.CountPositive(signals)
      ensures negatives == Report.CountNegative(signals)
    {
      positives, negatives := 0, 0;
      var i := 0;
      while i < |signals|
        invariant 0 <= i <= |signals|
        invariant positives == Report.CountPositive(signals[..i])
        invariant negatives == Report.CountNegative(signals[..i])
      {
        var s := signals[i];
        if Report.IsPositive(s) {
          positives := positives + 1;
        }
        if Report.IsNegative(s) {
          negatives := negatives + 1;
        }
        i := i + 1;
        assert signals[..i][..i - 1] == signals[..i - 1];
      }
      assert signals[..i] == signals;
    }

    /** The `parInterlocuteur` dictionary: the speakers in the order they
        were first added, and each speaker's entries in ledger order. */
    method GroupBySpeaker() returns (names: seq<string>, groups: map<string, seq<(string, string)>>)
      ensures names == Report.Speakers(signals, catalog)
      ensures forall name :: name in groups <==> name in names
      ensures forall name :: name in groups ==> groups[name] == Report.Entries(signals, catalog, name)
    {
      names, groups := [], map[];
      var i := 0;
      while i < |signals|
        invariant 0 <= i <= |signals|
        invariant names == Report.Speakers(signals[..i], catalog)
        invariant forall name :: name in groups <==> name in names
        invariant forall name :: name in groups ==> groups[name] == Report.Entries(signals[..i], catalog, name)
      {
        var signal := signals[i];
        var prefix := signals[..i];
        assert signals[..i + 1] == prefix + [signal];
        Report.GroupingSnoc(prefix, signal, catalog);
        if signal in catalog {
          var name := Report.SpeakerOf(signal);
          var filed := [];
          if name in groups {
            filed := groups[name];
          } else {
            Report.NoEntriesWithoutSpeaker(prefix, catalog, name);
            names := names + [name];
          }
          assert filed == Report.Entries(prefix, catalog, name);
          var before := groups;
          groups := groups[name := filed + [(signal, catalog[signal])]];
          forall n | n in groups
            ensures groups[n] == Report.Entries(prefix + [signal], catalog, n)
          {
            if n != name {
              assert groups[n] == before[n];
            }
          }
        }
        i := i + 1;
      }
      assert signals[..i] == signals;
    }

    /** `_UnhandledInput` reduced to its decision: the N key starts the
        director's closing timeline only when the ending is unlocked,
        Dialogic is loaded and no timeline is running. */
    method EndKeyPressed(global: Global?, dialogicLoaded: bool, timelineRunning: bool) returns (start: Option<string>)
      ensures start.Some? <==> global != null && global.canLaunchEnd && dialogicLoaded && !timelineRunning
      ensures start.Some? ==> start.value == Roster.DirectorEndTimeline
    {
      start := None;
      if global != null && global.canLaunchEnd {
        if dialogicLoaded && !timelineRunning {
          start := Some(Roster.DirectorEndTimeline);
        }
      }
    }
  }
}
