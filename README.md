# Call of Audit: narrative state engine in Dafny

This project models the narrative state engine of the game *Call of Audit*. The engine lives in the two nodes of `Global.cs`, and one pure rule comes from `Npc.cs`.

- **Fear controller** (`Global.SetFear`, `AddFear`, `RegisterFearBarUI`).
  - Keeps the player's fear in `[0, MaxFear]` for every finite input (a NaN is outside the model; see "## Left out").
  - Pushes every new value to the one registered fear bar.
  - Asks once, through a one-way latch, for the loss screen when fear reaches the maximum.
- **NPC completion tracker** (`Global.RegisterNpcTalk`).
  - Records the node paths of the NPCs the player has talked to.
  - Sets the one-way flags `CanLaunchEnd` and `HasTalkedToNpc` once the number of distinct NPCs talked to reaches the current size of the "npc" group, checked only when a new NPC is recorded.
- **Signal ledger** (`GameManager.OnDialogicSignal`).
  - Normalises dialogue signals by trimming and lower-casing them.
  - Stores each key of the fixed report catalog once, in arrival order.
  - Turns the control key `show_end_report` into a request for the end screen.
  - Drops everything else.
- **Report** (`GameManager.GenerateEndGameReport` and `Global.GenerateEndGameReport`).
  - Prints the title and a summary of counts.
  - Prints the final fear when the `Global` node exists.
  - Lists the entries grouped by speaker, sorted by speaker name, then the closing sentences.
  - Prints a fixed sentence instead when nothing can be reported.
- **Timeline choice** (`Npc.GetDialogueTimeline`, `NpcType`).
  - The director plays the closing timeline once `CanLaunchEnd` is set, that is once the number of distinct NPCs talked to has reached the size of the "npc" group.
  - Otherwise the inspector override wins.
  - Otherwise the NPC's type decides.

The files are organised as follows:

- **Value-level definitions.** Each concern has one module of functions that define its behaviour, with lemmas about them:
  - `Fear` (`fear.dfy`);
  - `Roster` (`roster.dfy`);
  - `Ledger` (`ledger.dfy`);
  - `Report` (`report.dfy`);
  - `NpcDialogue` (`npc.dfy`).
- **The two nodes.** `Engine` (`engine.dfy`) models `Global` and `GameManager` as classes.
  - Their fields are updated in place by methods.
  - Each state-changing method is proved equal to the matching value-level function applied to the old state.
  - The report is built with the source's loops: counting, grouping into a dictionary, then writing the sorted sections.
- **Library behaviour.** `Strings` (`strings.dfy`) holds the .NET string behaviour the engine relies on: `Trim`, `ToLowerInvariant`, `Contains`, `IndexOf`, decimal formatting of counts, and ordinal order. `Wrappers` (`wrappers.dfy`) holds `Option`.

Engine effects are returned as values, not performed:

- the scene change is an `Option<string>` holding the scene path;
- the fear bar update is an `Option<BarUpdate>`;
- the timeline to start is an `Option<string>`.

Facts read from the scene tree are parameters:

- the size of the "npc" group;
- whether a node is in that group;
- whether Dialogic is loaded and a timeline is running.

A null argument or node is `None`.

## Model

| member | source | states |
|---|---|---|
| Fear.Initial | Call_Of_Audit/scripts/Global.cs:49-53 | The controller starts valid, with the latch open and no bar registered. |
| Fear.Clamp | Call_Of_Audit/scripts/Global.cs:95 | `Mathf.Clamp`: the result lies in the bounds; a value below the lower bound gives the lower bound, one above the upper bound gives the upper bound, and one inside is kept. |
| Fear.Push | Call_Of_Audit/scripts/Global.cs:111-117 | `UpdateFearBar` as a value: a push happens iff a bar is registered, and it carries that bar, the current value and the maximum. |
| Fear.SetFear | Call_Of_Audit/scripts/Global.cs:93-104 | The new value is within `[0, max]` and equals the clamped input. The bar is pushed the new value. The latch is set iff it was set or the value reached the maximum. The loss scene is asked for exactly on the call that sets the latch. |
| Fear.AddFear | Call_Of_Audit/scripts/Global.cs:106-109 | `SetFear(CurrentFear + amount)`: the new state is valid and holds the clamped sum; from a valid state a non-positive amount never asks for the loss screen. |
| Fear.RegisterBar | Call_Of_Audit/scripts/Global.cs:122-126 | The slot takes the new bar, which is told the current values at once; no scene change. |
| Fear.AddFearMonotone | Call_Of_Audit/scripts/Global.cs:106-109 | Adding a non-positive amount never raises fear, and adding a non-negative one never lowers it. |
| Fear.LastRegistrationWins | Call_Of_Audit/scripts/Global.cs:111-126 | After two registrations only the second bar is told later values: one slot, not a list. |
| Fear.Apply | Call_Of_Audit/scripts/Global.cs:93-126 | The call-sequence harness: dispatches one of the three public fear calls; its own contract only says the maximum is kept. |
| Fear.Run | Call_Of_Audit/scripts/Global.cs:93-126 | The call-sequence harness: folds a series of fear calls and counts the loss-screen requests; its own contract only says the maximum is kept, and `Fear.LossScreenAtMostOnce` states what matters about it. |
| Fear.LossScreenAtMostOnce | Call_Of_Audit/scripts/Global.cs:93-104 | Over any series of calls the value stays in bounds and the loss screen is asked for at most once, never after the latch is set. The latch is set at the end iff it was set before or the screen was asked for. |
| Fear.SaturatingTwice | Call_Of_Audit/scripts/Global.cs:99-103 | Saturating a fresh controller asks for the loss screen; saturating it again does not. |
| Roster.Initial | Call_Of_Audit/scripts/Global.cs:25-66 | The tracker starts with no NPC recorded and both flags false. |
| Roster.RegisterTalk | Call_Of_Audit/scripts/Global.cs:132-162 | A null node, a node outside the "npc" group, and an already recorded path each leave the state unchanged. Otherwise the set grows by exactly that path, and the progress count is the new size. Both flags become true iff they were true or the insertion makes `total > 0 && count >= total`. |
| Roster.LatchesNeverReset | Call_Of_Audit/scripts/Global.cs:146-161 | Over any series of talks the set only grows, neither flag is ever reset, and the two flags stay equal when they start equal. |
| Roster.VisitsGrowTalked | Call_Of_Audit/scripts/Global.cs:140-143 | Visiting distinct, not yet met NPCs adds exactly their paths to the set. |
| Roster.RosterCompletion | Call_Of_Audit/scripts/Global.cs:146-161 | With a roster of `n > 0` NPCs, talking to `n` distinct NPCs not yet met sets both flags, from any state of the tracker. |
| Roster.RunTalksSplit | Call_Of_Audit/scripts/Global.cs:132-162 | Running talks then one more is the same as registering that last talk on the intermediate state. |
| Ledger.Normalize | Call_Of_Audit/scripts/Global.cs:201-202 | A null argument counts as empty; the key is trimmed and lower-cased, so it has no white space at either end and no upper-case letter. |
| Ledger.Record | Call_Of_Audit/scripts/Global.cs:197-223 | A catalog key not yet stored is appended at the end; a stored one changes nothing. A non-catalog key never changes the ledger. The outcome is "end report" iff the key is `show_end_report` and not in the catalog, and "unknown" for every other key. The ledger stays duplicate-free and inside the catalog. |
| Ledger.NormalizeIdempotent | Call_Of_Audit/scripts/Global.cs:201-202 | Normalising a normalised key changes nothing. |
| Ledger.NormalizeIgnoresCaseAndPadding | Call_Of_Audit/scripts/Global.cs:199-202 | Signals that differ only in letter case, or in white space around them, normalise to the same key. |
| Ledger.RecordTwice | Call_Of_Audit/scripts/Global.cs:206-213 | The same catalog signal twice is stored once and then reported as already stored. |
| Ledger.RecordAllContents | Call_Of_Audit/scripts/Global.cs:197-223 | After any series of signals the old ledger is a prefix of the new one, and the ledger is duplicate-free. It holds exactly the old keys plus the catalog keys some signal normalised to. |
| Ledger.NormalKey | Call_Of_Audit/scripts/Global.cs:201-202 | A key without outer white space or upper-case letters is its own normalisation. |
| Ledger.KeysAreNormal | Call_Of_Audit/scripts/Global.cs:197-223 | Every catalog key, and the control key, is already in normal form. |
| Ledger.EndToEndScenario | Call_Of_Audit/scripts/Global.cs:197-223 | A padded upper-case `AYADI_COOL`, then `bryan_mauvais`, then `show_end_report` give the ledger `[ayadi_cool, bryan_mauvais]`, and the last one asks for the end screen. |
| Ledger.UnknownDropped | Call_Of_Audit/scripts/Global.cs:219-222 | A key outside the catalog leaves the ledger as it was and is reported unknown. |
| Report.IsPositive | Call_Of_Audit/scripts/Global.cs:330 | A key counts as positive when it contains `_cool`, `_witcher` or `_sda`; `Report.CatalogSentiments` states which catalog keys do. |
| Report.IsNegative | Call_Of_Audit/scripts/Global.cs:331 | A key counts as negative when it contains `_mauvais`; `Report.CatalogSentiments` states which catalog keys do. |
| Report.Sentiment | Call_Of_Audit/scripts/Global.cs:367-369 | The entry label is one of "Positif", "Négatif" and "Neutre"; "Positif" only for a positive key and "Négatif" only for a negative one. |
| Report.CountPositive | Call_Of_Audit/scripts/Global.cs:330 | The positive count never exceeds the ledger length. |
| Report.CountNegative | Call_Of_Audit/scripts/Global.cs:331 | The negative count never exceeds the ledger length. |
| Report.SentimentAgainstCounts | Call_Of_Audit/scripts/Global.cs:329-369 | The "Positif" label implies a positive count, and "Négatif" implies a negative count without `_cool`. A key counted positive but not labelled "Positif" contains `_sda`. |
| Report.SdaCountedPositiveLabelledNeutral | Call_Of_Audit/scripts/Global.cs:330-369 | `lebot_sda` is counted positive, not negative, and labelled "Neutre". |
| Report.CatalogKeyClassified | Call_Of_Audit/scripts/Global.cs:226-331 | Every catalog key is exactly one of positive and negative. |
| Report.CatalogSentiments | Call_Of_Audit/scripts/Global.cs:226-331 | A catalog key is negative iff it is one of the four `_mauvais` keys, and positive iff it is one of the other seven (including `lebot_witcher` and `lebot_sda`). |
| Report.CatalogCountsAddUp | Call_Of_Audit/scripts/Global.cs:329-331 | For a ledger of catalog keys, positives plus negatives equal the total. |
| Report.TwoSpeakerExample | Call_Of_Audit/scripts/Global.cs:329-333 | The ledger `ayadi_cool`, `bryan_mauvais` counts one positive and one negative signal. |
| Report.ExampleCounts | Call_Of_Audit/scripts/Global.cs:329-331 | Any `<a>_cool` key followed by a `<b>_mauvais` key counts one positive and one negative signal. |
| Report.SpeakerOf | Call_Of_Audit/scripts/Global.cs:345-348 | The group name is a prefix of the key. It stops just before the first `_` when that index is above 0. It is the whole key when there is no `_` or the key starts with one. |
| Report.Speakers | Call_Of_Audit/scripts/Global.cs:341-352 | The dictionary's groups: duplicate-free, and holding a name iff some catalog key of the ledger is filed under it. |
| Report.Entries | Call_Of_Audit/scripts/Global.cs:341-352 | A group's entries are exactly the catalog keys of the ledger filed under that name, each with its catalog text. |
| Report.EntriesInArrivalOrder | Call_Of_Audit/scripts/Global.cs:343-350 | Within a group, an earlier entry's signal arrived earlier in the ledger. |
| Report.SpeakerListedIffEntries | Call_Of_Audit/scripts/Global.cs:349-350 | A group exists exactly when it has at least one entry. |
| Report.Line | Call_Of_Audit/scripts/Global.cs:327 | `AppendLine`: the text, unchanged, followed by one line end. |
| Report.Preamble | Call_Of_Audit/scripts/Global.cs:326-338 | The title and summary lines always come first. Without a `Global` node that is all; with one, the preamble ends with the fear line. |
| Report.Summary | Call_Of_Audit/scripts/Global.cs:333 | The summary block: total, positive and negative counts in decimal, in the source's wording and line breaks. |
| Report.FearLine | Call_Of_Audit/scripts/Global.cs:335-338 | The final fear line, the two values printed through the number format `fmt`. |
| Report.Item | Call_Of_Audit/scripts/Global.cs:365-370 | One entry: its label in italics, then its catalog text, followed by an empty line. |
| Report.Items | Call_Of_Audit/scripts/Global.cs:365-371 | The item loop's text; `Report.ItemsAppend` states that the items of two lists of entries are those of the first followed by those of the second. |
| Report.ItemsAppend | Call_Of_Audit/scripts/Global.cs:365-371 | Writing the items of `a + b` is writing those of `a`, then those of `b`: entries are written one after another, in order. |
| Report.SectionHeader | Call_Of_Audit/scripts/Global.cs:364 | The header is `[b]`, the speaker name with its first character upper-cased and the rest unchanged, then `[/b]` and a line end. |
| Report.Section | Call_Of_Audit/scripts/Global.cs:362-373 | One speaker's block: the capitalised header, the entries in order, the `---` separator. |
| Report.Capitalize | Call_Of_Audit/scripts/Global.cs:364 | The header keeps the name's length and tail and upper-cases its first letter. |
| Report.ReportText | Call_Of_Audit/scripts/Global.cs:324-380 | The report as a value: it starts with the title, summary and (when `Global` exists) fear line; with no group it ends right after the "no data" sentence; otherwise it ends with the closing sentence. |
| Report.SpeakerOrder | Call_Of_Audit/scripts/Global.cs:361 | The sections are in strictly ascending name order, one per group, and every name is non-empty. |
| Report.NoDataExactlyWhenNothingToReport | Call_Of_Audit/scripts/Global.cs:354-358 | There are no groups iff no ledger key is in the catalog. The report is then the preamble and the "no data" sentence, with no details header, no sections and no closing. |
| Report.Sections | Call_Of_Audit/scripts/Global.cs:361-373 | The section loop's text over a list of names; `Report.SectionsAppend` states that it is written name by name, in order. |
| Report.SectionsAppend | Call_Of_Audit/scripts/Global.cs:361-373 | Writing the sections of `a + b` is writing those of `a`, then those of `b`. |
| Report.SpeakerOrderIgnoresArrival | Call_Of_Audit/scripts/Global.cs:361 | Ledgers with the same keys give the same section order, whatever the arrival order. |
| Report.TwoSpeakerOrder | Call_Of_Audit/scripts/Global.cs:341-361 | Two catalog keys of different speakers give the two sections in ascending order of speaker name, whichever arrived first. |
| Report.TwoSpeakers | Call_Of_Audit/scripts/Global.cs:341-352 | Two catalog keys of different speakers make two groups, in arrival order. |
| Report.SpeakerOfKey | Call_Of_Audit/scripts/Global.cs:346-348 | A key `<name>_<rest>`, with `name` non-empty and free of `_`, is filed under `name`. |
| Report.GroupingSnoc | Call_Of_Audit/scripts/Global.cs:342-351 | One more signal adds at most one group at the end, and at most one entry at the end of its group. |
| Strings.Trim | Call_Of_Audit/scripts/Global.cs:202 | `String.Trim`: drops white space at both ends; its shape is stated by `Strings.TrimShape`. |
| Strings.TrimShape | Call_Of_Audit/scripts/Global.cs:202 | `Trim` returns the slice between the leading and trailing white space, and its ends are not white space. |
| Strings.TrimIdempotent | Call_Of_Audit/scripts/Global.cs:202 | Trimming twice is trimming once. |
| Strings.TrimPadded | Call_Of_Audit/scripts/Global.cs:202 | Trimming ignores white space added around a string. |
| Strings.TrimLowerCommute | Call_Of_Audit/scripts/Global.cs:202 | Lower-casing and trimming commute. |
| Strings.ToLower | Call_Of_Audit/scripts/Global.cs:202 | Lower-casing keeps the length, leaves no upper-case letter and keeps each letter's lower form. |
| Strings.ToLowerIdempotent | Call_Of_Audit/scripts/Global.cs:202 | Lower-casing twice is lower-casing once. |
| Strings.IndexOf | Call_Of_Audit/scripts/Global.cs:347 | The result is -1 iff the character is absent. Otherwise it is the first position holding that character. |
| Strings.Contains | Call_Of_Audit/scripts/Global.cs:330-331 | Ordinal `String.Contains`: the part occurs at some position of the string. |
| Strings.UpperChar | Call_Of_Audit/scripts/Global.cs:364 | Upper-casing leaves no ASCII lower-case letter, keeps the letter's lower form, and leaves every other character alone. |
| Strings.ContainsEnding | Call_Of_Audit/scripts/Global.cs:330-331 | A string contains every string it ends with. |
| Strings.ContainsNeedsChar | Call_Of_Audit/scripts/Global.cs:330-331 | A string does not contain a part with a character it lacks. |
| Strings.ContainsOnlyAt | Call_Of_Audit/scripts/Global.cs:330-331 | When a part's first character occurs only once in a string, the part occurs at that position or nowhere. |
| Strings.NatToString | Call_Of_Audit/scripts/Global.cs:333 | The decimal text of a count is non-empty, all digits, and has no leading zero. |
| Strings.NatToStringRoundTrip | Call_Of_Audit/scripts/Global.cs:333 | Reading back the decimal text of a count gives the count. |
| Strings.NatToStringInjective | Call_Of_Audit/scripts/Global.cs:333 | Different counts print differently. |
| Strings.SortAscending | Call_Of_Audit/scripts/Global.cs:361 | Sorting is a permutation, and a duplicate-free input comes out strictly ascending. |
| Strings.AscendingUnique | Call_Of_Audit/scripts/Global.cs:361 | Two ascending sequences with the same elements are equal, so the order is unique. |
| Strings.Below | Call_Of_Audit/scripts/Global.cs:361 | Ordinal order: characters compared left to right, a proper prefix first; `Strings.BelowIrreflexive`, `Strings.BelowTransitive` and `Strings.BelowTotal` make it a strict total order. |
| Strings.BelowIrreflexive | Call_Of_Audit/scripts/Global.cs:361 | No string is below itself. |
| Strings.BelowTransitive | Call_Of_Audit/scripts/Global.cs:361 | Ordinal order is transitive. |
| Strings.BelowTotal | Call_Of_Audit/scripts/Global.cs:361 | Any two different strings are ordered one way or the other. |
| Engine.Global.constructor | Call_Of_Audit/scripts/Global.cs:25-66 | The node starts in the initial fear and tracker states. |
| Engine.Global.UpdateFearBar | Call_Of_Audit/scripts/Global.cs:111-117 | A push happens iff a bar is registered, and it carries the current value and the maximum. |
| Engine.Global.SetFear | Call_Of_Audit/scripts/Global.cs:93-104 | The fields become `Fear.SetFear` of the old state, and the push and scene are the ones it returns. The tracker is untouched and the node stays valid. |
| Engine.Global.AddFear | Call_Of_Audit/scripts/Global.cs:106-109 | The fields become `Fear.AddFear` of the old state, which is `SetFear(CurrentFear + amount)`. |
| Engine.Global.RegisterFearBarUI | Call_Of_Audit/scripts/Global.cs:122-126 | The fields become `Fear.RegisterBar` of the old state, and the new bar is pushed the current values. |
| Engine.Global.RegisterNpcTalk | Call_Of_Audit/scripts/Global.cs:132-162 | The tracker fields and the outcome are `Roster.RegisterTalk` of the old state. Fear is untouched. |
| Engine.Global.GenerateEndGameReport | Call_Of_Audit/scripts/Global.cs:167-174 | Without a game manager: the fixed "no report" sentence. Otherwise: the manager's report with this node's fear reading. |
| Engine.GameManager.constructor | Call_Of_Audit/scripts/Global.cs:226-321 | The ledger starts empty, over a catalog with exactly the eleven keys. |
| Engine.GameManager.OnDialogicSignal | Call_Of_Audit/scripts/Global.cs:197-223 | The ledger and outcome are `Ledger.Record` of the old ledger. The end scene is asked for exactly on the control key. The ledger stays duplicate-free and inside the catalog. |
| Engine.GameManager.CountSignals | Call_Of_Audit/scripts/Global.cs:329-331 | The loop's counts equal the positive and negative counts of the ledger. |
| Engine.GameManager.GroupBySpeaker | Call_Of_Audit/scripts/Global.cs:341-352 | The dictionary loop produces exactly the groups of the ledger, in first-arrival order, each holding its entries in ledger order. |
| Engine.GameManager.WriteItems | Call_Of_Audit/scripts/Global.cs:365-371 | The item loop writes one labelled line per entry, in order. |
| Engine.GameManager.WriteSection | Call_Of_Audit/scripts/Global.cs:363-372 | A section is the capitalised header, the entries and the separator. |
| Engine.GameManager.WriteSections | Call_Of_Audit/scripts/Global.cs:361-373 | The section loop writes every group's section in the given order. |
| Engine.GameManager.GenerateEndGameReport | Call_Of_Audit/scripts/Global.cs:324-380 | The text built by the loops equals `Report.ReportText` of the ledger, the catalog and the fear reading of `global`, if there is one. |
| Engine.GameManager.EndKeyPressed | Call_Of_Audit/scripts/Global.cs:382-408 | The N key starts `timeline_director_end` iff the `Global` node exists with `CanLaunchEnd` set, Dialogic is loaded and no timeline is running. |
| NpcDialogue.DialogueTimeline | Call_Of_Audit/scripts/Npc.cs:217-240 | The timeline is the director's closing one, the override, or one of the two per-type timelines. |
| NpcDialogue.DirectorEndWins | Call_Of_Audit/scripts/Npc.cs:221-224 | A director with the flag set plays `timeline_director_end`, whatever the override; no other type reads the flag. |
| NpcDialogue.OverrideWins | Call_Of_Audit/scripts/Npc.cs:227-228 | Outside that case, a non-empty override is played verbatim, and a null or empty one falls through to the type. |
| NpcDialogue.TypeMapping | Call_Of_Audit/scripts/Npc.cs:230-238 | With no override, `Rmouque` plays its own timeline. `Ayadi`, `Lebot`, `Roy`, `Directeur` and `Haristoy` all play `AyadiTimeline`. |
| NpcDialogue.DefaultsNeverEmpty | Call_Of_Audit/scripts/Npc.cs:65-66 | With the inspector's default timelines and no override, every NPC gets a non-empty timeline. |
| NpcDialogue.DirectorEndsAfterRoster | Call_Of_Audit/scripts/Npc.cs:221-224 | Once the player has talked to all `n > 0` NPCs, the director plays the closing timeline. |

## Left out

- Engine calls with an effect are returned as values rather than performed: `ChangeSceneToFile` (the scene path), Dialogic's `Call("start", …)` (the timeline to start) and `FearBarUI.UpdateValue` (the bar update). The Dialogic look-up `GetNodeOrNull("/root/Dialogic")` and `Get("current_timeline")` in `_UnhandledInput` are the boolean inputs `dialogicLoaded` and `timelineRunning`. `_Ready` and `_EnterTree` are not modelled: singleton registration, creating the `GameManager` with `AddChild`, and `GetNode` with `Connect` to subscribe to Dialogic's `signal_event`. The `GD.Print` logging is not modelled.
- The group size `GetNodesInGroup("npc").Count` and the `IsInGroup("npc")` test are inputs (`total` and `inNpcGroup`). A node is known only by its path.
- Engine.GameManager.EndKeyPressed: models only the decision of `_UnhandledInput`. The key event is reduced to "N was pressed", and Dialogic's state is reduced to two booleans.
- Fear.SetFear: fear is a real number, so single-precision rounding of `CurrentFear + amount` is not modelled, and neither is NaN. `Mathf.Clamp` passes a NaN through, so the source then holds a `CurrentFear` outside `[0, MaxFear]`, pushes NaN to the bar, and never asks for the loss screen again, since `NaN >= MaxFear` is false and every later `AddFear` keeps NaN. The bounds proved by `Fear.SetFear`, `Engine.Global.SetFear` and `Fear.LossScreenAtMostOnce` hold for finite inputs only.
- Engine.Global: `MaxFear` is a public field in the source but nothing writes it, so the model keeps it constant.
- Engine.Global: the static `HasTalkedToNpc` and `DirectorEndTimeline` are a field and a constant of the single `Global` object. The static `SpawnPointToUse`, `MasterVolume` and the cooperation gauge are outside the engine modelled here.
- Report.FearLine: the `{x:0}` number format is a parameter `fmt`, not a model of .NET formatting.
- Report.SpeakerOrder: the model sorts in ordinal order, while `OrderBy(k => k.Key)` uses the culture-aware default string comparer. The two agree on the lower-case ASCII speaker names of the catalog.
- Strings.ToLower: lower-cases ASCII letters only. `ToLowerInvariant` on other letters is not modelled.
- Report.Capitalize / Strings.UpperChar: upper-case ASCII letters only. `char.ToUpper` uses the current culture, so the culture's own mappings (a Turkish culture turning `i` into `İ`, say) and non-ASCII letters are not modelled.
- Strings.IsWhiteSpace: the set of white-space characters is written out; no other Unicode property is modelled.
- Report.Line: `AppendLine` ends lines with "\n" rather than the platform's line end.
- The French report texts of the catalog are opaque. A catalog is any map whose keys are exactly the eleven keys.
- NpcDialogue.DialogueTimeline: the switch's default branch (an `NpcType` value outside the six names) cannot occur with a Dafny datatype. A null `RmouqueTimeline` or `AyadiTimeline` is not modelled.
- NPC movement, animation, random walks and stuck detection in `Npc.cs` are not modelled. Nor are the menus, the screens and the fear bar widget.
