/** The end-of-session report of `GameManager.GenerateEndGameReport`, as a
    function of the ledger, the catalog and the fear reading: a title, the
    counts, the final fear (when the `Global` node exists), then the entries
    grouped by speaker in ascending order of speaker name, or a fixed
    sentence when no entry is in the catalog. `AppendLine` is `Line`. */
module Report {
  import opened Wrappers
  import opened Strings
  import opened Ledger

  const Title: string := "[center][b]RAPPORT D'INTERACTIONS[/b][/center]\n"
  const NoData: string := "Aucune donnée disponible. Le candidat est resté muet."
  const DetailsHeader: string := "[b]Détails par interlocuteur :[/b]\n"
  const SectionEnd: string := "---\n"
  const ClosingThanks: string := "\nMerci d'avoir joué à notre jeu! Notre but était de faire comprendre l'importance de bonnes relations humaines pour le bon déroulement d'un audit."
  const ClosingMoral: string := "Si vous ne deviez retenir qu'une seule phrase, ce serait: Mettre en confiance les audités pour obtenir des informations fiables  et aider l'organisme audité est primordial."

  /** The text `Global.GenerateEndGameReport` gives when there is no
      `GameManager`. */
  const NoReport: string := "Aucun rapport disponible (GameManager non initialisé)."

  /** `StringBuilder.AppendLine(s)`, with "\n" as the line end. */
  function Line(s: string): (r: string)
    ensures |r| == |s| + 1 && r[..|s|] == s && r[|s|] == '\n'
  {
    s + "\n"
  }

  // ---- Classification and counts ----

  /** Counted as a positive interaction in the summary. */
  predicate IsPositive(key: string) {
    Contains(key, "_cool") || Contains(key, "_witcher") || Contains(key, "_sda")
  }

  /** Counted as a negative interaction in the summary. */
  predicate IsNegative(key: string) {
    Contains(key, "_mauvais")
  }

  /** The label printed in front of an entry. Unlike the summary count, it
      does not treat `_sda` as positive. */
  function Sentiment(key: string): (tag: string)
    ensures tag == "Positif" || tag == "Négatif" || tag == "Neutre"
    ensures tag == "Positif" ==> IsPositive(key)
    ensures tag == "Négatif" ==> IsNegative(key)
  {
    if Contains(key, "_cool") || Contains(key, "_witcher") then "Positif"
    else if Contains(key, "_mauvais") then "Négatif"
    else "Neutre"
  }

  function CountPositive(ledger: seq<string>): (n: nat)
    ensures n <= |ledger|
  {
    if ledger == [] then 0
    else CountPositive(ledger[..|ledger| - 1]) + (if IsPositive(ledger[|ledger| - 1]) then 1 else 0)
  }

  function CountNegative(ledger: seq<string>): (n: nat)
    ensures n <= |ledger|
  {
    if ledger == [] then 0
    else CountNegative(ledger[..|ledger| - 1]) + (if IsNegative(ledger[|ledger| - 1]) then 1 else 0)
  }

  /** The positive label implies the positive count and the negative label
      the negative count; a key counted positive but labelled neutral is one
      that contains `_sda`. */
  lemma SentimentAgainstCounts(key: string)
    ensures Sentiment(key) == "Positif" ==> IsPositive(key)
    ensures Sentiment(key) == "Négatif" ==> IsNegative(key) && !Contains(key, "_cool")
    ensures IsPositive(key) && Sentiment(key) != "Positif" ==> Contains(key, "_sda")
  {
  }

  /** The `_sda` entry is counted positive but labelled neutral. */
  lemma SdaCountedPositiveLabelledNeutral()
    ensures IsPositive("lebot_sda") && !IsNegative("lebot_sda")
    ensures Sentiment("lebot_sda") == "Neutre"
  {
    assert "lebot" + "_sda" == "lebot_sda";
    ContainsEnding("lebot", "_sda");
    ContainsNeedsChar("lebot_sda", "_cool", 'c');
    ContainsNeedsChar("lebot_sda", "_witcher", 'w');
    ContainsNeedsChar("lebot_sda", "_mauvais", 'v');
  }

  // ---- Grouping by speaker ----

  /** The speaker a key is filed under: the text before its first `_` when
      that `_` is not the first character, the whole key otherwise. */
  function SpeakerOf(key: string): (name: string)
    ensures name <= key
    ensures key != [] ==> name != []
    ensures |name| < |key| ==> name != [] && key[|name|] == '_' && '_' !in name
    ensures |name| == |key| ==> '_' !in key || key[0] == '_'
  {
    var idx := IndexOf(key, '_');
    if idx > 0 then key[..idx] else key
  }

  /** The speakers of the ledger's catalog keys, in order of first arrival
      (the order the report's dictionary fills in). */
  function Speakers(ledger: seq<string>, catalog: map<string, string>): (names: seq<string>)
    ensures Distinct(names)
    ensures forall name :: name in names <==>
              exists k :: k in ledger && k in catalog && SpeakerOf(k) == name
  {
    if ledger == [] then []
    else
      var prev := Speakers(ledger[..|ledger| - 1], catalog);
      var key := ledger[|ledger| - 1];
      assert forall k :: k in ledger <==> k in ledger[..|ledger| - 1] || k == key by {
        assert ledger == ledger[..|ledger| - 1] + [key];
      }
      if key in catalog && SpeakerOf(key) !in prev then prev + [SpeakerOf(key)] else prev
  }

  /** The (key, text) entries filed under `name`, in ledger order. */
  function Entries(ledger: seq<string>, catalog: map<string, string>, name: string): (entries: seq<(string, string)>)
    ensures forall e :: e in entries <==>
              e.0 in ledger && e.0 in catalog && SpeakerOf(e.0) == name && e.1 == catalog[e.0]
  {
    if ledger == [] then []
    else
      var prefix := ledger[..|ledger| - 1];
      var key := ledger[|ledger| - 1];
      assert forall k :: k in ledger <==> k in prefix || k == key by {
        assert ledger == prefix + [key];
      }
      Entries(prefix, catalog, name) + if key in catalog && SpeakerOf(key) == name then [(key, catalog[key])] else []
  }

  /** A name that is no speaker has no entries. */
  lemma NoEntriesWithoutSpeaker(ledger: seq<string>, catalog: map<string, string>, name: string)
    requires name !in Speakers(ledger, catalog)
    ensures Entries(ledger, catalog, name) == []
  {
  }

  /** One more signal adds at most one speaker and one entry. */
  lemma GroupingSnoc(ledger: seq<string>, key: string, catalog: map<string, string>)
    ensures Speakers(ledger + [key], catalog)
            == Speakers(ledger, catalog)
               + if key in catalog && SpeakerOf(key) !in Speakers(ledger, catalog) then [SpeakerOf(key)] else []
    ensures forall name :: (Entries(ledger + [key], catalog, name)
              == Entries(ledger, catalog, name)
                 + if key in catalog && SpeakerOf(key) == name then [(key, catalog[key])] else [])
  {
    assert (ledger + [key])[..|ledger|] == ledger;
  }

  /** Signal `a` was recorded at an earlier position of the ledger than `b`. */
  ghost predicate ArrivedBefore(ledger: seq<string>, a: string, b: string) {
    exists p, q :: 0 <= p < q < |ledger| && ledger[p] == a && ledger[q] == b
  }

  /** Within a speaker's block, an earlier entry is one whose signal arrived
      earlier. */
  lemma {:induction false} EntriesInArrivalOrder(ledger: seq<string>, catalog: map<string, string>, name: string)
    ensures forall i, j :: 0 <= i < j < |Entries(ledger, catalog, name)| ==>
              ArrivedBefore(ledger, Entries(ledger, catalog, name)[i].0, Entries(ledger, catalog, name)[j].0)
  {
    if ledger != [] {
      var prefix := ledger[..|ledger| - 1];
      var prev := Entries(prefix, catalog, name);
      var entries := Entries(ledger, catalog, name);
      EntriesInArrivalOrder(prefix, catalog, name);
      assert |entries| <= |prev| + 1;
      assert forall i :: 0 <= i < |prev| ==> entries[i] == prev[i];
      assert |entries| == |prev| + 1 ==> entries[|prev|].0 == ledger[|ledger| - 1];
      forall i, j | 0 <= i < j < |entries|
        ensures ArrivedBefore(ledger, entries[i].0, entries[j].0)
      {
        if j < |prev| {
          assert ArrivedBefore(prefix, prev[i].0, prev[j].0);
          var p, q :| 0 <= p < q < |prefix| && prefix[p] == prev[i].0 && prefix[q] == prev[j].0;
          assert ledger[p] == entries[i].0 && ledger[q] == entries[j].0;
        } else {
          assert prev[i].0 in prefix by {
            assert prev[i] in prev;
          }
          var p :| 0 <= p < |prefix| && prefix[p] == prev[i].0;
          assert ledger[p] == entries[i].0 && ledger[|ledger| - 1] == entries[j].0;
        }
      }
    }
  }

  /** A speaker is listed exactly when it has entries. */
  lemma SpeakerListedIffEntries(ledger: seq<string>, catalog: map<string, string>, name: string)
    ensures name in Speakers(ledger, catalog) <==> Entries(ledger, catalog, name) != []
  {
    var entries := Entries(ledger, catalog, name);
    if name in Speakers(ledger, catalog) {
      var k :| k in ledger && k in catalog && SpeakerOf(k) == name;
      assert (k, catalog[k]) in entries;
    }
    if entries != [] {
      assert entries[0] in entries;
    }
  }

  // ---- Layout ----

  /** `char.ToUpper(npc[0]) + npc.Substring(1)`. */
  function Capitalize(name: string): (r: string)
    requires name != []
    ensures |r| == |name| && r[1..] == name[1..]
    ensures r[0] == UpperChar(name[0])
  {
    [UpperChar(name[0])] + name[1..]
  }

  /** The reading of `Global.Instance.CurrentFear` and `MaxFear`. */
  datatype FearReading = FearReading(current: real, max: real)

  /** The summary block: entries, positives and negatives. */
  function Summary(total: nat, positives: nat, negatives: nat): string {
    "[b]Synthèse :[/b]\n- Interactions enregistrées : " + NatToString(total)
    + "\n- Interactions positives : " + NatToString(positives)
    + "\n- Interactions négatives : " + NatToString(negatives) + "\n"
  }

  /** The final fear line; `fmt` stands for the `{x:0}` number format. */
  function FearLine(fear: FearReading, fmt: real -> string): string {
    "[b]Niveau de peur final :[/b] " + fmt(fear.current) + "/" + fmt(fear.max) + "\n"
  }

  /** Title, summary and, when there is a `Global` node, the fear line. */
  function Preamble(ledger: seq<string>, fear: Option<FearReading>, fmt: real -> string): (r: string)
    ensures Line(Title) + Line(Summary(|ledger|, CountPositive(ledger), CountNegative(ledger))) <= r
    ensures fear.None? ==> r == Line(Title) + Line(Summary(|ledger|, CountPositive(ledger), CountNegative(ledger)))
    ensures fear.Some? ==>
              |r| >= |Line(FearLine(fear.value, fmt))| &&
              r[|r| - |Line(FearLine(fear.value, fmt))|..] == Line(FearLine(fear.value, fmt))
  {
    Line(Title)
    + Line(Summary(|ledger|, CountPositive(ledger), CountNegative(ledger)))
    + (if fear.Some? then Line(FearLine(fear.value, fmt)) else "")
  }

  function Item(entry: (string, string)): string {
    Line("[i]" + Sentiment(entry.0) + "[/i] : " + entry.1 + "\n")
  }

  /** The items of `entries`, in that order. */
  function Items(entries: seq<(string, string)>): string {
    if entries == [] then "" else Items(entries[..|entries| - 1]) + Item(entries[|entries| - 1])
  }

  function SectionHeader(name: string): (r: string)
    requires name != []
    ensures |r| == |name| + 8
    ensures r[..3] == "[b]" && r[3] == UpperChar(name[0]) && r[4..|name| + 3] == name[1..]
    ensures r[|name| + 3..] == "[/b]\n"
  {
    Line("[b]" + Capitalize(name) + "[/b]")
  }

  /** One speaker's block: header, entries, separator. */
  function Section(name: string, entries: seq<(string, string)>): string
    requires name != []
  {
    SectionHeader(name) + Items(entries) + Line(SectionEnd)
  }

  /** The sections of `names`, in that order. */
  function Sections(names: seq<string>, ledger: seq<string>, catalog: map<string, string>): string
    requires forall i :: 0 <= i < |names| ==> names[i] != []
  {
    if names == [] then ""
    else
      var name := names[|names| - 1];
      Sections(names[..|names| - 1], ledger, catalog) + Section(name, Entries(ledger, catalog, name))
  }

  /** The speakers in the order the report lists them. */
  function SpeakerOrder(ledger: seq<string>, catalog: map<string, string>): (names: seq<string>)
    requires "" !in catalog
    ensures Ascending(names)
    ensures forall name :: name in names <==> name in Speakers(ledger, catalog)
    ensures forall i :: 0 <= i < |names| ==> names[i] != []
  {
    var speakers := Speakers(ledger, catalog);
    var names := SortAscending(speakers);
    assert forall name :: name in names <==> name in speakers by {
      forall name ensures name in names <==> name in speakers {
        assert name in names <==> name in multiset(names);
        assert name in speakers <==> name in multiset(speakers);
      }
    }
    assert forall i :: 0 <= i < |names| ==> names[i] != [] by {
      forall i | 0 <= i < |names| ensures names[i] != [] {
        assert names[i] in speakers;
        var k :| k in ledger && k in catalog && SpeakerOf(k) == names[i];
        assert k != [];
      }
    }
    names
  }

  /** `GameManager.GenerateEndGameReport()` as a value. */
  function ReportText(ledger: seq<string>, catalog: map<string, string>, fear: Option<FearReading>, fmt: real -> string): (r: string)
    requires "" !in catalog
    ensures Preamble(ledger, fear, fmt) <= r
    ensures Speakers(ledger, catalog) == [] ==> r == Preamble(ledger, fear, fmt) + Line(NoData)
    ensures Speakers(ledger, catalog) != [] ==>
              |r| >= |Line(ClosingMoral)| && r[|r| - |Line(ClosingMoral)|..] == Line(ClosingMoral)
  {
    Preamble(ledger, fear, fmt)
    + if Speakers(ledger, catalog) == [] then Line(NoData)
      else Line(DetailsHeader) + Sections(SpeakerOrder(ledger, catalog), ledger, catalog)
           + Line(ClosingThanks) + Line(ClosingMoral)
  }

  // ---- Properties of the report ----

  /** The "no data" case happens exactly when no ledger key is in the
      catalog; the report then stops after the sentence, with no details
      header, no sections and no closing. */
  lemma NoDataExactlyWhenNothingToReport(ledger: seq<string>, catalog: map<string, string>, fear: Option<FearReading>, fmt: real -> string)
    requires "" !in catalog
    ensures Speakers(ledger, catalog) == [] <==> forall k :: k in ledger ==> k !in catalog
    ensures (forall k :: k in ledger ==> k !in catalog) ==>
              ReportText(ledger, catalog, fear, fmt) == Preamble(ledger, fear, fmt) + Line(NoData)
  {
    if Speakers(ledger, catalog) != [] {
      assert Speakers(ledger, catalog)[0] in Speakers(ledger, catalog);
    }
  }

  /** The speaker order depends only on which speakers are present, not on
      the order their signals arrived in. */
  lemma SpeakerOrderIgnoresArrival(l1: seq<string>, l2: seq<string>, catalog: map<string, string>)
    requires "" !in catalog
    requires forall k :: k in l1 <==> k in l2
    ensures SpeakerOrder(l1, catalog) == SpeakerOrder(l2, catalog)
  {
    var a := SpeakerOrder(l1, catalog);
    var b := SpeakerOrder(l2, catalog);
    assert forall name :: name in a <==> name in b;
    AscendingSameElements(a, b);
    AscendingUnique(a, b);
  }

  /** Ascending sequences are duplicate-free, so equal membership means equal
      multisets. */
  lemma AscendingSameElements(a: seq<string>, b: seq<string>)
    requires Ascending(a) && Ascending(b)
    requires forall x :: x in a <==> x in b
    ensures multiset(a) == multiset(b)
  {
    AscendingDistinct(a);
    AscendingDistinct(b);
    forall x ensures multiset(a)[x] == multiset(b)[x] {
      DistinctCount(a, x);
      DistinctCount(b, x);
      assert x in a <==> x in multiset(a);
      assert x in b <==> x in multiset(b);
    }
  }

  lemma AscendingDistinct(a: seq<string>)
    requires Ascending(a)
    ensures Distinct(a)
  {
    forall i, j | 0 <= i < j < |a| ensures a[i] != a[j] {
      BelowIrreflexive(a[i]);
    }
  }

  /** With catalog keys only, every entry is counted exactly once: as
      positive or as negative. */
  lemma {:induction false} CatalogCountsAddUp(ledger: seq<string>)
    requires forall k :: k in ledger ==> k in CatalogKeys
    ensures CountPositive(ledger) + CountNegative(ledger) == |ledger|
  {
    if ledger != [] {
      var prefix := ledger[..|ledger| - 1];
      assert forall k :: k in prefix ==> k in ledger;
      CatalogCountsAddUp(prefix);
      CatalogKeyClassified(ledger[|ledger| - 1]);
    }
  }

  /** A `<speaker>_cool` key is positive and not negative. */
  lemma CoolKey(speaker: string)
    requires 'v' !in speaker
    ensures IsPositive(speaker + "_cool") && !IsNegative(speaker + "_cool")
  {
    ContainsEnding(speaker, "_cool");
    ContainsNeedsChar(speaker + "_cool", "_mauvais", 'v');
  }

  /** A `<speaker>_mauvais` key is negative and not positive. */
  lemma MauvaisKey(speaker: string)
    requires '_' !in speaker && 'c' !in speaker && 'w' !in speaker
    ensures IsNegative(speaker + "_mauvais") && !IsPositive(speaker + "_mauvais")
  {
    var k := speaker + "_mauvais";
    ContainsEnding(speaker, "_mauvais");
    ContainsNeedsChar(k, "_cool", 'c');
    ContainsNeedsChar(k, "_witcher", 'w');
    assert k[|speaker| + 1] == 'm';
    ContainsOnlyAt(k, "_sda", |speaker|);
  }

  /** Each catalog key is positive or negative, and not both. */
  lemma CatalogKeyClassified(key: string)
    requires key in CatalogKeys
    ensures IsPositive(key) != IsNegative(key)
  {
    if key == "ayadi_cool" {
      assert key == "ayadi" + "_cool"; CoolKey("ayadi");
    } else if key == "bryan_cool" {
      assert key == "bryan" + "_cool"; CoolKey("bryan");
    } else if key == "roy_cool" {
      assert key == "roy" + "_cool"; CoolKey("roy");
    } else if key == "ilias_cool" {
      assert key == "ilias" + "_cool"; CoolKey("ilias");
    } else if key == "lebot_cool" {
      assert key == "lebot" + "_cool"; CoolKey("lebot");
    } else if key == "lebot_witcher" {
      assert key == "lebot" + "_witcher";
      ContainsEnding("lebot", "_witcher");
      ContainsNeedsChar(key, "_mauvais", 'v');
    } else if key == "lebot_sda" {
      SdaCountedPositiveLabelledNeutral();
    } else if key == "ayadi_mauvais" {
      assert key == "ayadi" + "_mauvais"; MauvaisKey("ayadi");
    } else if key == "bryan_mauvais" {
      assert key == "bryan" + "_mauvais"; MauvaisKey("bryan");
    } else if key == "roy_mauvais" {
      assert key == "roy" + "_mauvais"; MauvaisKey("roy");
    } else {
      assert key == "ilias" + "_mauvais"; MauvaisKey("ilias");
    }
  }

  /** A worked example: one positive signal from Ayadi, then one
      negative from Bryan, gives one of each in the summary; the section
      order of such a ledger is given by `TwoSpeakerOrder`. */
  lemma TwoSpeakerExample()
    ensures CountPositive(["ayadi_cool", "bryan_mauvais"]) == 1
    ensures CountNegative(["ayadi_cool", "bryan_mauvais"]) == 1
  {
    ExampleCounts("ayadi", "bryan");
    assert "ayadi_cool" == "ayadi" + "_cool";
    assert "bryan_mauvais" == "bryan" + "_mauvais";
  }

  /** A `_cool` key then a `_mauvais` key count one positive and one
      negative. */
  lemma ExampleCounts(a: string, b: string)
    requires 'v' !in a
    requires '_' !in b && 'c' !in b && 'w' !in b
    ensures CountPositive([a + "_cool", b + "_mauvais"]) == 1
    ensures CountNegative([a + "_cool", b + "_mauvais"]) == 1
  {
    var ledger := [a + "_cool", b + "_mauvais"];
    CoolKey(a);
    MauvaisKey(b);
    assert ledger[..1] == [a + "_cool"];
    assert ledger[..1][..0] == [];
  }

  /** Two catalog keys of different speakers give two sections, ordered by
      speaker name whichever arrived first. */
  lemma TwoSpeakerOrder(k1: string, k2: string, catalog: map<string, string>)
    requires "" !in catalog
    requires k1 in catalog && k2 in catalog && SpeakerOf(k1) != SpeakerOf(k2)
    ensures Below(SpeakerOf(k1), SpeakerOf(k2)) ==>
              SpeakerOrder([k1, k2], catalog) == [SpeakerOf(k1), SpeakerOf(k2)]
    ensures Below(SpeakerOf(k2), SpeakerOf(k1)) ==>
              SpeakerOrder([k1, k2], catalog) == [SpeakerOf(k2), SpeakerOf(k1)]
  {
    var s1, s2 := SpeakerOf(k1), SpeakerOf(k2);
    TwoSpeakers(k1, k2, catalog);
    var order := SpeakerOrder([k1, k2], catalog);
    assert forall name :: name in order <==> name in [s1, s2];
    if Below(s1, s2) {
      AscendingSameElements(order, [s1, s2]);
      AscendingUnique(order, [s1, s2]);
    }
    if Below(s2, s1) {
      assert forall name :: name in order <==> name in [s2, s1];
      AscendingSameElements(order, [s2, s1]);
      AscendingUnique(order, [s2, s1]);
    }
  }

  /** Two catalog keys of different speakers make two groups, in arrival
      order. */
  lemma TwoSpeakers(k1: string, k2: string, catalog: map<string, string>)
    requires k1 in catalog && k2 in catalog && SpeakerOf(k1) != SpeakerOf(k2)
    ensures Speakers([k1, k2], catalog) == [SpeakerOf(k1), SpeakerOf(k2)]
  {
    assert [k1][..0] == [];
    assert Speakers([k1], catalog) == [SpeakerOf(k1)];
    assert [k1, k2][..1] == [k1];
  }

  /** A key `<name>_<rest>` is filed under `name` when `name` is a non-empty
      word without `_`. */
  lemma SpeakerOfKey(name: string, rest: string)
    requires name != [] && '_' !in name
    ensures SpeakerOf(name + "_" + rest) == name
  {
    var key := name + "_" + rest;
    assert key[|name|] == '_';
    assert key[..|name|] == name;
  }

  lemma ItemsSnoc(x: seq<(string, string)>, init: seq<(string, string)>, last: (string, string))
    requires x == init + [last]
    ensures Items(x) == Items(init) + Item(last)
  {
    assert x[..|x| - 1] == init;
  }

  lemma SectionsSnoc(x: seq<string>, init: seq<string>, last: string, ledger: seq<string>, catalog: map<string, string>)
    requires x == init + [last]
    requires forall i :: 0 <= i < |x| ==> x[i] != []
    ensures forall i :: 0 <= i < |init| ==> init[i] != []
    ensures last != []
    ensures Sections(x, ledger, catalog) == Sections(init, ledger, catalog) + Section(last, Entries(ledger, catalog, last))
  {
    assert x[..|x| - 1] == init;
    assert x[|x| - 1] == last;
  }

  lemma ConcatAssoc(x: string, y: string, z: string)
    ensures (x + y) + z == x + (y + z)
  {}

  /** The items of two lists of entries are the items of the first followed
      by those of the second. */
  lemma {:induction false} ItemsAppend(a: seq<(string, string)>, b: seq<(string, string)>)
    ensures Items(a + b) == Items(a) + Items(b)
  {
    if b == [] {
      assert a + b == a;
    } else {
      var init, last := b[..|b| - 1], b[|b| - 1];
      assert b == init + [last];
      assert a + b == (a + init) + [last];
      ItemsSnoc(a + b, a + init, last);
      ItemsSnoc(b, init, last);
      ItemsAppend(a, init);
      ConcatAssoc(Items(a), Items(init), Item(last));
    }
  }

  /** Writing the sections of two lists of names is writing those of the
      first, then those of the second. */
  lemma {:induction false} SectionsAppend(a: seq<string>, b: seq<string>, ledger: seq<string>, catalog: map<string, string>)
    requires forall i :: 0 <= i < |a| ==> a[i] != []
    requires forall i :: 0 <= i < |b| ==> b[i] != []
    ensures forall i :: 0 <= i < |a + b| ==> (a + b)[i] != []
    ensures Sections(a + b, ledger, catalog) == Sections(a, ledger, catalog) + Sections(b, ledger, catalog)
  {
    var ab := a + b;
    assert forall i :: 0 <= i < |ab| ==> ab[i] != [] by {
      forall i | 0 <= i < |ab| ensures ab[i] != [] {
        if i < |a| { assert ab[i] == a[i]; } else { assert ab[i] == b[i - |a|]; }
      }
    }
    if b == [] {
      assert ab == a;
    } else {
      var init, last := b[..|b| - 1], b[|b| - 1];
      assert b == init + [last];
      assert ab == (a + init) + [last];
      SectionsSnoc(ab, a + init, last, ledger, catalog);
      SectionsSnoc(b, init, last, ledger, catalog);
      SectionsAppend(a, init, ledger, catalog);
      ConcatAssoc(Sections(a, ledger, catalog), Sections(init, ledger, catalog), Section(last, Entries(ledger, catalog, last)));
    }
  }

  /** Which catalog keys are negative, and hence (by
      `CatalogKeyClassified`) which are positive: the four `_mauvais` keys
      are negative; the other seven are positive. */
  lemma CatalogSentiments(key: string)
    requires key in CatalogKeys
    ensures IsNegative(key) <==>
              key == "ayadi_mauvais" || key == "bryan_mauvais" || key == "roy_mauvais" || key == "ilias_mauvais"
    ensures IsPositive(key) <==>
              !(key == "ayadi_mauvais" || key == "bryan_mauvais" || key == "roy_mauvais" || key == "ilias_mauvais")
  {
    if key == "ayadi_cool" {
      assert key == "ayadi" + "_cool"; CoolKey("ayadi");
    } else if key == "bryan_cool" {
      assert key == "bryan" + "_cool"; CoolKey("bryan");
    } else if key == "roy_cool" {
      assert key == "roy" + "_cool"; CoolKey("roy");
    } else if key == "ilias_cool" {
      assert key == "ilias" + "_cool"; CoolKey("ilias");
    } else if key == "lebot_cool" {
      assert key == "lebot" + "_cool"; CoolKey("lebot");
    } else if key == "lebot_witcher" {
      assert key == "lebot" + "_witcher";
      ContainsEnding("lebot", "_witcher");
      ContainsNeedsChar(key, "_mauvais", 'v');
    } else if key == "lebot_sda" {
      SdaCountedPositiveLabelledNeutral();
    } else if key == "ayadi_mauvais" {
      assert key == "ayadi" + "_mauvais"; MauvaisKey("ayadi");
    } else if key == "bryan_mauvais" {
      assert key == "bryan" + "_mauvais"; MauvaisKey("bryan");
    } else if key == "roy_mauvais" {
      assert key == "roy" + "_mauvais"; MauvaisKey("roy");
    } else {
      assert key == "ilias" + "_mauvais"; MauvaisKey("ilias");
    }
  }
}
