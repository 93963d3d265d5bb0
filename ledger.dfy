/** The signal ledger of `GameManager`: raw dialogue signals are normalised
    (trimmed, lower-cased); a key of the report catalog is appended once, in
    arrival order; the control key asks for the end screen; anything else is
    dropped. */
module Ledger {
  import opened Wrappers
  import opened Strings

  /** The control key a timeline sends when the session's story is over. */
  const EndReportKey: string := "show_end_report"

  /** The scene the control key asks for. */
  const EndScene: string := "res://scenes/EcranDeFin.tscn"

  /** The eleven keys of `_definitionsRapport`. */
  const CatalogKeys: set<string> := {
    "ayadi_cool", "ayadi_mauvais", "bryan_cool", "bryan_mauvais", "roy_cool",
    "roy_mauvais", "ilias_cool", "ilias_mauvais", "lebot_cool", "lebot_witcher",
    "lebot_sda"
  }

  /** A report catalog: the fixed keys, each with its (opaque) report text. */
  predicate IsCatalog(catalog: map<string, string>) {
    catalog.Keys == CatalogKeys
  }

  predicate NoDuplicates(ledger: seq<string>) {
    forall i, j :: 0 <= i < j < |ledger| ==> ledger[i] != ledger[j]
  }

  /** `(argument ?? string.Empty).Trim().ToLowerInvariant()`: a normalised
      key has no white space at either end and no upper-case letter. */
  function Normalize(raw: Option<string>): (key: string)
    ensures key != [] ==> !IsWhiteSpace(key[0]) && !IsWhiteSpace(key[|key| - 1])
    ensures forall i :: 0 <= i < |key| ==> !IsUpperAscii(key[i])
  {
    var t := Trim(raw.GetOr(""));
    assert t != [] ==> !IsWhiteSpace(LowerChar(t[0])) && !IsWhiteSpace(LowerChar(t[|t| - 1])) by {
      TrimShape(raw.GetOr(""));
      if t != [] {
        LowerCharKeepsWhiteSpace(t[0]);
        LowerCharKeepsWhiteSpace(t[|t| - 1]);
      }
    }
    ToLower(t)
  }

  /** What a signal did to the ledger. */
  datatype SignalOutcome = Stored(key: string) | AlreadyStored(key: string) | EndReportRequested | Unknown(key: string)

  /** `GameManager.OnDialogicSignal(argument)`: the new ledger and what
      happened. */
  function Record(ledger: seq<string>, catalog: map<string, string>, raw: Option<string>): (r: (seq<string>, SignalOutcome))
    ensures var key := Normalize(raw);
      && (key in catalog && key !in ledger ==> r == (ledger + [key], Stored(key)))
      && (key in catalog && key in ledger ==> r == (ledger, AlreadyStored(key)))
      && (key !in catalog ==> r.0 == ledger)
      && (r.1 == EndReportRequested <==> key !in catalog && key == EndReportKey)
      && (r.1.Unknown? <==> key !in catalog && key != EndReportKey)
    ensures NoDuplicates(ledger) ==> NoDuplicates(r.0)
    ensures (forall k :: k in ledger ==> k in catalog) ==> (forall k :: k in r.0 ==> k in catalog)
  {
    var key := Normalize(raw);
    if key in catalog then
      if key !in ledger then (ledger + [key], Stored(key)) else (ledger, AlreadyStored(key))
    else if key == EndReportKey then (ledger, EndReportRequested)
    else (ledger, Unknown(key))
  }

  /** Normalising a key again changes nothing. */
  lemma NormalizeIdempotent(raw: Option<string>)
    ensures Normalize(Some(Normalize(raw))) == Normalize(raw)
  {
    var t := Trim(raw.GetOr(""));
    TrimLowerCommute(t);
    TrimIdempotent(raw.GetOr(""));
    ToLowerIdempotent(t);
  }

  /** Raw signals that differ only in case, or in surrounding white space,
      name the same key. */
  lemma NormalizeIgnoresCaseAndPadding(s: string, t: string, p: string, q: string)
    requires ToLower(s) == ToLower(t)
    requires AllWhiteSpace(p) && AllWhiteSpace(q)
    ensures Normalize(Some(s)) == Normalize(Some(t))
    ensures Normalize(Some(p + s + q)) == Normalize(Some(s))
  {
    TrimLowerCommute(s);
    TrimLowerCommute(t);
    TrimPadded(p, s, q);
  }

  /** The same signal twice: stored once, then reported as already stored. */
  lemma RecordTwice(ledger: seq<string>, catalog: map<string, string>, raw: Option<string>)
    requires Normalize(raw) in catalog && Normalize(raw) !in ledger
    ensures var first := Record(ledger, catalog, raw);
      && first.1 == Stored(Normalize(raw))
      && Record(first.0, catalog, raw) == (first.0, AlreadyStored(Normalize(raw)))
      && |Record(first.0, catalog, raw).0| == |ledger| + 1
  {
  }

  /** The ledger after a series of signals. */
  function RecordAll(ledger: seq<string>, catalog: map<string, string>, raws: seq<Option<string>>): seq<string>
    decreases |raws|
  {
    if raws == [] then ledger else RecordAll(Record(ledger, catalog, raws[0]).0, catalog, raws[1..])
  }

  /** After any series of signals the old ledger is a prefix of the new one,
      the ledger has no duplicates, and it holds exactly the old keys and the
      catalog keys that some signal normalised to. */
  lemma {:induction false} RecordAllContents(ledger: seq<string>, catalog: map<string, string>, raws: seq<Option<string>>)
    requires NoDuplicates(ledger)
    ensures var final := RecordAll(ledger, catalog, raws);
      && NoDuplicates(final)
      && |ledger| <= |final| && final[..|ledger|] == ledger
      && forall k :: k in final <==>
           k in ledger || (k in catalog && exists i :: 0 <= i < |raws| && Normalize(raws[i]) == k)
    decreases |raws|
  {
    if raws != [] {
      var next := Record(ledger, catalog, raws[0]).0;
      RecordAllContents(next, catalog, raws[1..]);
      var final := RecordAll(ledger, catalog, raws);
      assert final == RecordAll(next, catalog, raws[1..]);
      assert final[..|ledger|] == next[..|next|][..|ledger|];
      forall k ensures k in final <==>
          k in ledger || (k in catalog && exists i :: 0 <= i < |raws| && Normalize(raws[i]) == k) {
        if k in catalog && (exists i :: 0 <= i < |raws| && Normalize(raws[i]) == k) {
          var i :| 0 <= i < |raws| && Normalize(raws[i]) == k;
          if i > 0 {
            assert raws[1..][i - 1] == raws[i];
          }
        }
        if k in catalog && (exists i :: 0 <= i < |raws[1..]| && Normalize(raws[1..][i]) == k) {
          var i :| 0 <= i < |raws[1..]| && Normalize(raws[1..][i]) == k;
          assert raws[i + 1] == raws[1..][i];
        }
      }
    }
  }

  /** A key already in normal form is its own normalisation. */
  lemma NormalKey(key: string)
    requires key != [] ==> !IsWhiteSpace(key[0]) && !IsWhiteSpace(key[|key| - 1])
    requires forall i :: 0 <= i < |key| ==> !IsUpperAscii(key[i])
    ensures Normalize(Some(key)) == key
  {
    assert Some(key).GetOr("") == key;
    TrimUnpadded(key);
    ToLowerOfLower(key);
    assert Normalize(Some(key)) == ToLower(Trim(key));
  }

  /** Every catalog key, and the control key, is already in normal form:
      each can be sent as it is. */
  lemma KeysAreNormal(key: string)
    requires key in CatalogKeys || key == EndReportKey
    ensures Normalize(Some(key)) == key
  {
    if key == "ayadi_cool" { NormalKey("ayadi_cool"); }
    else if key == "ayadi_mauvais" { NormalKey("ayadi_mauvais"); }
    else if key == "bryan_cool" { NormalKey("bryan_cool"); }
    else if key == "bryan_mauvais" { NormalKey("bryan_mauvais"); }
    else if key == "roy_cool" { NormalKey("roy_cool"); }
    else if key == "roy_mauvais" { NormalKey("roy_mauvais"); }
    else if key == "ilias_cool" { NormalKey("ilias_cool"); }
    else if key == "ilias_mauvais" { NormalKey("ilias_mauvais"); }
    else if key == "lebot_cool" { NormalKey("lebot_cool"); }
    else if key == "lebot_witcher" { NormalKey("lebot_witcher"); }
    else if key == "lebot_sda" { NormalKey("lebot_sda"); }
    else { NormalKey("show_end_report"); }
  }

  /** Three signals in a row: an upper-case signal padded with any white
      space (such as "  AYADI_COOL "), a plain one and the control key. */
  lemma EndToEndScenario(catalog: map<string, string>, p: string, q: string)
    requires IsCatalog(catalog)
    requires AllWhiteSpace(p) && AllWhiteSpace(q)
    ensures var r1 := Record([], catalog, Some(p + "AYADI_COOL" + q));
      var r2 := Record(r1.0, catalog, Some("bryan_mauvais"));
      var r3 := Record(r2.0, catalog, Some("show_end_report"));
      && r1 == (["ayadi_cool"], Stored("ayadi_cool"))
      && r2 == (["ayadi_cool", "bryan_mauvais"], Stored("bryan_mauvais"))
      && r3 == (["ayadi_cool", "bryan_mauvais"], EndReportRequested)
  {
    var raw := p + "AYADI_COOL" + q;
    assert Normalize(Some(raw)) == "ayadi_cool" by {
      LowerAyadi();
      NormalizeIgnoresCaseAndPadding("AYADI_COOL", "ayadi_cool", p, q);
      KeysAreNormal("ayadi_cool");
    }
    KeysAreNormal("bryan_mauvais");
    KeysAreNormal("show_end_report");
    assert "ayadi_cool" in catalog && "bryan_mauvais" in catalog && "show_end_report" !in catalog;
    assert [] + ["ayadi_cool"] == ["ayadi_cool"];
    assert ["ayadi_cool"] + ["bryan_mauvais"] == ["ayadi_cool", "bryan_mauvais"];
  }

  lemma LowerAyadi()
    ensures ToLower("AYADI_COOL") == ToLower("ayadi_cool")
  {
  }

  /** A key outside the catalog never changes the ledger. */
  lemma UnknownDropped(ledger: seq<string>, catalog: map<string, string>)
    requires IsCatalog(catalog)
    ensures Record(ledger, catalog, Some("totally_unknown_key")) == (ledger, Unknown("totally_unknown_key"))
  {
    NormalKey("totally_unknown_key");
    assert "totally_unknown_key" !in catalog;
  }
}
