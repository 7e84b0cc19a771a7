/**
 * The captive portal's allowed-hostname editor: how the zone named in the
 * request is normalised and checked, how a posted hostname entry is
 * validated, stored and the zone's list re-sorted, the comparator used for
 * that sort, and the direction choices offered by the form.
 */
module CaptivePortalHostnames {
  import opened Php
  import Sorting

  /**
   * The library calls the page relies on: IDNA conversion to the ASCII form
   * (None is PHP's false, a failed conversion) and back to the Unicode form,
   * the hostname syntax check and is_numeric.
   */
  datatype HostLib = HostLib(
    toAscii: string -> Option<string>,
    toUtf8: string -> string,
    isHostname: string -> bool,
    isNumeric: string -> bool)

  /** One element of captiveportal/<zone>/allowedhostname; bandwidths are unset unless given. */
  datatype Entry = Entry(
    hostname: string,
    sn: Option<string>,
    dir: Option<string>,
    descr: Option<string>,
    bwUp: Option<string>,
    bwDown: Option<string>)

  /** The posted fields of the form (None for a field that was not sent). */
  datatype HostnameForm = HostnameForm(
    hostname: Option<string>,
    sn: Option<string>,
    dir: Option<string>,
    descr: Option<string>,
    bwUp: Option<string>,
    bwDown: Option<string>)

  /** The request: the zone and id parameters (id already checked to be an integer), the save button and the form. */
  datatype HostnameRequest = HostnameRequest(
    zone: Option<string>,
    id: Option<nat>,
    save: Option<string>,
    form: HostnameForm)

  datatype HostnameError =
    | HostnameRequired
    | InvalidHostname(shown: string)
    | UploadNotInteger
    | DownloadNotInteger
    | AlreadyAllowed(shown: string)

  /** Where the request ends: back to the zone list, on to the hostname list, or the form is shown. */
  datatype PageOutcome = ToZones | ToList | Form

  // ---------------------------------------------------------------------------
  // The comparator and the sort key

  /** allowedhostnamescmp: strcmp of the Unicode forms of the two hostnames. */
  function AllowedHostnamesCmp(lib: HostLib, a: Entry, b: Entry): (r: int)
    ensures -1 <= r <= 1
    ensures r == 0 <==> lib.toUtf8(a.hostname) == lib.toUtf8(b.hostname)
  {
    Strcmp(lib.toUtf8(a.hostname), lib.toUtf8(b.hostname))
  }

  /** Swapping the arguments negates the comparison. */
  lemma CmpAntisymmetric(lib: HostLib, a: Entry, b: Entry)
    ensures AllowedHostnamesCmp(lib, a, b) == -AllowedHostnamesCmp(lib, b, a)
  {
    StrcmpAntisymmetric(lib.toUtf8(a.hostname), lib.toUtf8(b.hostname));
  }

  /** The comparator is a total preorder: transitive, and any two entries compare one way or the other. */
  lemma CmpPreorder(lib: HostLib, a: Entry, b: Entry, c: Entry)
    ensures AllowedHostnamesCmp(lib, a, b) <= 0 || AllowedHostnamesCmp(lib, b, a) <= 0
    ensures AllowedHostnamesCmp(lib, a, b) <= 0 && AllowedHostnamesCmp(lib, b, c) <= 0 ==> AllowedHostnamesCmp(lib, a, c) <= 0
  {
    StrLeqTotal(lib.toUtf8(a.hostname), lib.toUtf8(b.hostname));
    if AllowedHostnamesCmp(lib, a, b) <= 0 && AllowedHostnamesCmp(lib, b, c) <= 0 {
      StrLeqTransitive(lib.toUtf8(a.hostname), lib.toUtf8(b.hostname), lib.toUtf8(c.hostname));
    }
  }

  function Utf8Key(lib: HostLib): Entry -> string
  {
    (e: Entry) => lib.toUtf8(e.hostname)
  }

  /** A list sorted by the key is one usort with the comparator leaves: no later entry compares below an earlier one. */
  lemma SortedByCmp(lib: HostLib, s: seq<Entry>)
    requires Sorting.SortedBy(s, Utf8Key(lib))
    ensures forall i, j :: 0 <= i < j < |s| ==> AllowedHostnamesCmp(lib, s[i], s[j]) <= 0
  {
    forall i, j | 0 <= i < j < |s| ensures AllowedHostnamesCmp(lib, s[i], s[j]) <= 0 {
      assert Utf8Key(lib)(s[i]) == lib.toUtf8(s[i].hostname);
      assert Utf8Key(lib)(s[j]) == lib.toUtf8(s[j].hostname);
    }
  }

  // ---------------------------------------------------------------------------
  // The zone guard

  /** The zone parameter as the page uses it: escaped with htmlspecialchars, then lowercased. */
  function ZoneKey(raw: Option<string>): (key: string)
    ensures forall i :: 0 <= i < |key| ==> !IsUpper(key[i]) && key[i] != '<' && key[i] != '>' && key[i] != '"' && key[i] != '\''
    ensures key == [] <==> Str(raw) == []
  {
    AsciiLower(HtmlSpecialChars(Str(raw)))
  }

  /** A zone name without capitals or markup characters reaches its own configuration. */
  lemma ZoneKeyOfPlainName(name: string)
    requires forall i :: 0 <= i < |name| ==> !IsUpper(name[i]) && !IsMarkup(name[i])
    ensures ZoneKey(Some(name)) == name
  {
  }

  /** The page goes back to the zone list when the zone is empty ("" or "0") or has no configuration. */
  predicate ZoneMissing(zones: map<string, seq<Entry>>, key: string)
  {
    !Truthy(key) || key !in zones
  }

  // ---------------------------------------------------------------------------
  // Validating a posted entry

  /** The hostname after IDNA conversion to ASCII. */
  function AsciiHostname(f: HostnameForm, lib: HostLib): Option<string>
  {
    lib.toAscii(Str(f.hostname))
  }

  /** The entry being edited: the one at id, when id names one. */
  function Edited(allowed: seq<Entry>, id: Option<nat>): (r: Option<Entry>)
    ensures r.Some? <==> id.Some? && id.value < |allowed|
    ensures r.Some? ==> r.value == allowed[id.value]
  {
    if id.Some? && id.value < |allowed| then Some(allowed[id.value]) else None
  }

  /**
   * `$ipent['hostname'] == $_POST['hostname']` under PHP 8 loose equality
   * when the ASCII form may be false: a string equals false exactly when it
   * is falsy ("" or "0").
   */
  predicate HostMatches(stored: string, ascii: Option<string>)
  {
    if ascii.None? then !Truthy(stored) else stored == ascii.value
  }

  /** The uniqueness loop skips every entry identical to the edited one. */
  predicate Compared(e: Entry, edited: Option<Entry>)
  {
    !(edited.Some? && edited.value == e)
  }

  /** Some compared entry already carries the posted hostname. */
  ghost predicate Duplicate(allowed: seq<Entry>, edited: Option<Entry>, ascii: Option<string>)
  {
    exists k :: 0 <= k < |allowed| && Compared(allowed[k], edited) && HostMatches(allowed[k].hostname, ascii)
  }

  function RequiredError(ascii: Option<string>): (r: seq<HostnameError>)
    ensures r == [] || r == [HostnameRequired]
    ensures r != [] <==> LooseEmpty(ascii)
  {
    if LooseEmpty(ascii) then [HostnameRequired] else []
  }

  function SyntaxError(ascii: Option<string>, lib: HostLib): (r: seq<HostnameError>)
    ensures r == [] || (|r| == 1 && r[0].InvalidHostname?)
    ensures r != [] <==> TruthyField(ascii) && !lib.isHostname(ascii.value)
  {
    if TruthyField(ascii) && !lib.isHostname(ascii.value) then [InvalidHostname(lib.toUtf8(ascii.value))] else []
  }

  function SpeedError(speed: Option<string>, lib: HostLib, error: HostnameError): (r: seq<HostnameError>)
    ensures r == [] || r == [error]
    ensures r != [] <==> TruthyField(speed) && !lib.isNumeric(speed.value)
  {
    if TruthyField(speed) && !lib.isNumeric(speed.value) then [error] else []
  }

  ghost function DuplicateError(allowed: seq<Entry>, id: Option<nat>, ascii: Option<string>, lib: HostLib): (r: seq<HostnameError>)
    ensures r == [] || (|r| == 1 && r[0].AlreadyAllowed?)
    ensures r != [] <==> Duplicate(allowed, Edited(allowed, id), ascii)
  {
    if Duplicate(allowed, Edited(allowed, id), ascii) then [AlreadyAllowed(lib.toUtf8(Str(ascii)))] else []
  }

  /** The input errors of a save, in the order the page adds them. */
  ghost function HostnameErrors(allowed: seq<Entry>, id: Option<nat>, f: HostnameForm, lib: HostLib): seq<HostnameError>
  {
    var ascii := AsciiHostname(f, lib);
    RequiredError(ascii)
    + SyntaxError(ascii, lib)
    + SpeedError(f.bwUp, lib, UploadNotInteger)
    + SpeedError(f.bwDown, lib, DownloadNotInteger)
    + DuplicateError(allowed, id, ascii, lib)
  }

  /** The foreach over the zone's entries, with its continue and its break. */
  method FindDuplicate(allowed: seq<Entry>, edited: Option<Entry>, ascii: Option<string>) returns (found: bool)
    ensures found <==> Duplicate(allowed, edited, ascii)
  {
    found := false;
    var k := 0;
    while k < |allowed|
      invariant 0 <= k <= |allowed|
      invariant forall j :: 0 <= j < k ==> !(Compared(allowed[j], edited) && HostMatches(allowed[j].hostname, ascii))
    {
      if edited.Some? && edited.value == allowed[k] {
        k := k + 1;
        continue;
      }
      if HostMatches(allowed[k].hostname, ascii) {
        found := true;
        break;
      }
      k := k + 1;
    }
  }

  /** The save branch's validation, accumulating errors as the page does. */
  method ValidateEntry(allowed: seq<Entry>, id: Option<nat>, f: HostnameForm, lib: HostLib) returns (errors: seq<HostnameError>)
    ensures errors == HostnameErrors(allowed, id, f, lib)
  {
    var ascii := lib.toAscii(Str(f.hostname));
    errors := [];
    if ascii.None? || ascii.value == "" {
      errors := errors + [HostnameRequired];
    }
    ghost var checked := errors;
    assert checked == RequiredError(ascii);
    if TruthyField(ascii) && !lib.isHostname(ascii.value) {
      errors := errors + [InvalidHostname(lib.toUtf8(ascii.value))];
    }
    assert errors == checked + SyntaxError(ascii, lib);
    checked := errors;
    if TruthyField(f.bwUp) && !lib.isNumeric(f.bwUp.value) {
      errors := errors + [UploadNotInteger];
    }
    assert errors == checked + SpeedError(f.bwUp, lib, UploadNotInteger);
    checked := errors;
    if TruthyField(f.bwDown) && !lib.isNumeric(f.bwDown.value) {
      errors := errors + [DownloadNotInteger];
    }
    assert errors == checked + SpeedError(f.bwDown, lib, DownloadNotInteger);
    checked := errors;
    var edited := if id.Some? && id.value < |allowed| then Some(allowed[id.value]) else None;
    var found := FindDuplicate(allowed, edited, ascii);
    if found {
      errors := errors + [AlreadyAllowed(lib.toUtf8(Str(ascii)))];
    }
    assert errors == checked + DuplicateError(allowed, id, ascii, lib);
  }

  /** Each check contributes its error exactly when its condition holds. */
  lemma HostnameErrorsIff(allowed: seq<Entry>, id: Option<nat>, f: HostnameForm, lib: HostLib)
    ensures var errors, ascii := HostnameErrors(allowed, id, f, lib), AsciiHostname(f, lib);
      && (HostnameRequired in errors <==> LooseEmpty(ascii))
      && ((exists e :: e in errors && e.InvalidHostname?) <==> TruthyField(ascii) && !lib.isHostname(ascii.value))
      && (UploadNotInteger in errors <==> TruthyField(f.bwUp) && !lib.isNumeric(f.bwUp.value))
      && (DownloadNotInteger in errors <==> TruthyField(f.bwDown) && !lib.isNumeric(f.bwDown.value))
      && ((exists e :: e in errors && e.AlreadyAllowed?) <==> Duplicate(allowed, Edited(allowed, id), ascii))
  {
    var ascii := AsciiHostname(f, lib);
    var a, b, c, d, e := RequiredError(ascii), SyntaxError(ascii, lib), SpeedError(f.bwUp, lib, UploadNotInteger),
      SpeedError(f.bwDown, lib, DownloadNotInteger), DuplicateError(allowed, id, ascii, lib);
    var errors := HostnameErrors(allowed, id, f, lib);
    assert errors == a + b + c + d + e;
    assert b != [] ==> b[0] in errors;
    assert e != [] ==> e[0] in errors;
  }

  /** The duplicate error is reported at most once, whatever the number of clashing entries. */
  lemma DuplicateReportedOnce(allowed: seq<Entry>, id: Option<nat>, f: HostnameForm, lib: HostLib)
    ensures |HostnameErrors(allowed, id, f, lib)| <= 5
    ensures forall i, j :: 0 <= i < j < |HostnameErrors(allowed, id, f, lib)| ==>
      !(HostnameErrors(allowed, id, f, lib)[i].AlreadyAllowed? && HostnameErrors(allowed, id, f, lib)[j].AlreadyAllowed?)
  {
    var ascii := AsciiHostname(f, lib);
    var a, b, c, d, e := RequiredError(ascii), SyntaxError(ascii, lib), SpeedError(f.bwUp, lib, UploadNotInteger),
      SpeedError(f.bwDown, lib, DownloadNotInteger), DuplicateError(allowed, id, ascii, lib);
    var front := a + b + c + d;
    assert HostnameErrors(allowed, id, f, lib) == front + e;
    assert forall i :: 0 <= i < |front| ==> !front[i].AlreadyAllowed?;
  }

  /**
   * What an accepted submission looks like: the ASCII form exists and is not
   * empty; it passes the syntax check unless it is "0" (which PHP reads as
   * false and so never checks); given speeds are numeric; and no compared
   * entry has that hostname.
   */
  lemma Accepted(allowed: seq<Entry>, id: Option<nat>, f: HostnameForm, lib: HostLib)
    requires HostnameErrors(allowed, id, f, lib) == []
    ensures var ascii := AsciiHostname(f, lib);
      && ascii.Some? && ascii.value != ""
      && (ascii.value != "0" ==> lib.isHostname(ascii.value))
      && (TruthyField(f.bwUp) ==> lib.isNumeric(f.bwUp.value))
      && (TruthyField(f.bwDown) ==> lib.isNumeric(f.bwDown.value))
      && forall k :: 0 <= k < |allowed| && Compared(allowed[k], Edited(allowed, id)) ==> allowed[k].hostname != ascii.value
  {
    HostnameErrorsIff(allowed, id, f, lib);
  }

  // ---------------------------------------------------------------------------
  // Storing

  /** The entry a successful save stores: the ASCII hostname, the posted fields, and each speed only when truthy. */
  function SubmittedEntry(f: HostnameForm, lib: HostLib): (e: Entry)
    ensures e.hostname == Str(AsciiHostname(f, lib)) && e.sn == f.sn && e.dir == f.dir && e.descr == f.descr
    ensures e.bwUp.Some? <==> TruthyField(f.bwUp)
    ensures e.bwUp.Some? ==> e.bwUp == f.bwUp
    ensures e.bwDown.Some? <==> TruthyField(f.bwDown)
    ensures e.bwDown.Some? ==> e.bwDown == f.bwDown
  {
    Entry(Str(AsciiHostname(f, lib)), f.sn, f.dir, f.descr, KeepIfTruthy(f.bwUp), KeepIfTruthy(f.bwDown))
  }

  /** The list after the entry is written at id when id names an entry, and appended otherwise. */
  function Upsert(allowed: seq<Entry>, id: Option<nat>, e: Entry): seq<Entry>
  {
    if id.Some? && id.value < |allowed| then allowed[id.value := e] else allowed + [e]
  }

  /** Editing replaces only the entry at id; creating adds the entry after all the others. */
  lemma UpsertSpec(allowed: seq<Entry>, id: Option<nat>, e: Entry)
    ensures id.Some? && id.value < |allowed| ==>
      |Upsert(allowed, id, e)| == |allowed| && Upsert(allowed, id, e)[id.value] == e
      && forall i :: 0 <= i < |allowed| && i != id.value ==> Upsert(allowed, id, e)[i] == allowed[i]
    ensures !(id.Some? && id.value < |allowed|) ==>
      |Upsert(allowed, id, e)| == |allowed| + 1 && Upsert(allowed, id, e)[|allowed|] == e
      && Upsert(allowed, id, e)[..|allowed|] == allowed
  {
  }

  /** The direction choices: each label keyed by its lowercase form, a later label winning a shared key. */
  function DirMap(labels: seq<string>): (m: map<string, string>)
    ensures forall i :: 0 <= i < |labels| ==> AsciiLower(labels[i]) in m
    ensures forall k :: k in m ==> AsciiLower(m[k]) == k && m[k] in labels
    ensures labels != [] ==> m[AsciiLower(labels[|labels| - 1])] == labels[|labels| - 1]
  {
    if labels == [] then map[]
    else
      var init := labels[..|labels| - 1];
      assert forall i :: 0 <= i < |init| ==> init[i] == labels[i];
      DirMap(init)[AsciiLower(labels[|labels| - 1]) := labels[|labels| - 1]]
  }

  /** build_dir_list: Both, From and To through the translation, keyed by their lowercase forms. */
  function BuildDirList(gettext: string -> string): map<string, string>
  {
    DirMap([gettext("Both"), gettext("From"), gettext("To")])
  }

  /** The three labels in turn. */
  lemma DirMapOfThree(b: string, f: string, t: string)
    ensures DirMap([b, f, t]) == map[AsciiLower(b) := b][AsciiLower(f) := f][AsciiLower(t) := t]
  {
    assert [b, f, t][..2] == [b, f];
    assert [b, f][..1] == [b];
    assert [b][..0] == [];
  }

  /** When the three translations differ in lowercase, the list has exactly three entries, each under its own label's lowercase form. */
  lemma BuildDirListThree(gettext: string -> string)
    requires var b, f, t := AsciiLower(gettext("Both")), AsciiLower(gettext("From")), AsciiLower(gettext("To"));
      b != f && f != t && b != t
    ensures var m := BuildDirList(gettext);
      && |m| == 3
      && AsciiLower(gettext("Both")) in m && m[AsciiLower(gettext("Both"))] == gettext("Both")
      && AsciiLower(gettext("From")) in m && m[AsciiLower(gettext("From"))] == gettext("From")
      && AsciiLower(gettext("To")) in m && m[AsciiLower(gettext("To"))] == gettext("To")
  {
    var b, f, t := gettext("Both"), gettext("From"), gettext("To");
    DirMapOfThree(b, f, t);
    var m := BuildDirList(gettext);
    assert m.Keys == {AsciiLower(b), AsciiLower(f), AsciiLower(t)};
  }

  /** Without a translation the choices are both, from and to. */
  lemma BuildDirListUntranslated()
    ensures BuildDirList(s => s) == map["both" := "Both", "from" := "From", "to" := "To"]
  {
    DirMapOfThree("Both", "From", "To");
    assert AsciiLower("Both") == "both" by {
      assert AsciiLower("Both")[0] == 'b';
    }
    assert AsciiLower("From") == "from" by {
      assert AsciiLower("From")[0] == 'f';
    }
    assert AsciiLower("To") == "to" by {
      assert AsciiLower("To")[0] == 't';
    }
  }

  /** After a successful save the zone's list is sorted by the comparator, holds the new entry, and is a permutation of the upserted list. */
  lemma SavedListSpec(allowed: seq<Entry>, id: Option<nat>, e: Entry, lib: HostLib)
    ensures var r := Sorting.SortBy(Upsert(allowed, id, e), Utf8Key(lib));
      && multiset(r) == multiset(Upsert(allowed, id, e))
      && e in r
      && forall i, j :: 0 <= i < j < |r| ==> AllowedHostnamesCmp(lib, r[i], r[j]) <= 0
  {
    var r := Sorting.SortBy(Upsert(allowed, id, e), Utf8Key(lib));
    SortedByCmp(lib, r);
    UpsertSpec(allowed, id, e);
    Sorting.SortByPermutes(Upsert(allowed, id, e), Utf8Key(lib));
    Sorting.SortByKeepsElements(Upsert(allowed, id, e), Utf8Key(lib), e);
  }

  function HostnameOf(e: Entry): string
  {
    e.hostname
  }

  /** No two entries of a zone's list carry the same hostname. */
  ghost predicate DistinctHosts(allowed: seq<Entry>)
  {
    Sorting.DistinctBy(allowed, HostnameOf)
  }

  /**
   * A save without errors keeps a zone's hostnames distinct: every entry
   * other than the edited one was compared with the new ASCII hostname, and
   * sorting only reorders the list.
   */
  lemma SavedHostsDistinct(allowed: seq<Entry>, id: Option<nat>, f: HostnameForm, lib: HostLib)
    requires HostnameErrors(allowed, id, f, lib) == []
    ensures DistinctHosts(allowed) ==> DistinctHosts(Sorting.SortBy(Upsert(allowed, id, SubmittedEntry(f, lib)), Utf8Key(lib)))
  {
    if DistinctHosts(allowed) {
      var e := SubmittedEntry(f, lib);
      Accepted(allowed, id, f, lib);
      var edited := Edited(allowed, id);
      var editing := id.Some? && id.value < |allowed|;
      forall k | 0 <= k < |allowed| && !(editing && k == id.value) ensures allowed[k].hostname != e.hostname {
        if editing {
          assert HostnameOf(allowed[k]) != HostnameOf(allowed[id.value]);
        }
        assert Compared(allowed[k], edited);
      }
      var u := Upsert(allowed, id, e);
      UpsertSpec(allowed, id, e);
      forall i, j | 0 <= i < j < |u| ensures HostnameOf(u[i]) != HostnameOf(u[j]) {
        if !editing {
          assert u[i] == allowed[i];
          if j < |allowed| {
            assert u[j] == allowed[j];
          }
        }
      }
      assert DistinctHosts(u);
      Sorting.SortByDistinct(u, Utf8Key(lib), HostnameOf);
    }
  }

  /** Writing a key twice keeps the second value. */
  lemma Overwrite<K, V>(m: map<K, V>, k: K, a: V, b: V)
    ensures m[k := a][k := b] == m[k := b]
  {
  }

  /** The captive portal zones' allowed-hostname lists and the number of configuration writes. */
  class PortalConfig {
    var zones: map<string, seq<Entry>>
    var writes: nat

    /** Every zone's list has distinct hostnames. */
    ghost predicate Valid()
      reads this`zones
    {
      forall z :: z in zones ==> DistinctHosts(zones[z])
    }

    constructor (zones: map<string, seq<Entry>>)
      ensures this.zones == zones && writes == 0
    {
      this.zones := zones;
      writes := 0;
    }

    /** config_set_path on the zone's list: the entry at id, or a new last entry. */
    method StoreEntry(zone: string, id: Option<nat>, e: Entry)
      modifies this`zones
      ensures zones == old(zones)[zone := Upsert(if zone in old(zones) then old(zones)[zone] else [], id, e)]
    {
      var allowed := if zone in zones then zones[zone] else [];
      if id.Some? && id.value < |allowed| {
        allowed := allowed[id.value := e];
      } else {
        allowed := allowed + [e];
      }
      zones := zones[zone := allowed];
    }

    /** allowedhostnames_sort: the zone's list (empty when absent) sorted with the comparator. */
    method SortZone(zone: string, lib: HostLib)
      modifies this`zones
      ensures zones == old(zones)[zone := Sorting.SortBy(if zone in old(zones) then old(zones)[zone] else [], Utf8Key(lib))]
    {
      var allowed := if zone in zones then zones[zone] else [];
      zones := zones[zone := Sorting.SortBy(allowed, Utf8Key(lib))];
    }

    /**
     * One request to the page: the zone guard, then, when save is posted,
     * validation and, without errors, the upsert, the sort, a write and the
     * redirect to the list.
     */
    method Edit(r: HostnameRequest, lib: HostLib) returns (outcome: PageOutcome, errors: seq<HostnameError>)
      modifies this`zones, this`writes
      ensures ZoneMissing(old(zones), ZoneKey(r.zone)) ==>
        outcome == ToZones && errors == [] && zones == old(zones) && writes == old(writes)
      ensures !ZoneMissing(old(zones), ZoneKey(r.zone)) && !TruthyField(r.save) ==>
        outcome == Form && errors == [] && zones == old(zones) && writes == old(writes)
      ensures !ZoneMissing(old(zones), ZoneKey(r.zone)) && TruthyField(r.save) ==>
        errors == HostnameErrors(old(zones)[ZoneKey(r.zone)], r.id, r.form, lib)
      ensures !ZoneMissing(old(zones), ZoneKey(r.zone)) && TruthyField(r.save) && errors != [] ==>
        outcome == Form && zones == old(zones) && writes == old(writes)
      ensures !ZoneMissing(old(zones), ZoneKey(r.zone)) && TruthyField(r.save) && errors == [] ==>
        var key := ZoneKey(r.zone);
        && outcome == ToList
        && zones == old(zones)[key := Sorting.SortBy(Upsert(old(zones)[key], r.id, SubmittedEntry(r.form, lib)), Utf8Key(lib))]
        && writes == old(writes) + 1
      ensures old(Valid()) ==> Valid()
    {
      var key := ZoneKey(r.zone);
      if !Truthy(key) || key !in zones {
        return ToZones, [];
      }
      errors := [];
      outcome := Form;
      if TruthyField(r.save) {
        errors := ValidateEntry(zones[key], r.id, r.form, lib);
        if errors == [] {
          ghost var before := zones;
          SavedHostsDistinct(before[key], r.id, r.form, lib);
          StoreEntry(key, r.id, SubmittedEntry(r.form, lib));
          ghost var upserted := Upsert(before[key], r.id, SubmittedEntry(r.form, lib));
          assert zones == before[key := upserted];
          SortZone(key, lib);
          Overwrite(before, key, upserted, Sorting.SortBy(upserted, Utf8Key(lib)));
          writes := writes + 1;
          outcome := ToList;
        }
      }
    }
  }
}
