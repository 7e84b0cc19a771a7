/**
 * The POST handling of the user manager page: the read-only gate, deleting one
 * user, deleting a selection of users, removing a certificate or a privilege
 * from a user, and saving a user (validation, field rules, uid assignment,
 * joining the "all" group, sorting by name); and the numbering of the
 * privilege delete links in the user's privilege table.
 */
module UserManager {
  import opened Php
  import opened UserConfig
  import opened UserValidation

  // ---------------------------------------------------------------------------
  // Deleting a selection of users

  /** A user the bulk delete removes: not a system account and not the one logged in. */
  predicate Deletable(u: User, session: string)
  {
    u.scope != "system" && u.name != session
  }

  /**
   * What the bulk delete has done so far: the indices it unset, the errors it
   * reported and the names it recorded as deleted.
   */
  datatype Bulk = Bulk(gone: set<int>, errors: seq<Error>, names: seq<string>)

  /**
   * The user a selected index reads from the list while entries are being
   * unset: the stored one, or an empty record when the index is out of range
   * or was already unset.
   */
  function Seen(users: seq<User>, gone: set<int>, sid: int): User
  {
    if 0 <= sid < |users| && sid !in gone then users[sid] else Blank
  }

  /** One turn of the foreach over the selection. */
  function BulkStep(users: seq<User>, b: Bulk, sid: int, session: string): Bulk
  {
    var u := Seen(users, b.gone, sid);
    if u.scope == "system" then b.(errors := b.errors + [CannotDeleteSystem(u.name)])
    else if u.name == session then b.(errors := b.errors + [CannotDeleteSelf(u.name)])
    else Bulk(if 0 <= sid < |users| then b.gone + {sid} else b.gone, b.errors, b.names + [u.name])
  }

  /** The foreach over the whole selection, in selection order. */
  function BulkRun(users: seq<User>, sel: seq<int>, session: string): Bulk
  {
    if sel == [] then Bulk({}, [], [])
    else BulkStep(users, BulkRun(users, sel[..|sel| - 1], session), sel[|sel| - 1], session)
  }

  /** The stored indices a selection names whose user may be deleted. */
  ghost function SelectedDeletable(users: seq<User>, sel: seq<int>, session: string): set<int>
  {
    set i | 0 <= i < |users| && i in sel && Deletable(users[i], session)
  }

  /**
   * The bulk delete removes exactly the selected users that are neither system
   * accounts nor the logged-in user; every selection yields one error or one
   * deleted name; only the two delete errors are reported; and nothing is
   * removed without a name being recorded.
   */
  lemma {:induction false} BulkRunSpec(users: seq<User>, sel: seq<int>, session: string)
    ensures BulkRun(users, sel, session).gone == SelectedDeletable(users, sel, session)
    ensures |BulkRun(users, sel, session).errors| + |BulkRun(users, sel, session).names| == |sel|
    ensures forall e :: e in BulkRun(users, sel, session).errors ==> e.CannotDeleteSelf? || e.CannotDeleteSystem?
    ensures BulkRun(users, sel, session).gone != {} ==> BulkRun(users, sel, session).names != []
  {
    if sel != [] {
      var init, sid := sel[..|sel| - 1], sel[|sel| - 1];
      BulkRunSpec(users, init, session);
      var b := BulkRun(users, init, session);
      var g, g' := SelectedDeletable(users, init, session), SelectedDeletable(users, sel, session);
      assert sel == init + [sid];
      assert forall i :: i in sel <==> i in init || i == sid;
      if 0 <= sid < |users| && Deletable(users[sid], session) {
        assert g' == g + {sid};
      } else {
        assert g' == g;
      }
    }
  }

  /** What one selection reports about the user it reads: nothing when the user may be deleted, otherwise one error. */
  function Refusal(u: User, session: string): (r: seq<Error>)
    ensures r == [] <==> Deletable(u, session)
    ensures |r| <= 1
    ensures u.scope == "system" ==> r == [CannotDeleteSystem(u.name)]
    ensures u.scope != "system" && u.name == session ==> r == [CannotDeleteSelf(u.name)]
  {
    if u.scope == "system" then [CannotDeleteSystem(u.name)]
    else if u.name == session then [CannotDeleteSelf(u.name)]
    else []
  }

  /** The user an index names in the stored list (an empty record when it is out of range). */
  function Stored(users: seq<User>, sid: int): User
  {
    if 0 <= sid < |users| then users[sid] else Blank
  }

  /**
   * The errors of a selection, selection by selection in order: each one
   * reads the list as the earlier selections left it, so an index an earlier
   * selection deleted reads an empty record.
   */
  ghost function Refusals(users: seq<User>, sel: seq<int>, session: string): seq<Error>
  {
    if sel == [] then []
    else
      var init := sel[..|sel| - 1];
      Refusals(users, init, session)
        + Refusal(Seen(users, SelectedDeletable(users, init, session), sel[|sel| - 1]), session)
  }

  /** The names a selection records as deleted, selection by selection in order. */
  ghost function Removals(users: seq<User>, sel: seq<int>, session: string): seq<string>
  {
    if sel == [] then []
    else
      var init := sel[..|sel| - 1];
      var u := Seen(users, SelectedDeletable(users, init, session), sel[|sel| - 1]);
      Removals(users, init, session) + (if Deletable(u, session) then [u.name] else [])
  }

  /** The errors of a selection naming each index at most once: one per stored user that may not be deleted. */
  ghost function StoredRefusals(users: seq<User>, sel: seq<int>, session: string): seq<Error>
  {
    if sel == [] then []
    else StoredRefusals(users, sel[..|sel| - 1], session) + Refusal(Stored(users, sel[|sel| - 1]), session)
  }

  /** The selection names every index at most once, as the page's checkboxes do. */
  ghost predicate NoRepeats(sel: seq<int>)
  {
    forall i, j :: 0 <= i < j < |sel| ==> sel[i] != sel[j]
  }

  /**
   * Every selection adds, in selection order, exactly the error its user
   * draws (a system account or the logged-in user) or else exactly its name.
   */
  lemma {:induction false} BulkRunErrors(users: seq<User>, sel: seq<int>, session: string)
    ensures BulkRun(users, sel, session).errors == Refusals(users, sel, session)
    ensures BulkRun(users, sel, session).names == Removals(users, sel, session)
  {
    if sel != [] {
      var init := sel[..|sel| - 1];
      BulkRunErrors(users, init, session);
      BulkRunSpec(users, init, session);
    }
  }

  /**
   * For a selection that names no index twice, the errors are one per
   * selected stored user that is a system account or the logged-in user,
   * in selection order.
   */
  lemma {:induction false} DistinctSelectionErrors(users: seq<User>, sel: seq<int>, session: string)
    requires NoRepeats(sel)
    ensures BulkRun(users, sel, session).errors == StoredRefusals(users, sel, session)
  {
    if sel != [] {
      var init, sid := sel[..|sel| - 1], sel[|sel| - 1];
      assert NoRepeats(init) by {
        forall i, j | 0 <= i < j < |init| ensures init[i] != init[j] {
          assert init[i] == sel[i] && init[j] == sel[j];
        }
      }
      DistinctSelectionErrors(users, init, session);
      BulkRunSpec(users, init, session);
      assert sid !in SelectedDeletable(users, init, session) by {
        forall i | 0 <= i < |init| ensures init[i] != sid {
          assert init[i] == sel[i];
        }
      }
      assert Seen(users, BulkRun(users, init, session).gone, sid) == Stored(users, sid);
    }
  }

  /** Unsetting one more index of the slot view. */
  lemma SlotsUnset(users: seq<User>, gone: set<int>, sid: int)
    requires 0 <= sid < |users|
    ensures Slots(users, gone)[sid := None] == Slots(users, gone + {sid})
  {
  }

  /**
   * The foreach of the bulk delete on the slot view of the list: each
   * selected index reads its slot (an empty record when out of range or
   * already unset), is refused or recorded, and is unset when recorded.
   */
  method RunSelection(stored: seq<User>, sel: seq<int>, session: string)
    returns (slots: seq<Option<User>>, errors: seq<Error>, names: seq<string>)
    ensures var b := BulkRun(stored, sel, session);
      slots == Slots(stored, b.gone) && errors == b.errors && names == b.names
  {
    slots := Slots(stored, {});
    ghost var gone: set<int> := {};
    errors := [];
    names := [];
    for j := 0 to |sel|
      invariant Bulk(gone, errors, names) == BulkRun(stored, sel[..j], session)
      invariant slots == Slots(stored, gone)
    {
      assert sel[..j + 1][..j] == sel[..j];
      var sid := sel[j];
      var tmp := if 0 <= sid < |slots| && slots[sid].Some? then slots[sid].value else Blank;
      assert tmp == Seen(stored, gone, sid);
      if tmp.scope != "system" {
        if tmp.name == session {
          errors := errors + [CannotDeleteSelf(tmp.name)];
        } else {
          names := names + [tmp.name];
          if 0 <= sid < |slots| {
            SlotsUnset(stored, gone, sid);
            slots := slots[sid := None];
            gone := gone + {sid};
          }
        }
      } else {
        errors := errors + [CannotDeleteSystem(tmp.name)];
      }
    }
    assert sel[..|sel|] == sel;
  }

  /** Deleting entries keeps the uid bound and the name order. */
  lemma WithoutKeeps(users: seq<User>, gone: set<int>, nextUid: int)
    ensures UidsBelow(users, nextUid) ==> UidsBelow(Without(users, gone), nextUid)
    ensures SortedByName(users) ==> SortedByName(Without(users, gone))
  {
    WithoutElements(users, gone);
    if SortedByName(users) {
      WithoutKeepsOrder(users, gone);
    }
  }

  /** Unsetting one entry and reindexing is the list without it. */
  lemma DeleteOne(users: seq<User>, id: nat)
    requires id < |users|
    ensures Compact(Slots(users, {})[id := None]) == users[..id] + users[id + 1..]
    ensures users[..id] + users[id + 1..] == Without(users, {id})
  {
    SlotsUnset(users, {}, id);
    assert {} + {id} == {id};
    CompactSlots(users, {id});
    WithoutOne(users, id);
  }

  /** Replacing an entry by one with the same name and uid keeps the uid bound and the name order. */
  lemma ReplaceKeeps(users: seq<User>, id: nat, u: User, nextUid: int)
    requires id < |users| && u.name == users[id].name && u.uid == users[id].uid
    ensures UidsBelow(users, nextUid) ==> UidsBelow(users[id := u], nextUid)
    ensures SortedByName(users) ==> SortedByName(users[id := u])
    ensures DistinctNames(users) ==> DistinctNames(users[id := u])
  {
    assert forall i :: 0 <= i < |users| ==> Name(users[id := u][i]) == Name(users[i]);
    if DistinctNames(users) {
      ReplaceDistinct(users, id, u);
    }
    if UidsBelow(users, nextUid) {
      forall w | w in users[id := u] ensures w.uid < nextUid {
        var i :| 0 <= i < |users| && users[id := u][i] == w;
        assert i != id ==> w == users[i];
      }
    }
  }

  /** The list after a save keeps the uid bound (a new entry takes the old counter, which then moves on). */
  lemma SavedKeepsUids(users: seq<User>, id: nat, entry: User, nextUid: int)
    requires id < |users| && entry.uid == users[id].uid
    requires UidsBelow(users, nextUid)
    ensures UidsBelow(SortByName(users[id := entry]), nextUid)
  {
    forall w | w in users[id := entry] ensures w.uid < nextUid {
      var i :| 0 <= i < |users| && users[id := entry][i] == w;
      assert i != id ==> w == users[i];
    }
    SortByNameKeepsUids(users[id := entry], nextUid);
  }

  /** The list after saving an entry that keeps its name, or takes one nobody has, keeps the names distinct. */
  lemma SavedKeepsNames(users: seq<User>, id: nat, entry: User)
    requires id < |users|
    ensures DistinctNames(users) && (entry.name == users[id].name || forall k :: 0 <= k < |users| ==> users[k].name != entry.name)
      ==> DistinctNames(SortByName(users[id := entry]))
  {
    if DistinctNames(users) && (entry.name == users[id].name || forall k :: 0 <= k < |users| ==> users[k].name != entry.name) {
      ReplaceDistinct(users, id, entry);
      SortByNameDistinct(users[id := entry]);
    }
  }

  /** The list after appending a user whose name nobody has keeps the names distinct. */
  lemma CreatedKeepsNames(users: seq<User>, entry: User)
    ensures DistinctNames(users) && (forall k :: 0 <= k < |users| ==> users[k].name != entry.name)
      ==> DistinctNames(SortByName(users + [entry]))
  {
    if DistinctNames(users) && forall k :: 0 <= k < |users| ==> users[k].name != entry.name {
      AppendDistinct(users, entry);
      SortByNameDistinct(users + [entry]);
    }
  }

  lemma CreatedKeepsUids(users: seq<User>, entry: User, nextUid: int)
    requires UidsBelow(users, nextUid) && entry.uid == nextUid
    ensures UidsBelow(SortByName(users + [entry]), nextUid + 1)
    ensures forall u :: u in users ==> u.uid != entry.uid
  {
    SortByNameKeepsUids(users + [entry], nextUid + 1);
  }

  // ---------------------------------------------------------------------------
  // The privilege table

  /** One row of the privilege table: the group it is inherited from, if any, and its warning key. */
  datatype PrivRow = PrivRow(group: Option<string>, warn: Option<string>)

  /** A row of the user's own, rather than inherited from a group. */
  predicate OwnRow(row: PrivRow)
  {
    !TruthyField(row.group)
  }

  function OwnCount(rows: seq<PrivRow>): nat
  {
    if rows == [] then 0 else OwnCount(rows[..|rows| - 1]) + (if OwnRow(rows[|rows| - 1]) then 1 else 0)
  }

  /** The privilege ids the delete links carry, in table order. */
  function LinkIds(links: seq<Option<nat>>): seq<nat>
  {
    if links == [] then []
    else LinkIds(links[..|links| - 1]) + (match links[|links| - 1] case None => [] case Some(k) => [k])
  }

  /** 0, 1, ..., n - 1. */
  function Upto(n: nat): seq<nat>
  {
    if n == 0 then [] else Upto(n - 1) + [n - 1]
  }

  /**
   * The id each row's delete link carries: the number of own rows before it,
   * for an own row of a writable table; no link otherwise.
   */
  function PrivLinks(rows: seq<PrivRow>, readOnly: bool): (links: seq<Option<nat>>)
    ensures |links| == |rows|
  {
    if rows == [] then []
    else
      var n := |rows| - 1;
      PrivLinks(rows[..n], readOnly) + [if OwnRow(rows[n]) && !readOnly then Some(OwnCount(rows[..n])) else None]
  }

  /** A row has a delete link exactly when it is an own row of a writable table. */
  lemma {:induction false} PrivLinksRows(rows: seq<PrivRow>, readOnly: bool, k: nat)
    requires k < |rows|
    ensures PrivLinks(rows, readOnly)[k].Some? <==> OwnRow(rows[k]) && !readOnly
    ensures PrivLinks(rows, readOnly)[k].Some? ==> PrivLinks(rows, readOnly)[k].value == OwnCount(rows[..k])
  {
    var n := |rows| - 1;
    if k < n {
      PrivLinksRows(rows[..n], readOnly, k);
      assert rows[..n][..k] == rows[..k];
    }
  }

  /**
   * The delete links of a writable table carry 0, 1, 2, ... in order, one per
   * own row, so the n-th link names the n-th own privilege; a read-only table
   * carries none.
   */
  lemma {:induction false} LinkIdsConsecutive(rows: seq<PrivRow>, readOnly: bool)
    ensures LinkIds(PrivLinks(rows, readOnly)) == (if readOnly then [] else Upto(OwnCount(rows)))
  {
    if rows != [] {
      var n := |rows| - 1;
      LinkIdsConsecutive(rows[..n], readOnly);
      var init := PrivLinks(rows[..n], readOnly);
      var last := if OwnRow(rows[n]) && !readOnly then Some(OwnCount(rows[..n])) else None;
      var links := PrivLinks(rows, readOnly);
      assert links == init + [last];
      assert links[..n] == init;
      assert LinkIds(links) == LinkIds(init) + (match last case None => [] case Some(k) => [k]);
      assert OwnCount(rows) == OwnCount(rows[..n]) + (if OwnRow(rows[n]) then 1 else 0);
    }
  }

  /**
   * The counter loop of the privilege table: the id of every delete link, and
   * whether the administrator notice is shown.
   */
  method PrivDeleteLinks(rows: seq<PrivRow>, readOnly: bool) returns (links: seq<Option<nat>>, adminNotice: bool)
    ensures links == PrivLinks(rows, readOnly)
    ensures adminNotice <==> exists k :: 0 <= k < |rows| && rows[k].warn == Some("standard-warning-root")
  {
    var i: nat := 0;
    links := [];
    adminNotice := false;
    for k := 0 to |rows|
      invariant i == OwnCount(rows[..k])
      invariant links == PrivLinks(rows[..k], readOnly)
      invariant adminNotice <==> exists m :: 0 <= m < k && rows[m].warn == Some("standard-warning-root")
    {
      assert rows[..k + 1][..k] == rows[..k];
      var group := TruthyField(rows[k].group);
      if rows[k].warn.Some? && rows[k].warn.value == "standard-warning-root" {
        adminNotice := true;
      }
      if !group && !readOnly {
        links := links + [Some(i)];
      } else {
        links := links + [None];
      }
      if !group {
        i := i + 1;
      }
    }
    assert rows[..|rows|] == rows;
  }

  // ---------------------------------------------------------------------------
  // Saving a user

  /** The preference flags the save sets or clears, in the order the page handles them. */
  const PreferenceFlags: seq<Flag> := [
    Disabled, CustomSettings, InterfacesSort, DashboardAvailableWidgetsPanel, SystemLogsFilterPanel,
    SystemLogsManageLogPanel, StatusMonitoringSettingsPanel, WebguiLeftColumnHyper,
    DisableAliasPopupDetail, PageNameFirst, KeepHistory]

  /** Each preference flag is stored as true when its field is posted truthy and unset otherwise. */
  function PostedFlags(f: UserForm): set<Flag>
  {
    set flag | flag in PreferenceFlags && TruthyField(FlagField(f, flag))
  }

  lemma EveryPreferenceFlag(flag: Flag)
    ensures flag in PreferenceFlags
  {
    match flag
    case Disabled =>
    case CustomSettings =>
    case InterfacesSort =>
    case DashboardAvailableWidgetsPanel =>
    case SystemLogsFilterPanel =>
    case SystemLogsManageLogPanel =>
    case StatusMonitoringSettingsPanel =>
    case WebguiLeftColumnHyper =>
    case DisableAliasPopupDetail =>
    case PageNameFirst =>
    case KeepHistory =>
  }

  /** The entry after the save's field assignments have been applied to `base`. */
  function Submitted(base: User, f: UserForm, expires: Option<string>, encode: string -> string): User
  {
    User(
      name := Str(f.username),
      scope := if f.userType.Some? then f.userType.value else "system",
      uid := base.uid,
      descr := if f.descr.Some? then f.descr else base.descr,
      expires := expires,
      dashboardColumns := f.dashboardColumns,
      authorizedKeys := Some(encode(Str(f.authorizedKeys))),
      ipsecPsk := f.ipsecPsk,
      flags := PostedFlags(f),
      webguiCss := KeepIfTruthy(f.webguiCss),
      webguiFixedMenu := KeepIfTruthy(f.webguiFixedMenu),
      webguiHostnameMenu := KeepIfTruthy(f.webguiHostnameMenu),
      cert := base.cert,
      priv := base.priv)
  }

  /**
   * The save's field rules: the scope is the posted user type, "system" when
   * none is posted; the description changes only when one is sent; every
   * preference flag and the three menu preferences are present exactly when
   * posted truthy; the authorized keys are stored encoded; uid, certificates
   * and privileges are kept from the stored entry.
   */
  lemma SubmittedFields(base: User, f: UserForm, expires: Option<string>, encode: string -> string)
    ensures var u := Submitted(base, f, expires, encode);
      && u.name == Str(f.username)
      && (f.userType.Some? ==> u.scope == f.userType.value)
      && (f.userType.None? ==> u.scope == "system")
      && (f.descr.Some? ==> u.descr == f.descr)
      && (f.descr.None? ==> u.descr == base.descr)
      && u.expires == expires
      && u.dashboardColumns == f.dashboardColumns
      && u.authorizedKeys == Some(encode(Str(f.authorizedKeys)))
      && u.ipsecPsk == f.ipsecPsk
      && (forall flag :: flag in u.flags <==> TruthyField(FlagField(f, flag)))
      && (u.webguiCss.Some? <==> TruthyField(f.webguiCss)) && (u.webguiCss.Some? ==> u.webguiCss == f.webguiCss)
      && (u.webguiFixedMenu.Some? <==> TruthyField(f.webguiFixedMenu))
      && (u.webguiFixedMenu.Some? ==> u.webguiFixedMenu == f.webguiFixedMenu)
      && (u.webguiHostnameMenu.Some? <==> TruthyField(f.webguiHostnameMenu))
      && (u.webguiHostnameMenu.Some? ==> u.webguiHostnameMenu == f.webguiHostnameMenu)
      && u.uid == base.uid && u.cert == base.cert && u.priv == base.priv
  {
    var u := Submitted(base, f, expires, encode);
    forall flag ensures flag in u.flags <==> TruthyField(FlagField(f, flag)) {
      EveryPreferenceFlag(flag);
    }
  }

  /** A newly created entry: the submitted record, with the new certificate's refid when one was requested, and the uid. */
  function Created(u: User, certRef: string, withCert: bool, uid: int): (r: User)
    ensures r.uid == uid && r.name == u.name
    ensures r.cert == (if withCert then [certRef] else u.cert)
  {
    var u := if withCert then u.(cert := [certRef]) else u;
    u.(uid := uid)
  }

  /** The foreach over the groups that appends the uid to the first "all" group and stops. */
  method AddToAllGroup(groups: seq<Group>, uid: int) returns (r: seq<Group>)
    ensures r == WithAllMember(groups, uid)
  {
    r := groups;
    var k := 0;
    while k < |r|
      invariant 0 <= k <= |r| && r == groups
      invariant forall i :: 0 <= i < k ==> groups[i].name != "all"
    {
      if r[k].name == "all" {
        var members := if r[k].members.Some? then r[k].members.value else [];
        r := r[k := r[k].(members := Some(members + [uid]))];
        assert FirstAll(groups) == k by {
          FirstAllIs(groups, k);
        }
        return;
      }
      k := k + 1;
    }
    assert FirstAll(groups) == |groups| by {
      FirstAllIs(groups, |groups|);
    }
  }

  /** FirstAll is the index of the first "all" group. */
  lemma {:induction false} FirstAllIs(groups: seq<Group>, k: nat)
    requires k <= |groups|
    requires forall i :: 0 <= i < k ==> groups[i].name != "all"
    requires k < |groups| ==> groups[k].name == "all"
    ensures FirstAll(groups) == k
  {
    if groups != [] && k > 0 {
      FirstAllIs(groups[1..], k - 1);
    }
  }

  /** The page's outcome: a redirect that ends the request, a redirect after a save, or the page shown. */
  datatype Outcome = Exited | Redirected | Shown

  /** The request fields the POST branches read; the save form is the posted user record. */
  datatype Request = Request(
    nonEmpty: bool,              // $_POST is not empty
    act: Option<string>,         // $_POST['act']
    userId: Option<nat>,         // $_REQUEST['userid'] when it is a non-negative integer
    username: Option<string>,    // $_POST['username'] of the single delete
    dellall: bool,               // isset($_POST['dellall'])
    deleteCheck: seq<int>,       // $_POST['delete_check'], the selected indices
    certId: Option<int>,         // $_POST['certid']
    privId: Option<int>,         // $_POST['privid']
    save: Option<string>,        // $_POST['save']
    form: UserForm)

  /** Removes index k when it names an element, and otherwise changes nothing. */
  function RemoveAt<T>(s: seq<T>, k: Option<int>): (r: seq<T>)
    ensures k.Some? && 0 <= k.value < |s| ==> |r| == |s| - 1 && r == s[..k.value] + s[k.value + 1..]
    ensures !(k.Some? && 0 <= k.value < |s|) ==> r == s
  {
    if k.Some? && 0 <= k.value < |s| then s[..k.value] + s[k.value + 1..] else s
  }

  /** What the bulk delete leaves: the compacted slots are the list without the deleted indices, which is the stored list when no name was recorded; uids and name order survive. */
  lemma BulkDeleteEffect(stored: seq<User>, sel: seq<int>, session: string, nextUid: int)
    ensures var b := BulkRun(stored, sel, session);
      var after := if b.names != [] then Compact(Slots(stored, b.gone)) else stored;
      && after == Without(stored, b.gone)
      && (UidsBelow(stored, nextUid) ==> UidsBelow(after, nextUid))
      && (SortedByName(stored) ==> SortedByName(after))
      && (DistinctNames(stored) ==> DistinctNames(after))
  {
    var gone := BulkRun(stored, sel, session).gone;
    BulkRunSpec(stored, sel, session);
    CompactSlots(stored, gone);
    WithoutKeeps(stored, gone, nextUid);
    if DistinctNames(stored) {
      WithoutKeepsDistinct(stored, gone);
    }
    if gone == {} {
      WithoutNothing(stored, gone);
    }
  }

  /**
   * The selection loop followed by array_values: the list after the unsets,
   * the errors reported and whether any name was recorded (only then does the
   * page reindex and write).
   */
  method BulkDelete(stored: seq<User>, sel: seq<int>, session: string, ghost nextUid: int)
    returns (after: seq<User>, errors: seq<Error>, changed: bool)
    ensures var b := BulkRun(stored, sel, session);
      && after == Without(stored, b.gone)
      && errors == b.errors
      && errors == Refusals(stored, sel, session)
      && (changed <==> b.names != [])
      && (!changed ==> after == stored)
      && (UidsBelow(stored, nextUid) ==> UidsBelow(after, nextUid))
      && (SortedByName(stored) ==> SortedByName(after))
      && (DistinctNames(stored) ==> DistinctNames(after))
  {
    var slots, names;
    slots, errors, names := RunSelection(stored, sel, session);
    BulkDeleteEffect(stored, sel, session, nextUid);
    BulkRunErrors(stored, sel, session);
    changed := names != [];
    after := if changed then Compact(slots) else stored;
  }

  /**
   * The local user database as the page sees it: system/user, system/group,
   * system/nextuid and the refids of the certificates in the cert list; the
   * page's input and delete error lists; and the number of configuration
   * writes so far.
   */
  class UserDatabase {
    var users: seq<User>
    var groups: seq<Group>
    var nextUid: int
    var certRefs: seq<string>
    var inputErrors: seq<Error>
    var deleteErrors: seq<Error>
    var writes: nat

    /** Every uid in use is below the counter. */
    ghost predicate Valid()
      reads this`users, this`nextUid
    {
      UidsBelow(users, nextUid)
    }

    /** No two stored users share a name. */
    ghost predicate UniqueNames()
      reads this`users
    {
      DistinctNames(users)
    }

    constructor (users: seq<User>, groups: seq<Group>, nextUid: int, certRefs: seq<string>)
      ensures this.users == users && this.groups == groups && this.nextUid == nextUid
      ensures this.certRefs == certRefs && inputErrors == [] && deleteErrors == [] && writes == 0
    {
      this.users := users;
      this.groups := groups;
      this.nextUid := nextUid;
      this.certRefs := certRefs;
      inputErrors := [];
      deleteErrors := [];
      writes := 0;
    }

    /**
     * act=deluser: redirect and stop unless a username is posted, the id
     * names a stored user and the names agree; refuse to delete the
     * logged-in user; otherwise unset the entry, reindex and write.
     */
    method DeleteUser(id: Option<nat>, posted: Option<string>, session: string) returns (exited: bool)
      modifies this`users, this`deleteErrors, this`writes
      ensures exited <==> posted.None? || id.None? || id.value >= |old(users)| || posted.value != old(users)[id.value].name
      ensures exited ==> users == old(users) && deleteErrors == old(deleteErrors) && writes == old(writes)
      ensures !exited && posted.value == session ==>
        users == old(users) && deleteErrors == old(deleteErrors) + [CannotDeleteSelf(posted.value)] && writes == old(writes)
      ensures !exited && posted.value != session ==>
        users == old(users)[..id.value] + old(users)[id.value + 1..] && deleteErrors == old(deleteErrors) && writes == old(writes) + 1
      ensures old(Valid()) ==> Valid()
      ensures old(SortedByName(users)) ==> SortedByName(users)
      ensures old(UniqueNames()) ==> UniqueNames()
    {
      if posted.None? || id.None? || id.value >= |users| || posted.value != users[id.value].name {
        return true;
      }
      exited := false;
      if posted.value == session {
        deleteErrors := deleteErrors + [CannotDeleteSelf(posted.value)];
      } else {
        var slots := Slots(users, {});
        slots := slots[id.value := None];
        DeleteOne(users, id.value);
        WithoutKeeps(users, {id.value}, nextUid);
        if DistinctNames(users) {
          WithoutKeepsDistinct(users, {id.value});
        }
        users := Compact(slots);
        writes := writes + 1;
      }
    }

    /**
     * dellall: for each selected index, in order, report a system user or the
     * logged-in user and otherwise record the name and unset the entry; when
     * some name was recorded, reindex and write.
     */
    method DeleteSelected(sel: seq<int>, session: string)
      modifies this`users, this`deleteErrors, this`writes
      ensures var b := BulkRun(old(users), sel, session);
        && users == Without(old(users), b.gone)
        && deleteErrors == old(deleteErrors) + b.errors
        && writes == old(writes) + (if b.names != [] then 1 else 0)
      ensures deleteErrors == old(deleteErrors) + Refusals(old(users), sel, session)
      ensures old(Valid()) ==> Valid()
      ensures old(SortedByName(users)) ==> SortedByName(users)
      ensures old(UniqueNames()) ==> UniqueNames()
    {
      var after, errors, changed := BulkDelete(users, sel, session, nextUid);
      if changed {
        users := after;
        writes := writes + 1;
      }
      deleteErrors := deleteErrors + errors;
    }

    /**
     * act=delcert: redirect and stop unless the id names a stored user;
     * otherwise drop the certificate reference at certid (when there is one)
     * and write.
     */
    method DeleteCert(id: Option<nat>, certId: Option<int>) returns (exited: bool)
      modifies this`users, this`writes
      ensures exited <==> id.None? || id.value >= |old(users)|
      ensures exited ==> users == old(users) && writes == old(writes)
      ensures !exited ==>
        users == old(users)[id.value := old(users)[id.value].(cert := RemoveAt(old(users)[id.value].cert, certId))]
        && writes == old(writes) + 1
      ensures old(Valid()) ==> Valid()
      ensures old(SortedByName(users)) ==> SortedByName(users)
      ensures old(UniqueNames()) ==> UniqueNames()
    {
      if id.None? || id.value >= |users| {
        return true;
      }
      exited := false;
      var u := users[id.value];
      ReplaceKeeps(users, id.value, u.(cert := RemoveAt(u.cert, certId)), nextUid);
      users := users[id.value := u.(cert := RemoveAt(u.cert, certId))];
      writes := writes + 1;
    }

    /**
     * act=delprivid with an id: drop the privilege at privid of that user
     * (when both exist) and write.
     */
    method DeletePriv(id: nat, privId: Option<int>)
      modifies this`users, this`writes
      ensures id < |old(users)| ==>
        users == old(users)[id := old(users)[id].(priv := RemoveAt(old(users)[id].priv, privId))]
      ensures id >= |old(users)| ==> users == old(users)
      ensures writes == old(writes) + 1
      ensures old(Valid()) ==> Valid()
      ensures old(SortedByName(users)) ==> SortedByName(users)
      ensures old(UniqueNames()) ==> UniqueNames()
    {
      if id < |users| {
        var u := users[id];
        ReplaceKeeps(users, id, u.(priv := RemoveAt(u.priv, privId)), nextUid);
        users := users[id := u.(priv := RemoveAt(u.priv, privId))];
      }
      writes := writes + 1;
    }

    /** The edit half of a successful save: store the entry in place, sort by name and write. */
    method StoreEdited(i: nat, entry: User)
      requires i < |users| && entry.uid == users[i].uid
      modifies this`users, this`writes
      ensures users == SortByName(old(users)[i := entry]) && writes == old(writes) + 1
      ensures old(Valid()) ==> Valid()
      ensures old(UniqueNames()) && (entry.name == old(users)[i].name || forall k :: 0 <= k < |old(users)| ==> old(users)[k].name != entry.name)
        ==> UniqueNames()
    {
      if Valid() {
        SavedKeepsUids(users, i, entry, nextUid);
      }
      SavedKeepsNames(users, i, entry);
      users := SortByName(users[i := entry]);
      writes := writes + 1;
    }

    /**
     * The create half of a successful save: attach the certificate when one
     * was requested, take the next uid, join the "all" group, append, sort by
     * name and write.
     */
    method StoreNew(entry: User, certRef: string, withCert: bool)
      modifies this`users, this`groups, this`nextUid, this`certRefs, this`writes
      ensures users == SortByName(old(users) + [Created(entry, certRef, withCert, old(nextUid))])
      ensures groups == WithAllMember(old(groups), old(nextUid)) && nextUid == old(nextUid) + 1
      ensures certRefs == old(certRefs) + (if withCert then [certRef] else [])
      ensures writes == old(writes) + 1
      ensures old(Valid()) ==> Valid()
      ensures old(Valid()) ==> forall u :: u in old(users) ==> u.uid != old(nextUid)
      ensures old(UniqueNames()) && (forall k :: 0 <= k < |old(users)| ==> old(users)[k].name != entry.name) ==> UniqueNames()
    {
      var u := entry;
      if withCert {
        certRefs := certRefs + [certRef];
        u := u.(cert := [certRef]);
      }
      u := u.(uid := nextUid);
      if Valid() {
        CreatedKeepsUids(users, u, nextUid);
      }
      CreatedKeepsNames(users, u);
      nextUid := nextUid + 1;
      groups := AddToAllGroup(groups, u.uid);
      users := SortByName(users + [u]);
      writes := writes + 1;
    }

    /**
     * What a valid submission does to the configuration: the entry at id is
     * rebuilt from the form, or a new user is appended; then the list is sorted
     * by name and written. sshd is restarted when the stored entry is root's.
     */
    method Commit(id: Option<nat>, f: UserForm, expires: Option<string>, encode: string -> string, certRef: string)
      returns (restartSshd: bool)
      modifies this`users, this`groups, this`nextUid, this`certRefs, this`writes
      ensures Editing(old(users), id) ==>
        var entry := Submitted(old(users)[id.value], f, expires, encode);
        && users == SortByName(old(users)[id.value := entry])
        && groups == old(groups) && nextUid == old(nextUid) && certRefs == old(certRefs)
        && (restartSshd <==> entry.uid == 0)
      ensures !Editing(old(users), id) ==>
        var entry := Submitted(Blank, f, expires, encode);
        && users == SortByName(old(users) + [Created(entry, certRef, TruthyField(f.certName), old(nextUid))])
        && groups == WithAllMember(old(groups), old(nextUid))
        && nextUid == old(nextUid) + 1
        && certRefs == old(certRefs) + (if TruthyField(f.certName) then [certRef] else [])
        && (restartSshd <==> old(nextUid) == 0)
      ensures writes == old(writes) + 1 && SortedByName(users)
      ensures old(Valid()) ==> Valid()
      ensures old(UniqueNames()) && NameFree(old(users), id, Str(f.username)) ==> UniqueNames()
    {
      if id.Some? && id.value < |users| {
        var entry := Submitted(users[id.value], f, expires, encode);
        restartSshd := entry.uid == 0;
        StoreEdited(id.value, entry);
      } else {
        restartSshd := nextUid == 0;
        StoreNew(Submitted(Blank, f, expires, encode), certRef, TruthyField(f.certName));
      }
    }

    /**
     * save: run the validation chain; on success update the edited entry, or
     * create one; the users end up sorted by name. Returns whether sshd is
     * restarted (the saved uid is 0).
     */
    method Save(id: Option<nat>, f: UserForm, v: Validators, accounts: seq<string>, certRef: string)
      returns (saved: bool, restartSshd: bool)
      modifies this`users, this`groups, this`nextUid, this`certRefs, this`writes, this`inputErrors
      ensures inputErrors == SaveErrors(old(users), id, f, v, accounts)
      ensures saved <==> inputErrors == []
      ensures !saved ==>
        users == old(users) && groups == old(groups) && nextUid == old(nextUid)
        && certRefs == old(certRefs) && writes == old(writes) && !restartSshd
      ensures saved && Editing(old(users), id) ==>
        var entry := Submitted(old(users)[id.value], f, ExpiresAfter(f, v), v.base64Encode);
        && users == SortByName(old(users)[id.value := entry])
        && groups == old(groups) && nextUid == old(nextUid) && certRefs == old(certRefs)
        && (restartSshd <==> entry.uid == 0)
      ensures saved && !Editing(old(users), id) ==>
        var entry := Submitted(Blank, f, ExpiresAfter(f, v), v.base64Encode);
        && users == SortByName(old(users) + [Created(entry, certRef, TruthyField(f.certName), old(nextUid))])
        && groups == WithAllMember(old(groups), old(nextUid))
        && nextUid == old(nextUid) + 1
        && certRefs == old(certRefs) + (if TruthyField(f.certName) then [certRef] else [])
        && (restartSshd <==> old(nextUid) == 0)
      ensures saved ==> writes == old(writes) + 1 && SortedByName(users)
      ensures old(Valid()) ==> Valid()
      ensures old(UniqueNames()) ==> UniqueNames()
    {
      var errors, expires := ValidateSave(users, id, f, v, accounts);
      inputErrors := errors;
      if errors != [] {
        return false, false;
      }
      saved := true;
      AcceptedNameFree(users, id, f, v, accounts);
      restartSshd := Commit(id, f, expires, v.base64Encode, certRef);
    }

    /**
     * The POST branches in page order: the read-only gate, deluser (which may
     * end the request), dellall, delcert (which may end the request),
     * delprivid and save. The system account names come from /etc/passwd
     * and certRef is the refid a new certificate gets.
     */
    method HandlePost(r: Request, session: string, readOnly: bool, v: Validators, accounts: seq<string>, certRef: string)
      returns (outcome: Outcome, restartSshd: bool)
      modifies this
      ensures readOnly ==>
        users == old(users) && groups == old(groups) && nextUid == old(nextUid) && certRefs == old(certRefs)
        && deleteErrors == old(deleteErrors) && writes == old(writes)
        && inputErrors == (if r.nonEmpty then [ReadOnly] else old(inputErrors))
        && outcome == Shown && !restartSshd
      ensures !readOnly && r.act == Some("deluser") && (r.username.None? || r.userId.None?) ==>
        outcome == Exited && users == old(users) && writes == old(writes)
      ensures outcome == Redirected ==> inputErrors == [] && SortedByName(users)
      ensures writes >= old(writes)
      ensures old(Valid()) ==> Valid()
      ensures old(SortedByName(users)) ==> SortedByName(users)
      ensures old(UniqueNames()) ==> UniqueNames()
    {
      outcome := Shown;
      restartSshd := false;
      // Every branch below is guarded by !$read_only, so a read-only request stops here.
      if readOnly {
        if r.nonEmpty {
          inputErrors := [ReadOnly];
        }
        return;
      }
      var act := r.act;
      if act == Some("deluser") {
        var exited := DeleteUser(r.userId, r.username, session);
        if exited {
          return Exited, false;
        }
      }
      if r.dellall {
        DeleteSelected(r.deleteCheck, session);
      }
      if act == Some("delcert") {
        var exited := DeleteCert(r.userId, r.certId);
        if exited {
          return Exited, false;
        }
        act := Some("edit");
      }
      if act == Some("delprivid") && r.userId.Some? {
        DeletePriv(r.userId.value, r.privId);
        act := Some("edit");
      }
      if TruthyField(r.save) {
        var saved;
        saved, restartSshd := Save(r.userId, r.form, v, accounts, certRef);
        if saved {
          outcome := Redirected;
        }
      }
    }
  }
}
