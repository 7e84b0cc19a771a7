/**
 * The part of the configuration the user manager works on: the user list
 * (system/user), the group list (system/group) and the uid counter
 * (system/nextuid), with the list operations the page performs on them:
 * deleting by index followed by array_values compaction, adding a uid to the
 * "all" group, and sorting by name.
 */
module UserConfig {
  import opened Php
  import Sorting

  /** The boolean per-user preferences that are stored as `true` or unset. */
  datatype Flag =
    | Disabled
    | CustomSettings
    | InterfacesSort
    | DashboardAvailableWidgetsPanel
    | SystemLogsFilterPanel
    | SystemLogsManageLogPanel
    | StatusMonitoringSettingsPanel
    | WebguiLeftColumnHyper
    | DisableAliasPopupDetail
    | PageNameFirst
    | KeepHistory

  /**
   * One entry of system/user. `scope` is "system" for built-in accounts (an
   * absent scope reads as ""); `cert` holds certificate refids and `priv`
   * privilege names. Keys PHP may leave unset are Options.
   */
  datatype User = User(
    name: string,
    scope: string,
    uid: int,
    descr: Option<string>,
    expires: Option<string>,
    dashboardColumns: Option<string>,
    authorizedKeys: Option<string>,
    ipsecPsk: Option<string>,
    flags: set<Flag>,
    webguiCss: Option<string>,
    webguiFixedMenu: Option<string>,
    webguiHostnameMenu: Option<string>,
    cert: seq<string>,
    priv: seq<string>)

  /** What PHP reads from a missing user (`config_get_path(..., [])`): no name, no scope. */
  const Blank: User := User("", "", 0, None, None, None, None, None, {}, None, None, None, [], [])

  /** One entry of system/group; `members` is None when the group has no member array. */
  datatype Group = Group(name: string, members: Option<seq<int>>)

  function Name(u: User): string
  {
    u.name
  }

  ghost predicate SortedByName(users: seq<User>)
  {
    Sorting.SortedBy(users, Name)
  }

  /** The counter is above every uid in use, so the next uid it hands out is fresh. */
  ghost predicate UidsBelow(users: seq<User>, nextUid: int)
  {
    forall u :: u in users ==> u.uid < nextUid
  }

  /** No two users share a name. */
  ghost predicate DistinctNames(users: seq<User>)
  {
    Sorting.DistinctBy(users, Name)
  }

  // ---------------------------------------------------------------------------
  // Deleting by index, then compacting with array_values

  /** The users list with the entries at the indices in `gone` removed, order kept. */
  function Without(users: seq<User>, gone: set<int>): (r: seq<User>)
    ensures |r| <= |users|
  {
    if users == [] then []
    else
      Without(users[..|users| - 1], gone)
      + (if |users| - 1 in gone then [] else [users[|users| - 1]])
  }

  /** The indices below n that are not in `gone`, in increasing order. */
  function Kept(n: nat, gone: set<int>): seq<int>
  {
    if n == 0 then [] else Kept(n - 1, gone) + (if n - 1 in gone then [] else [n - 1])
  }

  lemma {:induction false} KeptIndices(n: nat, gone: set<int>)
    ensures forall k :: 0 <= k < |Kept(n, gone)| ==> 0 <= Kept(n, gone)[k] < n
    ensures forall k, l :: 0 <= k < l < |Kept(n, gone)| ==> Kept(n, gone)[k] < Kept(n, gone)[l]
    ensures forall i :: i in Kept(n, gone) <==> 0 <= i < n && i !in gone
  {
    if n > 0 {
      KeptIndices(n - 1, gone);
    }
  }

  lemma {:induction false} KeptLength(users: seq<User>, gone: set<int>)
    ensures |Without(users, gone)| == |Kept(|users|, gone)|
  {
    if users != [] {
      KeptLength(users[..|users| - 1], gone);
    }
  }

  /** The k-th survivor of a deletion is the entry at the k-th kept index. */
  lemma {:induction false} WithoutAt(users: seq<User>, gone: set<int>, k: nat)
    requires k < |Without(users, gone)|
    ensures k < |Kept(|users|, gone)| && 0 <= Kept(|users|, gone)[k] < |users|
    ensures Without(users, gone)[k] == users[Kept(|users|, gone)[k]]
  {
    var n := |users|;
    var init := users[..n - 1];
    var w, kept := Without(init, gone), Kept(n - 1, gone);
    KeptLength(init, gone);
    KeptLength(users, gone);
    if k < |w| {
      WithoutAt(init, gone, k);
      assert init[kept[k]] == users[kept[k]];
      if n - 1 in gone {
        assert Without(users, gone) == w && Kept(n, gone) == kept;
      } else {
        assert Without(users, gone) == w + [users[n - 1]];
        assert Kept(n, gone) == kept + [n - 1];
      }
    } else {
      assert n - 1 !in gone;
      assert Without(users, gone) == w + [users[n - 1]];
      assert Kept(n, gone) == kept + [n - 1];
    }
  }

  /**
   * Deletion keeps exactly the entries whose index is not removed, in their
   * original order: the k-th survivor is the entry at the k-th kept index.
   */
  lemma WithoutIsKept(users: seq<User>, gone: set<int>)
    ensures |Without(users, gone)| == |Kept(|users|, gone)|
    ensures forall k :: 0 <= k < |Without(users, gone)| ==>
      0 <= Kept(|users|, gone)[k] < |users| && Without(users, gone)[k] == users[Kept(|users|, gone)[k]]
  {
    KeptLength(users, gone);
    forall k | 0 <= k < |Without(users, gone)|
      ensures 0 <= Kept(|users|, gone)[k] < |users| && Without(users, gone)[k] == users[Kept(|users|, gone)[k]]
    {
      WithoutAt(users, gone, k);
    }
  }

  lemma {:induction false} WithoutElements(users: seq<User>, gone: set<int>)
    ensures forall u :: u in Without(users, gone) ==> u in users
    ensures forall i :: 0 <= i < |users| && i !in gone ==> users[i] in Without(users, gone)
  {
    if users != [] {
      var init := users[..|users| - 1];
      WithoutElements(init, gone);
      assert forall i :: 0 <= i < |init| ==> init[i] == users[i];
    }
  }

  lemma {:induction false} WithoutNothing(users: seq<User>, gone: set<int>)
    requires forall i :: 0 <= i < |users| ==> i !in gone
    ensures Without(users, gone) == users
  {
    if users != [] {
      WithoutNothing(users[..|users| - 1], gone);
    }
  }

  /** Removing one index is the slice around it. */
  lemma {:induction false} WithoutOne(users: seq<User>, id: nat)
    requires id < |users|
    ensures Without(users, {id}) == users[..id] + users[id + 1..]
  {
    if id == |users| - 1 {
      WithoutNothing(users[..id], {id});
    } else {
      var init := users[..|users| - 1];
      WithoutOne(init, id);
      assert init[..id] == users[..id];
      assert init[id + 1..] + [users[|users| - 1]] == users[id + 1..];
    }
  }

  /** Deletion keeps the list sorted by name. */
  lemma WithoutKeepsOrder(users: seq<User>, gone: set<int>)
    requires SortedByName(users)
    ensures SortedByName(Without(users, gone))
  {
    WithoutIsKept(users, gone);
    KeptIndices(|users|, gone);
  }

  /** Deletion keeps the names distinct. */
  lemma WithoutKeepsDistinct(users: seq<User>, gone: set<int>)
    requires DistinctNames(users)
    ensures DistinctNames(Without(users, gone))
  {
    WithoutIsKept(users, gone);
    KeptIndices(|users|, gone);
  }

  /** The list as PHP holds it while entries are being unset: a hole is None. */
  function Slots(users: seq<User>, gone: set<int>): (slots: seq<Option<User>>)
    ensures |slots| == |users|
    ensures forall i :: 0 <= i < |users| ==> (slots[i].None? <==> i in gone)
    ensures forall i :: 0 <= i < |users| && slots[i].Some? ==> slots[i].value == users[i]
  {
    seq(|users|, i requires 0 <= i < |users| => if i in gone then None else Some(users[i]))
  }

  /** array_values: the present entries, in key order. */
  function Compact(slots: seq<Option<User>>): seq<User>
  {
    if slots == [] then []
    else
      Compact(slots[..|slots| - 1])
      + (match slots[|slots| - 1] case None => [] case Some(u) => [u])
  }

  /** Compacting after unsetting the indices in `gone` is deletion of those indices. */
  lemma {:induction false} CompactSlots(users: seq<User>, gone: set<int>)
    ensures Compact(Slots(users, gone)) == Without(users, gone)
  {
    if users != [] {
      var init := users[..|users| - 1];
      CompactSlots(init, gone);
      assert Slots(users, gone)[..|users| - 1] == Slots(init, gone);
    }
  }

  // ---------------------------------------------------------------------------
  // The "all" group

  /** The index of the first group named "all", or |groups| when there is none. */
  function FirstAll(groups: seq<Group>): (k: nat)
    ensures k <= |groups|
    ensures k < |groups| ==> groups[k].name == "all"
    ensures forall i :: 0 <= i < k ==> groups[i].name != "all"
  {
    if groups == [] then 0
    else if groups[0].name == "all" then 0
    else 1 + FirstAll(groups[1..])
  }

  function MembersOrEmpty(g: Group): seq<int>
  {
    if g.members.Some? then g.members.value else []
  }

  /** The groups after a new uid joins the first "all" group. */
  function WithAllMember(groups: seq<Group>, uid: int): seq<Group>
  {
    var k := FirstAll(groups);
    if k < |groups| then groups[k := groups[k].(members := Some(MembersOrEmpty(groups[k]) + [uid]))]
    else groups
  }

  /**
   * Joining "all": the first group named "all" gets the uid appended to its
   * member list (an empty list if it had none); every other group is
   * unchanged; with no "all" group nothing changes.
   */
  lemma WithAllMemberSpec(groups: seq<Group>, uid: int)
    ensures |WithAllMember(groups, uid)| == |groups|
    ensures forall i :: 0 <= i < |groups| && i != FirstAll(groups) ==> WithAllMember(groups, uid)[i] == groups[i]
    ensures FirstAll(groups) < |groups| ==>
      var g := WithAllMember(groups, uid)[FirstAll(groups)];
      g.name == "all" && g.members == Some(MembersOrEmpty(groups[FirstAll(groups)]) + [uid])
    ensures (forall i :: 0 <= i < |groups| ==> groups[i].name != "all") ==> WithAllMember(groups, uid) == groups
  {
  }

  // ---------------------------------------------------------------------------
  // Sorting by name

  /** usort by strcmp on the name. */
  function SortByName(users: seq<User>): (r: seq<User>)
    ensures SortedByName(r)
    ensures |r| == |users|
  {
    Sorting.SortBy(users, Name)
  }

  /** Sorting by name only reorders the users. */
  lemma SortByNamePermutes(users: seq<User>)
    ensures multiset(SortByName(users)) == multiset(users)
  {
    Sorting.SortByPermutes(users, Name);
  }

  lemma SortByNameKeepsUids(users: seq<User>, nextUid: int)
    requires UidsBelow(users, nextUid)
    ensures UidsBelow(SortByName(users), nextUid)
  {
    forall u | u in SortByName(users) ensures u.uid < nextUid {
      Sorting.SortByKeepsElements(users, Name, u);
    }
  }

  /** Sorting by name keeps the names distinct. */
  lemma SortByNameDistinct(users: seq<User>)
    requires DistinctNames(users)
    ensures DistinctNames(SortByName(users))
  {
    Sorting.SortByDistinct(users, Name, Name);
  }

  /** Replacing an entry by one that keeps its name or takes a name nobody has keeps the names distinct. */
  lemma ReplaceDistinct(users: seq<User>, id: nat, u: User)
    requires id < |users| && DistinctNames(users)
    requires u.name == users[id].name || forall k :: 0 <= k < |users| ==> users[k].name != u.name
    ensures DistinctNames(users[id := u])
  {
  }

  /** Appending a user whose name nobody has keeps the names distinct. */
  lemma AppendDistinct(users: seq<User>, u: User)
    requires DistinctNames(users) && forall k :: 0 <= k < |users| ==> users[k].name != u.name
    ensures DistinctNames(users + [u])
  {
    var r := users + [u];
    forall i, j | 0 <= i < j < |r| ensures Name(r[i]) != Name(r[j]) {
      assert r[i] == users[i];
    }
  }
}
