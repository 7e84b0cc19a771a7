/**
 * The validation chain of the user manager's save branch: which errors a
 * submission collects, in which order, and which checks run only when no
 * earlier check has failed.
 */
module UserValidation {
  import opened Php
  import opened UserConfig

  /** The messages the page can show, in the order they are collected. */
  datatype Error =
    | ReadOnly                          // "Insufficient privileges to make the requested change (read only)."
    | CannotDeleteSelf(user: string)    // "Cannot delete user %s because you are currently logged in as that user."
    | CannotDeleteSystem(user: string)  // "Cannot delete user %s because it is a system user."
    | Required(field: string)           // "The field %s is required."
    | InvalidChars                      // "The username contains invalid characters."
    | TooLong                           // "The username is longer than 32 characters."
    | PasswordMismatch                  // "The passwords do not match."
    | InvalidPsk                        // "IPsec Pre-Shared Key contains invalid characters."
    | PasswordPolicy(message: string)   // a message from validate_password
    | InvalidGroup                      // "One or more invalid groups was submitted."
    | NotUnique                         // "Another entry with the same username already exists."
    | Reserved                          // "That username is reserved by the system."
    | InvalidExpiry                     // "Invalid expiration date format; use MM/DD/YYYY instead."
    | InvalidCa                         // "Invalid internal Certificate Authority"
    | WebguiField(message: string)      // a message from a validate_webgui*_field check

  /**
   * The posted fields the save branch reads (POST names in comments); None is
   * a field that was not sent. `flags` maps each boolean preference to the
   * value posted for it, if any.
   */
  datatype UserForm = UserForm(
    username: Option<string>,           // usernamefld
    password1: Option<string>,          // passwordfld1
    password2: Option<string>,          // passwordfld2
    certName: Option<string>,           // name: descriptive name of a certificate to create
    caRef: Option<string>,              // caref
    keyLength: Option<string>,          // keylen
    lifetime: Option<string>,           // lifetime
    ipsecPsk: Option<string>,           // ipsecpsk
    groups: Option<seq<string>>,        // groups[] (None when not an array)
    expires: Option<string>,            // expires
    webguiCss: Option<string>,          // webguicss
    webguiFixedMenu: Option<string>,    // webguifixedmenu
    webguiHostnameMenu: Option<string>, // webguihostnamemenu
    dashboardColumns: Option<string>,   // dashboardcolumns
    userType: Option<string>,           // utype
    descr: Option<string>,              // descr
    authorizedKeys: Option<string>,     // authorizedkeys
    flags: map<Flag, string>)           // disabled, customsettings, interfacessort, ...

  /**
   * Library checks whose logic lies outside the page, as opaque functions:
   * validate_password, DateTime parsing followed by format("m/d/Y") (None when
   * DateTime throws), lookup_ca finding a CA, getGroupEntry finding a group,
   * the four validate_webgui*_field checks, and base64_encode.
   */
  datatype Validators = Validators(
    validatePassword: (string, string) -> seq<string>,
    parseDate: string -> Option<string>,
    caExists: string -> bool,
    groupExists: string -> bool,
    checkCss: Option<string> -> seq<string>,
    checkFixedMenu: Option<string> -> seq<string>,
    checkHostnameMenu: Option<string> -> seq<string>,
    checkColumns: Option<string> -> seq<string>,
    base64Encode: string -> string)

  function FlagField(f: UserForm, flag: Flag): Option<string>
  {
    if flag in f.flags then Some(f.flags[flag]) else None
  }

  /** The save edits an existing entry when the request's id names one. */
  predicate Editing(users: seq<User>, id: Option<nat>)
  {
    id.Some? && id.value < |users|
  }

  /** The stored name of the entry being edited, or "" when there is none. */
  function OldUsername(users: seq<User>, id: Option<nat>): (r: string)
    ensures Editing(users, id) ==> r == users[id.value].name
    ensures !Editing(users, id) ==> r == ""
  {
    if Editing(users, id) then users[id.value].name else ""
  }

  function Names(users: seq<User>): (r: seq<string>)
    ensures |r| == |users|
    ensures forall i :: 0 <= i < |users| ==> r[i] == users[i].name
  {
    seq(|users|, i requires 0 <= i < |users| => users[i].name)
  }

  // ---------------------------------------------------------------------------
  // Individual checks

  /** The characters `[a-zA-Z0-9._-]` allowed in a username. */
  predicate UsernameChar(c: char)
  {
    ('a' <= c <= 'z') || ('A' <= c <= 'Z') || ('0' <= c <= '9') || c == '.' || c == '-' || c == '_'
  }

  /** preg_match("/[^a-zA-Z0-9\.\-_]/", name) finds a match. */
  predicate HasInvalidChar(name: string)
  {
    exists i :: 0 <= i < |name| && !UsernameChar(name[i])
  }

  /** The fields do_input_validation must find non-empty. */
  function RequiredFields(editing: bool, f: UserForm): seq<(string, Option<string>)>
  {
    if editing then [("Username", f.username)]
    else if !TruthyField(f.certName) then [("Username", f.username), ("Password", f.password1)]
    else
      [("Username", f.username), ("Password", f.password1), ("Descriptive name", f.certName),
       ("Certificate authority", f.caRef), ("Key length", f.keyLength), ("Lifetime", f.lifetime)]
  }

  /** One "required" error per listed field that is absent or "", in list order. */
  function RequiredErrors(fields: seq<(string, Option<string>)>): (r: seq<Error>)
    ensures |r| <= |fields|
    ensures forall i :: 0 <= i < |r| ==> r[i].Required?
  {
    if fields == [] then []
    else
      var rest := RequiredErrors(fields[1..]);
      assert forall k :: 0 < k < |fields| ==> fields[k] == fields[1..][k - 1];
      (if LooseEmpty(fields[0].1) then [Required(fields[0].0)] else []) + rest
  }

  /** A field is reported as required exactly when it is listed and empty. */
  lemma {:induction false} RequiredErrorsNames(fields: seq<(string, Option<string>)>, l: string)
    ensures Required(l) in RequiredErrors(fields) <==> exists k :: 0 <= k < |fields| && fields[k].0 == l && LooseEmpty(fields[k].1)
  {
    if fields != [] {
      RequiredErrorsNames(fields[1..], l);
      assert forall k :: 0 < k < |fields| ==> fields[k] == fields[1..][k - 1];
      if exists k :: 0 <= k < |fields[1..]| && fields[1..][k].0 == l && LooseEmpty(fields[1..][k].1) {
        var k :| 0 <= k < |fields[1..]| && fields[1..][k].0 == l && LooseEmpty(fields[1..][k].1);
        assert fields[k + 1] == fields[1..][k];
      }
    }
  }

  /** One InvalidGroup per submitted group the lookup does not find. */
  function GroupErrors(names: seq<string>, groupExists: string -> bool): (r: seq<Error>)
    ensures forall i :: 0 <= i < |r| ==> r[i] == InvalidGroup
  {
    if names == [] then []
    else
      GroupErrors(names[..|names| - 1], groupExists)
      + (if groupExists(names[|names| - 1]) then [] else [InvalidGroup])
  }

  /** There are as many group errors as submitted names the lookup does not find. */
  lemma {:induction false} GroupErrorsCount(names: seq<string>, groupExists: string -> bool)
    ensures |GroupErrors(names, groupExists)| == |set i | 0 <= i < |names| && !groupExists(names[i])|
  {
    if names != [] {
      var init := names[..|names| - 1];
      GroupErrorsCount(init, groupExists);
      var before := set i | 0 <= i < |init| && !groupExists(init[i]);
      var all := set i | 0 <= i < |names| && !groupExists(names[i]);
      if groupExists(names[|names| - 1]) {
        assert all == before;
      } else {
        assert all == before + {|names| - 1};
      }
    }
  }

  function PolicyErrors(messages: seq<string>): (r: seq<Error>)
    ensures |r| == |messages|
    ensures forall i :: 0 <= i < |r| ==> r[i].PasswordPolicy?
  {
    seq(|messages|, i requires 0 <= i < |messages| => PasswordPolicy(messages[i]))
  }

  function WebguiErrors(messages: seq<string>): (r: seq<Error>)
    ensures |r| == |messages|
    ensures forall i :: 0 <= i < |r| ==> r[i].WebguiField?
  {
    seq(|messages|, i requires 0 <= i < |messages| => WebguiField(messages[i]))
  }

  /** A stored name equal to the submitted one, when the entry is not keeping its own name. */
  predicate Clash(names: seq<string>, submitted: string, oldName: string)
  {
    submitted in names && oldName != submitted
  }

  /** The expiry that is stored: a truthy one is rewritten by DateTime into MM/DD/YYYY. */
  function ExpiresAfter(f: UserForm, v: Validators): (r: Option<string>)
    ensures !TruthyField(f.expires) ==> r == f.expires
  {
    if TruthyField(f.expires) && v.parseDate(f.expires.value).Some? then v.parseDate(f.expires.value)
    else f.expires
  }

  // ---------------------------------------------------------------------------
  // The whole chain

  function CharsetErrors(name: string): (r: seq<Error>)
    ensures r == [] || r == [InvalidChars]
    ensures r != [] <==> HasInvalidChar(name)
  {
    if HasInvalidChar(name) then [InvalidChars] else []
  }

  function LengthErrors(name: string): (r: seq<Error>)
    ensures r == [] || r == [TooLong]
    ensures r != [] <==> Utf8Length(name) > 32
  {
    if Utf8Length(name) > 32 then [TooLong] else []
  }

  function MismatchErrors(f: UserForm): (r: seq<Error>)
    ensures r == [] || r == [PasswordMismatch]
    ensures r != [] <==> TruthyField(f.password1) && f.password1.value != Str(f.password2)
  {
    if TruthyField(f.password1) && f.password1.value != Str(f.password2) then [PasswordMismatch] else []
  }

  function PskErrors(f: UserForm): (r: seq<Error>)
    ensures r == [] || r == [InvalidPsk]
    ensures r != [] <==> f.ipsecPsk.Some? && !IsAscii(f.ipsecPsk.value)
  {
    if f.ipsecPsk.Some? && !IsAscii(f.ipsecPsk.value) then [InvalidPsk] else []
  }

  function SubmittedGroupErrors(f: UserForm, v: Validators): (r: seq<Error>)
    ensures forall i :: 0 <= i < |r| ==> r[i] == InvalidGroup
  {
    if f.groups.Some? then GroupErrors(f.groups.value, v.groupExists) else []
  }

  /** The errors collected before the uniqueness check. */
  ghost function EarlyErrors(users: seq<User>, id: Option<nat>, f: UserForm, v: Validators): seq<Error>
  {
    var name := Str(f.username);
    RequiredErrors(RequiredFields(Editing(users, id), f))
    + CharsetErrors(name)
    + LengthErrors(name)
    + MismatchErrors(f)
    + PskErrors(f)
    + PolicyErrors(v.validatePassword(name, Str(f.password1)))
    + SubmittedGroupErrors(f, v)
  }

  /** The errors collected after the reserved-name check. */
  ghost function LateErrors(f: UserForm, v: Validators): seq<Error>
  {
    (if TruthyField(f.expires) && v.parseDate(f.expires.value).None? then [InvalidExpiry] else [])
    + (if TruthyField(f.certName) && !v.caExists(Str(f.caRef)) then [InvalidCa] else [])
    + WebguiErrors(v.checkCss(f.webguiCss) + v.checkFixedMenu(f.webguiFixedMenu)
                   + v.checkHostnameMenu(f.webguiHostnameMenu) + v.checkColumns(f.dashboardColumns))
  }

  /**
   * How the segments are joined: the uniqueness error is added only when no
   * early error exists and the name is taken, the reserved-name error only
   * when neither of those errors was added and the name is a system account.
   */
  function Chain(early: seq<Error>, taken: bool, reserved: bool, late: seq<Error>): seq<Error>
  {
    early
    + (if early == [] && taken then [NotUnique] else [])
    + (if early == [] && !taken && reserved then [Reserved] else [])
    + late
  }

  /**
   * The ordered error list of a save request, given the stored users, the
   * request's id, the submission, the library checks and the system account
   * names.
   */
  ghost function SaveErrors(users: seq<User>, id: Option<nat>, f: UserForm, v: Validators, accounts: seq<string>): seq<Error>
  {
    var name, oldName := Str(f.username), OldUsername(users, id);
    Chain(EarlyErrors(users, id, f, v), Clash(Names(users), name, oldName), Clash(accounts, name, oldName), LateErrors(f, v))
  }

  // ---------------------------------------------------------------------------
  // The checks as the page runs them

  /** The foreach over stored names that stops at the first clash. */
  method FindClash(names: seq<string>, submitted: string, oldName: string) returns (found: bool)
    ensures found <==> Clash(names, submitted, oldName)
  {
    found := false;
    var i := 0;
    while i < |names|
      invariant 0 <= i <= |names|
      invariant !found ==> submitted !in names[..i] || oldName == submitted
      invariant found ==> Clash(names, submitted, oldName)
    {
      if names[i] == submitted && oldName != submitted {
        found := true;
        break;
      }
      i := i + 1;
    }
    assert names[..|names|] == names;
  }

  /** The checks from do_input_validation up to the group lookups. */
  method CheckFields(users: seq<User>, id: Option<nat>, f: UserForm, v: Validators) returns (errors: seq<Error>)
    ensures errors == EarlyErrors(users, id, f, v)
  {
    var name := Str(f.username);
    ghost var required := RequiredErrors(RequiredFields(Editing(users, id), f));
    errors := RequiredErrors(RequiredFields(Editing(users, id), f));
    if HasInvalidChar(name) {
      errors := errors + [InvalidChars];
    }
    assert errors == required + CharsetErrors(name);
    if Utf8Length(name) > 32 {
      errors := errors + [TooLong];
    }
    assert errors == required + CharsetErrors(name) + LengthErrors(name);
    if TruthyField(f.password1) && f.password1.value != Str(f.password2) {
      errors := errors + [PasswordMismatch];
    }
    assert errors == required + CharsetErrors(name) + LengthErrors(name) + MismatchErrors(f);
    if f.ipsecPsk.Some? && !IsAscii(f.ipsecPsk.value) {
      errors := errors + [InvalidPsk];
    }
    assert errors == required + CharsetErrors(name) + LengthErrors(name) + MismatchErrors(f) + PskErrors(f);
    errors := errors + PolicyErrors(v.validatePassword(name, Str(f.password1)));
    if f.groups.Some? {
      var missing := CheckGroups(f.groups.value, v.groupExists);
      errors := errors + missing;
    }
  }

  /** The foreach over the submitted groups: one error per name the lookup does not find. */
  method CheckGroups(submitted: seq<string>, groupExists: string -> bool) returns (errors: seq<Error>)
    ensures errors == GroupErrors(submitted, groupExists)
  {
    errors := [];
    for k := 0 to |submitted|
      invariant errors == GroupErrors(submitted[..k], groupExists)
    {
      assert submitted[..k + 1][..k] == submitted[..k];
      if !groupExists(submitted[k]) {
        errors := errors + [InvalidGroup];
      }
    }
    assert submitted[..|submitted|] == submitted;
  }

  /** The expiry, CA and web GUI preference checks; also returns the rewritten expiry. */
  method CheckLate(f: UserForm, v: Validators) returns (errors: seq<Error>, expires: Option<string>)
    ensures errors == LateErrors(f, v)
    ensures expires == ExpiresAfter(f, v)
  {
    errors := [];
    expires := f.expires;
    if TruthyField(f.expires) {
      var parsed := v.parseDate(f.expires.value);
      if parsed.Some? {
        expires := parsed;
      } else {
        errors := errors + [InvalidExpiry];
      }
    }
    if TruthyField(f.certName) && !v.caExists(Str(f.caRef)) {
      errors := errors + [InvalidCa];
    }
    errors := errors + WebguiErrors(v.checkCss(f.webguiCss) + v.checkFixedMenu(f.webguiFixedMenu)
                                    + v.checkHostnameMenu(f.webguiHostnameMenu) + v.checkColumns(f.dashboardColumns));
  }

  /** The save branch's validation in source order; also returns the rewritten expiry. */
  method ValidateSave(users: seq<User>, id: Option<nat>, f: UserForm, v: Validators, accounts: seq<string>)
    returns (errors: seq<Error>, expires: Option<string>)
    ensures errors == SaveErrors(users, id, f, v, accounts)
    ensures expires == ExpiresAfter(f, v)
  {
    var name := Str(f.username);
    var oldName := OldUsername(users, id);
    errors := CheckFields(users, id, f, v);
    ghost var early := errors;
    if errors == [] {
      var taken := FindClash(Names(users), name, oldName);
      if taken {
        errors := errors + [NotUnique];
      }
    }
    ghost var taken := Clash(Names(users), name, oldName);
    assert errors == early + (if early == [] && taken then [NotUnique] else []);
    ghost var unique := errors;
    if errors == [] {
      var reserved := FindClash(accounts, name, oldName);
      if reserved {
        errors := errors + [Reserved];
      }
    }
    assert errors == unique + (if early == [] && !taken && Clash(accounts, name, oldName) then [Reserved] else []);
    var late;
    late, expires := CheckLate(f, v);
    errors := errors + late;
  }

  // ---------------------------------------------------------------------------
  // What the chain promises

  /** An error is among the early ones exactly when one of the early checks produced it. */
  lemma EarlyMembers(users: seq<User>, id: Option<nat>, f: UserForm, v: Validators, e: Error)
    ensures e in EarlyErrors(users, id, f, v) <==>
      var name := Str(f.username);
      e in RequiredErrors(RequiredFields(Editing(users, id), f)) || e in CharsetErrors(name)
      || e in LengthErrors(name) || e in MismatchErrors(f) || e in PskErrors(f)
      || e in PolicyErrors(v.validatePassword(name, Str(f.password1))) || e in SubmittedGroupErrors(f, v)
  {
  }

  /** The kinds of error a check before the uniqueness check can raise. */
  predicate EarlyKind(e: Error)
  {
    e.Required? || e == InvalidChars || e == TooLong || e == PasswordMismatch || e == InvalidPsk
    || e.PasswordPolicy? || e == InvalidGroup
  }

  /** The kinds of error a check after the reserved-name check can raise. */
  predicate LateKind(e: Error)
  {
    e == InvalidExpiry || e == InvalidCa || e.WebguiField?
  }

  lemma LateMembers(f: UserForm, v: Validators, e: Error)
    requires e in LateErrors(f, v)
    ensures LateKind(e)
  {
    var webgui := v.checkCss(f.webguiCss) + v.checkFixedMenu(f.webguiFixedMenu)
                  + v.checkHostnameMenu(f.webguiHostnameMenu) + v.checkColumns(f.dashboardColumns);
    assert e in WebguiErrors(webgui) ==> e.WebguiField?;
  }

  lemma NotInEarly(users: seq<User>, id: Option<nat>, f: UserForm, v: Validators, e: Error)
    requires !EarlyKind(e)
    ensures e !in EarlyErrors(users, id, f, v)
  {
    EarlyMembers(users, id, f, v, e);
  }

  lemma NotInLate(f: UserForm, v: Validators, e: Error)
    requires !LateKind(e)
    ensures e !in LateErrors(f, v)
  {
    if e in LateErrors(f, v) {
      LateMembers(f, v, e);
    }
  }

  /** What joining the segments promises when the two gated errors occur in neither outer segment. */
  lemma ChainRules(early: seq<Error>, taken: bool, reserved: bool, late: seq<Error>)
    requires NotUnique !in early && Reserved !in early && NotUnique !in late && Reserved !in late
    ensures multiset(Chain(early, taken, reserved, late))[NotUnique] <= 1
    ensures multiset(Chain(early, taken, reserved, late))[Reserved] <= 1
    ensures NotUnique in Chain(early, taken, reserved, late) <==> early == [] && taken
    ensures Reserved in Chain(early, taken, reserved, late) <==> early == [] && !taken && reserved
  {
    var unique := if early == [] && taken then [NotUnique] else [];
    var system := if early == [] && !taken && reserved then [Reserved] else [];
    assert Chain(early, taken, reserved, late) == early + unique + system + late;
  }

  /** Any other error is in the joined list exactly when an outer segment holds it. */
  lemma ChainOther(early: seq<Error>, taken: bool, reserved: bool, late: seq<Error>, e: Error)
    requires e != NotUnique && e != Reserved
    ensures e in Chain(early, taken, reserved, late) <==> e in early || e in late
  {
  }

  /** SaveErrors meets the conditions of ChainRules. */
  lemma ChainOf(users: seq<User>, id: Option<nat>, f: UserForm, v: Validators, accounts: seq<string>)
    ensures var early, late := EarlyErrors(users, id, f, v), LateErrors(f, v);
      NotUnique !in early && Reserved !in early && NotUnique !in late && Reserved !in late
  {
    NotInEarly(users, id, f, v, NotUnique);
    NotInEarly(users, id, f, v, Reserved);
    NotInLate(f, v, NotUnique);
    NotInLate(f, v, Reserved);
  }

  /** An early check's error is in the result exactly when that check raised it. */
  lemma InEarly(users: seq<User>, id: Option<nat>, f: UserForm, v: Validators, accounts: seq<string>, e: Error)
    requires EarlyKind(e)
    ensures e in SaveErrors(users, id, f, v, accounts) <==> e in EarlyErrors(users, id, f, v)
  {
    var name, oldName := Str(f.username), OldUsername(users, id);
    assert e != NotUnique && e != Reserved && !LateKind(e);
    NotInLate(f, v, e);
    ChainOther(EarlyErrors(users, id, f, v), Clash(Names(users), name, oldName), Clash(accounts, name, oldName), LateErrors(f, v), e);
  }

  /** The charset error is raised exactly when the name has a character outside [a-zA-Z0-9._-]. */
  lemma InvalidCharsIff(users: seq<User>, id: Option<nat>, f: UserForm, v: Validators, accounts: seq<string>)
    ensures InvalidChars in SaveErrors(users, id, f, v, accounts) <==> HasInvalidChar(Str(f.username))
  {
    InEarly(users, id, f, v, accounts, InvalidChars);
    EarlyMembers(users, id, f, v, InvalidChars);
  }

  /** The length error is raised exactly when the name is longer than 32 bytes. */
  lemma TooLongIff(users: seq<User>, id: Option<nat>, f: UserForm, v: Validators, accounts: seq<string>)
    ensures TooLong in SaveErrors(users, id, f, v, accounts) <==> Utf8Length(Str(f.username)) > 32
  {
    InEarly(users, id, f, v, accounts, TooLong);
    EarlyMembers(users, id, f, v, TooLong);
  }

  /** For a name of allowed characters, the byte length is the character count. */
  lemma ValidNameLength(name: string)
    requires !HasInvalidChar(name)
    ensures Utf8Length(name) == |name|
  {
    assert IsAscii(name);
    AsciiLength(name);
  }

  /** The mismatch error is raised exactly when the first password is truthy and differs from the second. */
  lemma PasswordMismatchIff(users: seq<User>, id: Option<nat>, f: UserForm, v: Validators, accounts: seq<string>)
    ensures PasswordMismatch in SaveErrors(users, id, f, v, accounts)
        <==> TruthyField(f.password1) && f.password1.value != Str(f.password2)
  {
    InEarly(users, id, f, v, accounts, PasswordMismatch);
    EarlyMembers(users, id, f, v, PasswordMismatch);
  }

  /** The PSK error is raised exactly when a PSK is posted that has a non-ASCII character. */
  lemma InvalidPskIff(users: seq<User>, id: Option<nat>, f: UserForm, v: Validators, accounts: seq<string>)
    ensures InvalidPsk in SaveErrors(users, id, f, v, accounts) <==> f.ipsecPsk.Some? && !IsAscii(f.ipsecPsk.value)
  {
    InEarly(users, id, f, v, accounts, InvalidPsk);
    EarlyMembers(users, id, f, v, InvalidPsk);
  }

  /**
   * A field is reported as required exactly when it is one the request must
   * fill (the username when editing; also the password when creating; also
   * the four certificate fields when a certificate is requested) and it is
   * absent or empty.
   */
  lemma RequiredIff(users: seq<User>, id: Option<nat>, f: UserForm, v: Validators, accounts: seq<string>, l: string)
    ensures var fields := RequiredFields(Editing(users, id), f);
      Required(l) in SaveErrors(users, id, f, v, accounts) <==>
      exists k :: 0 <= k < |fields| && fields[k].0 == l && LooseEmpty(fields[k].1)
  {
    var fields := RequiredFields(Editing(users, id), f);
    InEarly(users, id, f, v, accounts, Required(l));
    EarlyMembers(users, id, f, v, Required(l));
    RequiredErrorsNames(fields, l);
  }

  lemma NameTaken(users: seq<User>, name: string)
    ensures name in Names(users) <==> exists i :: 0 <= i < |users| && users[i].name == name
  {
    if name in Names(users) {
      var i :| 0 <= i < |Names(users)| && Names(users)[i] == name;
      assert users[i].name == name;
    }
  }

  /**
   * The uniqueness check: it adds at most one error, only when no earlier
   * error exists, and exactly when some stored user has the submitted name
   * while the edited entry's old name differs from it.
   */
  lemma UniquenessRules(users: seq<User>, id: Option<nat>, f: UserForm, v: Validators, accounts: seq<string>)
    ensures multiset(SaveErrors(users, id, f, v, accounts))[NotUnique] <= 1
    ensures NotUnique in SaveErrors(users, id, f, v, accounts) <==>
            EarlyErrors(users, id, f, v) == []
            && (exists i :: 0 <= i < |users| && users[i].name == Str(f.username))
            && OldUsername(users, id) != Str(f.username)
  {
    var name, oldName := Str(f.username), OldUsername(users, id);
    ChainOf(users, id, f, v, accounts);
    ChainRules(EarlyErrors(users, id, f, v), Clash(Names(users), name, oldName), Clash(accounts, name, oldName), LateErrors(f, v));
    NameTaken(users, name);
  }

  /**
   * The reserved-name check: at most one error, only when no earlier error
   * (the uniqueness one included) was raised, and exactly when a system
   * account has the submitted name and the old name differs from it.
   */
  lemma ReservedRules(users: seq<User>, id: Option<nat>, f: UserForm, v: Validators, accounts: seq<string>)
    ensures multiset(SaveErrors(users, id, f, v, accounts))[Reserved] <= 1
    ensures Reserved in SaveErrors(users, id, f, v, accounts) <==>
            EarlyErrors(users, id, f, v) == [] && NotUnique !in SaveErrors(users, id, f, v, accounts)
            && Str(f.username) in accounts && OldUsername(users, id) != Str(f.username)
  {
    var name, oldName := Str(f.username), OldUsername(users, id);
    ChainOf(users, id, f, v, accounts);
    ChainRules(EarlyErrors(users, id, f, v), Clash(Names(users), name, oldName), Clash(accounts, name, oldName), LateErrors(f, v));
  }

  /** Saving a user under its unchanged name never raises the uniqueness or the reserved error. */
  lemma KeepingNameNeverClashes(users: seq<User>, id: Option<nat>, f: UserForm, v: Validators, accounts: seq<string>)
    requires Editing(users, id) && Str(f.username) == users[id.value].name
    ensures NotUnique !in SaveErrors(users, id, f, v, accounts)
    ensures Reserved !in SaveErrors(users, id, f, v, accounts)
  {
    UniquenessRules(users, id, f, v, accounts);
    ReservedRules(users, id, f, v, accounts);
  }

  /**
   * The converse direction: a new-user submission that passes every check
   * the page makes (no certificate requested, no expiry, library checks that
   * report nothing) is accepted with no error.
   */
  lemma CleanSubmissionAccepted(users: seq<User>, f: UserForm, v: Validators, accounts: seq<string>)
    requires !TruthyField(f.certName) && f.expires.None?
    requires !LooseEmpty(f.username) && !LooseEmpty(f.password1)
    requires !HasInvalidChar(f.username.value) && |f.username.value| <= 32
    requires f.password2 == f.password1
    requires f.ipsecPsk.None? && f.groups.None?
    requires v.validatePassword(f.username.value, f.password1.value) == []
    requires v.checkCss(f.webguiCss) == [] && v.checkFixedMenu(f.webguiFixedMenu) == []
    requires v.checkHostnameMenu(f.webguiHostnameMenu) == [] && v.checkColumns(f.dashboardColumns) == []
    requires forall u :: u in users ==> u.name != f.username.value
    requires f.username.value !in accounts
    ensures SaveErrors(users, None, f, v, accounts) == []
  {
    var name := f.username.value;
    ValidNameLength(name);
    assert RequiredErrors(RequiredFields(false, f)) == [] by {
      var fields := RequiredFields(false, f);
      assert !LooseEmpty(fields[0].1) && !LooseEmpty(fields[1].1);
    }
    assert PolicyErrors([]) == [];
    assert EarlyErrors(users, None, f, v) == [];
    assert name !in Names(users);
    assert v.checkCss(f.webguiCss) + v.checkFixedMenu(f.webguiFixedMenu)
           + v.checkHostnameMenu(f.webguiHostnameMenu) + v.checkColumns(f.dashboardColumns) == [];
  }

  /** The two username errors are independent: one submission can raise both. */
  lemma BothUsernameErrors(users: seq<User>, v: Validators, accounts: seq<string>)
    ensures var f := UserForm(Some(seq(33, _ => '!')), None, None, None, None, None, None, None, None,
                              None, None, None, None, None, None, None, None, map[]);
      InvalidChars in SaveErrors(users, None, f, v, accounts) && TooLong in SaveErrors(users, None, f, v, accounts)
  {
    var name := seq(33, _ => '!');
    var f := UserForm(Some(name), None, None, None, None, None, None, None, None,
                      None, None, None, None, None, None, None, None, map[]);
    assert !UsernameChar(name[0]);
    assert IsAscii(name);
    AsciiLength(name);
    InvalidCharsIff(users, None, f, v, accounts);
    TooLongIff(users, None, f, v, accounts);
  }

  /** The name a save stores keeps the names unique: it is not empty, and it is the edited user's own or one no stored user has. */
  predicate NameFree(users: seq<User>, id: Option<nat>, name: string)
  {
    name != "" && (name == OldUsername(users, id) || forall k :: 0 <= k < |users| ==> users[k].name != name)
  }

  /** A submission with no errors names a free user name. */
  lemma AcceptedNameFree(users: seq<User>, id: Option<nat>, f: UserForm, v: Validators, accounts: seq<string>)
    requires SaveErrors(users, id, f, v, accounts) == []
    ensures NameFree(users, id, Str(f.username))
  {
    var name, oldName := Str(f.username), OldUsername(users, id);
    var early, fields := EarlyErrors(users, id, f, v), RequiredFields(Editing(users, id), f);
    var taken := Clash(Names(users), name, oldName);
    assert Chain(early, taken, Clash(accounts, name, oldName), LateErrors(f, v)) == [];
    assert early == [] && !taken;
    assert RequiredErrors(fields) == [];
    RequiredErrorsNames(fields, "Username");
    assert fields[0].0 == "Username" && fields[0].1 == f.username;
    forall k | 0 <= k < |users| && name != oldName ensures users[k].name != name {
      assert Names(users)[k] == users[k].name;
    }
  }
}
