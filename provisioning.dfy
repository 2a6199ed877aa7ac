/**
 * The script's account provisioning: `NewUser`, which checks a record from
 * the CSV file against the directory and creates the account (and its group
 * membership), `OldUser`, which deletes an account after confirmation, and
 * the two batch loops of the script's entry point that drive them.
 *
 * `sys.exit` and uncaught exceptions end the whole run, so a batch stops at
 * the first operation that fails.
 */
module Provisioning {
  import opened Text
  import opened Models
  import opened Csv
  import opened Utils
  import opened Directory
  import opened Access
  import opened Prompt

  // ---------------------------------------------------------------------
  // Preparing a record

  /** The group a new user joins, and the level name the record asks for. */
  datatype GroupRequest = GroupRequest(name: Value, level: string)

  /** A record once `NewUser.__init__` has taken the group columns out of it. */
  datatype Prepared = Prepared(userdict: UserDict, group: Option<GroupRequest>)

  const GroupKey: Key := Name("group")
  const LevelKey: Key := Name("access_level")
  const ResetKey: Key := Name("reset_password")

  /**
   * `NewUser.__init__`: a record with a (truthy) group must name a level of
   * the access level table; the group columns are removed, and the password
   * reset flag is set on every record.
   */
  function Prepare(levels: map<string, int>, d: UserDict): (r: Result<Prepared>)
    ensures GroupKey !in d ==> r == Failure(KeyError(GroupKey))
    ensures r.Success? <==>
              GroupKey in d &&
              (Truthy(d[GroupKey]) ==>
                 LevelKey in d && d[LevelKey].Str? && d[LevelKey].s in levels)
    ensures r.Failure? && GroupKey in d && Truthy(d[GroupKey]) && LevelKey in d ==>
              r.error == SystemExit("Wrong access level: " + Show(d[LevelKey]) + " for group " + Show(d[GroupKey]))
    ensures r.Success? ==> ResetKey in r.value.userdict && r.value.userdict[ResetKey] == Flag(true)
    ensures r.Success? ==> forall k :: k in r.value.userdict && k != ResetKey ==> k in d && r.value.userdict[k] == d[k]
    ensures r.Success? ==> (r.value.group.Some? <==> Truthy(d[GroupKey]))
    ensures r.Success? && r.value.group.Some? ==>
              r.value.group.value == GroupRequest(d[GroupKey], d[LevelKey].s) &&
              r.value.group.value.level in levels &&
              GroupKey !in r.value.userdict && LevelKey !in r.value.userdict
    ensures r.Success? && r.value.group.None? ==> r.value.userdict.Keys == d.Keys + {ResetKey}
  {
    if GroupKey !in d then Failure(KeyError(GroupKey))
    else if Truthy(d[GroupKey]) then
      if LevelKey !in d then Failure(KeyError(LevelKey))
      else
        var level := d[LevelKey];
        if !(level.Str? && level.s in levels) then
          Failure(SystemExit("Wrong access level: " + Show(level) + " for group " + Show(d[GroupKey])))
        else
          var rest := d - {GroupKey, LevelKey};
          Success(Prepared(rest[ResetKey := Flag(true)], Some(GroupRequest(d[GroupKey], level.s))))
    else Success(Prepared(d[ResetKey := Flag(true)], None))
  }

  /**
   * A record read from a line of at most seven fields has both group
   * columns, so preparing it fails only on an unknown level name, and it
   * asks for a group exactly when the sixth field is non-empty.
   */
  lemma CsvRecordPrepare(levels: map<string, int>, row: seq<string>)
    requires |row| <= 7
    ensures Prepare(levels, RowRecord(row)).Success? || Prepare(levels, RowRecord(row)).error.SystemExit?
    ensures Prepare(levels, RowRecord(row)).Success? ==>
              (Prepare(levels, RowRecord(row)).value.group.Some? <==> |row| > 5 && row[5] != "")
  {
    RowRecordShort(row);
    assert Fieldnames[5] == "group" && Fieldnames[6] == "access_level";
    assert GroupKey in FieldKeys && LevelKey in FieldKeys;
  }

  // ---------------------------------------------------------------------
  // Describing a record (`NewUser.__repr__`)

  /** `f"{s:12}"`: the text padded with spaces to twelve characters. */
  function Pad12(s: string): (r: string)
    ensures |r| == if |s| < 12 then 12 else |s|
    ensures StartsWith(r, s)
  {
    if |s| < 12 then s + seq(12 - |s|, _ => ' ') else s
  }

  /** The fields the description lists after the name, in order. */
  const Described: seq<string> := ["username", "email", "organization", "location"]

  /** The description's lines for some of the listed fields. */
  function DescribeFields(d: UserDict, entries: seq<string>): (r: Result<string>)
    ensures r.Success? <==> forall i :: 0 <= i < |entries| ==> Name(entries[i]) in d
    ensures r.Failure? ==> r.error.KeyError?
  {
    if entries == [] then Success("")
    else if Name(entries[0]) !in d then Failure(KeyError(Name(entries[0])))
    else match DescribeFields(d, entries[1..])
      case Failure(e) => Failure(e)
      case Success(rest) =>
        Success("    " + Pad12(entries[0]) + " : " + Show(d[Name(entries[0])]) + "\n" + rest)
  }

  /**
   * `NewUser.__repr__`: the name followed by the listed fields and the
   * group. It starts from the name value itself, so a name that is not a
   * string (`None` for a line with a single field) makes the first `+=`
   * raise `TypeError`, once the username its right-hand side reads has
   * been found.
   */
  function Describe(d: UserDict, group: Option<GroupRequest>): (r: Result<string>)
    ensures r.Success? <==>
              Name("name") in d && d[Name("name")].Str? &&
              forall i :: 0 <= i < |Described| ==> Name(Described[i]) in d
    ensures r.Failure? ==> r.error.KeyError? || r.error.TypeError?
    ensures Name("name") in d && !d[Name("name")].Str? ==>
              r.Failure? && (r.error.TypeError? <==> Name("username") in d)
    ensures r.Success? ==> StartsWith(r.value, d[Name("name")].s)
    ensures r.Success? ==> HasChecked(d) && Name("organization") in d && Name("location") in d
  {
    assert Described == ["username", "email", "organization", "location"];
    if Name("name") !in d then Failure(KeyError(Name("name")))
    else if !d[Name("name")].Str? then
      if Name("username") !in d then Failure(KeyError(Name("username")))
      else Failure(TypeError("unsupported operand type(s) for +="))
    else match DescribeFields(d, Described)
      case Failure(e) => Failure(e)
      case Success(fields) =>
        var tail := if group.Some? then
          "    group        : " + Show(group.value.name) + " (as " + group.value.level + ")"
        else "";
        assert (d[Name("name")].s + fields + tail)[..|d[Name("name")].s|] == d[Name("name")].s;
        assert Name(Described[0]) in d && Name(Described[1]) in d;
        assert Name(Described[2]) in d && Name(Described[3]) in d;
        assert Checked == ["username", "email", "name"];
        Success(d[Name("name")].s + fields + tail)
  }

  // ---------------------------------------------------------------------
  // Checking a record (`NewUser._check`)

  /** The fields checked against the existing accounts, in order. */
  const Checked: seq<string> := ["username", "email", "name"]

  /** The attribute of an account that a checked field is compared with. */
  function Attribute(u: User, entry: string): string {
    if entry == "username" then u.username
    else if entry == "email" then u.email
    else u.name
  }

  /** The record holds every checked field. */
  predicate HasChecked(d: UserDict) {
    forall i :: 0 <= i < |Checked| ==> Name(Checked[i]) in d
  }

  /** `value in [getattr(u, entry) for u in existing]` */
  predicate Taken(existing: seq<User>, entry: string, v: Value) {
    v.Str? && exists i :: 0 <= i < |existing| && Attribute(existing[i], entry) == v.s
  }

  /** Whether the record asks for a group the directory does not have. */
  predicate GroupMissing(st: DirState, group: Option<GroupRequest>) {
    group.Some? && GroupGet(st, Show(group.value.name)) == Failure(RemoteError(GroupNotFound))
  }

  /**
   * `_check`: false when a username, email or name is already used by one
   * of the accounts listed when the object was built, or when the group
   * does not exist; a failing description or any other lookup error is
   * raised.
   */
  function CheckSpec(existing: seq<User>, d: UserDict, group: Option<GroupRequest>, st: DirState)
    : (r: Result<bool>)
    ensures r.Failure? <==>
              Describe(d, group).Failure? ||
              (group.Some? && GroupGet(st, Show(group.value.name)).Failure? && !GroupMissing(st, group))
    ensures r == Success(true) <==>
              Describe(d, group).Success? &&
              !Taken(existing, "username", d[Name("username")]) &&
              !Taken(existing, "email", d[Name("email")]) &&
              !Taken(existing, "name", d[Name("name")]) &&
              (group.None? || GroupGet(st, Show(group.value.name)).Success?)
    ensures r.Success? ==> Describe(d, group).Success?
  {
    match Describe(d, group)
    case Failure(e) => Failure(e)
    case Success(_) =>
      assert Checked[0] == "username" && Checked[1] == "email" && Checked[2] == "name";
      var ok := !Taken(existing, "username", d[Name("username")]) &&
                !Taken(existing, "email", d[Name("email")]) &&
                !Taken(existing, "name", d[Name("name")]);
      if group.None? then Success(ok)
      else match GroupGet(st, Show(group.value.name))
        case Success(_) => Success(ok)
        case Failure(e) => if e == RemoteError(GroupNotFound) then Success(false) else Failure(e)
  }

  // ---------------------------------------------------------------------
  // Creating the account (`NewUser._create`, `_add_to_group`, `save`)

  /** `_add_to_group` for the account with id `userId`. */
  function AddToGroup(st: DirState, g: GroupRequest, userId: nat): (r: (Outcome, DirState))
    ensures r.0.Pass? <==>
              GroupGet(st, Show(g.name)).Success? && g.level in AccessLevelByName
    ensures r.0.Pass? ==>
              r.1 == AfterAddMember(st, GroupGet(st, Show(g.name)).value.id, userId, AccessLevelByName[g.level])
    ensures r.0.Fail? ==> r.1 == st
    ensures GroupGet(st, Show(g.name)) == Failure(RemoteError(GroupNotFound)) ==>
              r.0 == Fail(SystemExit("Group " + Show(g.name) + " not found"))
  {
    match GroupGet(st, Show(g.name))
    case Failure(e) =>
      if e == RemoteError(GroupNotFound) then (Fail(SystemExit("Group " + Show(g.name) + " not found")), st)
      else (Fail(e), st)
    case Success(grp) =>
      if g.level !in AccessLevelByName then (Fail(KeyError(Name(g.level))), st)
      else (Pass, AfterAddMember(st, grp.id, userId, AccessLevelByName[g.level]))
  }

  /**
   * `_create`: create the account, then set its organization and location
   * and save it. A record without those keys fails after the creation.
   */
  function CreateSpec(d: UserDict, st: DirState): (r: (Result<User>, DirState))
    ensures r.1.groups == st.groups && r.1.lookupErrors == st.lookupErrors && r.1.members == st.members
  {
    var (created, st1) := CreateResult(st, d);
    if created.Failure? then (created, st1)
    else if Name("organization") !in d then (Failure(KeyError(Name("organization"))), st1)
    else if Name("location") !in d then (Failure(KeyError(Name("location"))), st1)
    else (created, AfterUpdate(st1, created.value.id, d[Name("organization")], d[Name("location")]))
  }

  /**
   * `_create` succeeds exactly when the directory accepts the record and it
   * holds an organization and a location; it then asks for the creation and
   * the update of the new account, and otherwise for at most the creation.
   */
  lemma CreateSpecCalls(d: UserDict, st: DirState)
    ensures var (made, st') := CreateSpec(d, st);
            (made.Success? <==> Accepts(st, d) && Name("organization") in d && Name("location") in d) &&
            (made.Success? ==>
               made.value.id == st.nextId && st'.users == st.users + [made.value] &&
               st'.log == st.log + [CreateCall(d, st.nextId),
                                    UpdateCall(st.nextId, d[Name("organization")], d[Name("location")])]) &&
            (made.Failure? ==> st'.log == st.log || (Accepts(st, d) && st'.log == st.log + [CreateCall(d, st.nextId)]))
  {
  }

  lemma CreateSpecKeepsWellFormed(d: UserDict, st: DirState)
    requires WellFormed(st)
    ensures WellFormed(CreateSpec(d, st).1)
  {
    CreateKeepsWellFormed(st, d);
  }

  /** `_create` */
  method CreateAccount(d: UserDict, service: Service) returns (r: Result<User>)
    modifies service
    ensures (r, service.state) == CreateSpec(d, old(service.state))
  {
    r := service.CreateUser(d);
    if r.Failure? {
      return;
    }
    if Name("organization") !in d {
      return Failure(KeyError(Name("organization")));
    }
    if Name("location") !in d {
      return Failure(KeyError(Name("location")));
    }
    service.UpdateUser(r.value.id, d[Name("organization")], d[Name("location")]);
  }

  /** A save past its check outside a dry run: `_create`, then `_add_to_group` for a record with a group. */
  function SaveChecked(d: UserDict, group: Option<GroupRequest>, st: DirState): (r: (Outcome, DirState))
    ensures r.1.groups == st.groups && r.1.lookupErrors == st.lookupErrors
  {
    var (made, st1) := CreateSpec(d, st);
    if made.Failure? then (Fail(made.error), st1)
    else if group.None? then (Pass, st1)
    else AddToGroup(st1, group.value, made.value.id)
  }

  /**
   * `save`: when the check passes and the run is not a dry run, create the
   * account, set its organization and location, and add it to its group.
   */
  function SaveSpec(existing: seq<User>, d: UserDict, group: Option<GroupRequest>, dryRun: bool, st: DirState)
    : (r: (Outcome, DirState))
    ensures CheckSpec(existing, d, group, st).Failure? ==> r == (Fail(CheckSpec(existing, d, group, st).error), st)
    ensures CheckSpec(existing, d, group, st) == Success(false) || dryRun ==> r.1 == st
    ensures r.1.groups == st.groups && r.1.lookupErrors == st.lookupErrors
  {
    match CheckSpec(existing, d, group, st)
    case Failure(e) => (Fail(e), st)
    case Success(ok) =>
      if !ok || dryRun then (Pass, st)
      else SaveChecked(d, group, st)
  }

  /**
   * What a save asks of the directory: nothing; or, once the check has
   * passed outside a dry run and the directory accepts the record, the
   * creation of the account followed by the update of its organization and
   * location, and, for a record with a group, the membership of that same
   * account in the group the check found, at the level its name maps to.
   */
  lemma SaveCalls(existing: seq<User>, d: UserDict, group: Option<GroupRequest>, dryRun: bool, st: DirState)
    ensures var st' := SaveSpec(existing, d, group, dryRun, st).1;
            st'.log == st.log ||
            (CheckSpec(existing, d, group, st) == Success(true) && !dryRun && Accepts(st, d) &&
             var created := [CreateCall(d, st.nextId),
                             UpdateCall(st.nextId, d[Name("organization")], d[Name("location")])];
             (st'.log == st.log + created ||
              (group.Some? &&
               st'.log == st.log + created +
                          [AddMemberCall(GroupGet(st, Show(group.value.name)).value.id, st.nextId,
                                         AccessLevelByName[group.value.level])])))
  {
    if CheckSpec(existing, d, group, st) == Success(true) && !dryRun {
      assert Describe(d, group).Success?;
      CreateSpecCalls(d, st);
      var st1 := CreateSpec(d, st).1;
      if group.Some? {
        assert GroupGet(st1, Show(group.value.name)) == GroupGet(st, Show(group.value.name));
      }
    }
  }

  /**
   * A save whose check passed, outside a dry run, on a record the directory
   * accepts, completes: the account is created and, for a record with a
   * group, joins the group the check found, which is still there after the
   * creation, so such a run never stops on a missing group.
   */
  lemma CheckedSaveCompletes(existing: seq<User>, d: UserDict, group: Option<GroupRequest>, st: DirState)
    requires CheckSpec(existing, d, group, st) == Success(true)
    requires Accepts(st, d)
    requires group.Some? ==> group.value.level in AccessLevelByName
    ensures SaveSpec(existing, d, group, false, st).0 == Pass
    ensures SaveSpec(existing, d, group, false, st).1.users == st.users + [NewAccount(st, d)]
    ensures group.None? ==> SaveSpec(existing, d, group, false, st).1 == CreateSpec(d, st).1
    ensures group.Some? ==>
              Membership(GroupGet(st, Show(group.value.name)).value.id, st.nextId, AccessLevelByName[group.value.level])
                in SaveSpec(existing, d, group, false, st).1.members
  {
    assert Describe(d, group).Success?;
    assert Described[2] == "organization" && Described[3] == "location";
    CreateSpecCalls(d, st);
    var st1 := CreateSpec(d, st).1;
    if group.Some? {
      assert GroupGet(st1, Show(group.value.name)) == GroupGet(st, Show(group.value.name));
    }
  }

  lemma SaveKeepsWellFormed(existing: seq<User>, d: UserDict, group: Option<GroupRequest>, dryRun: bool, st: DirState)
    requires WellFormed(st)
    ensures WellFormed(SaveSpec(existing, d, group, dryRun, st).1)
  {
    CreateSpecKeepsWellFormed(d, st);
  }

  /** A `NewUser` object: the prepared record and the accounts listed when it was built. */
  class NewUser {
    const userdict: UserDict
    const group: Option<GroupRequest>
    const dryRun: bool
    const existing: seq<User>
    const service: Service

    constructor(p: Prepared, dryRun: bool, service: Service)
      ensures userdict == p.userdict && group == p.group && this.dryRun == dryRun
      ensures this.service == service && existing == service.state.users
    {
      userdict := p.userdict;
      group := p.group;
      this.dryRun := dryRun;
      this.service := service;
      existing := service.state.users;
    }

    /** `_check` */
    method Check() returns (r: Result<bool>)
      ensures r == CheckSpec(existing, userdict, group, service.state)
    {
      var description := Describe(userdict, group);
      if description.Failure? {
        return Failure(description.error);
      }
      var checkOk := true;
      assert Name(Checked[0]) in userdict && Name(Checked[1]) in userdict && Name(Checked[2]) in userdict;
      for i := 0 to |Checked|
        invariant checkOk <==>
                    forall j :: 0 <= j < i ==> !Taken(existing, Checked[j], userdict[Name(Checked[j])])
      {
        var entry := Checked[i];
        if Taken(existing, entry, userdict[Name(entry)]) {
          checkOk := false;
        }
      }
      assert Checked == ["username", "email", "name"];
      assert checkOk <==>
               !Taken(existing, "username", userdict[Name("username")]) &&
               !Taken(existing, "email", userdict[Name("email")]) &&
               !Taken(existing, "name", userdict[Name("name")]);
      if group.Some? {
        var found := GroupGet(service.state, Show(group.value.name));
        if found.Failure? {
          if found.error == RemoteError(GroupNotFound) {
            checkOk := false;
          } else {
            return Failure(found.error);
          }
        }
      }
      return Success(checkOk);
    }

    /** `save` */
    method Save() returns (r: Outcome)
      modifies service
      ensures (r, service.state) == SaveSpec(existing, userdict, group, dryRun, old(service.state))
    {
      var ok := Check();
      if ok.Failure? {
        return Fail(ok.error);
      }
      if !ok.value || dryRun {
        return Pass;
      }
      var created := CreateAccount(userdict, service);
      if created.Failure? {
        return Fail(created.error);
      }
      var u := created.value;
      if group.Some? {
        var found := GroupGet(service.state, Show(group.value.name));
        if found.Failure? {
          if found.error == RemoteError(GroupNotFound) {
            return Fail(SystemExit("Group " + Show(group.value.name) + " not found"));
          }
          return Fail(found.error);
        }
        if group.value.level !in AccessLevelByName {
          return Fail(KeyError(Name(group.value.level)));
        }
        service.AddMember(found.value.id, u.id, AccessLevelByName[group.value.level]);
      }
      return Pass;
    }
  }

  // ---------------------------------------------------------------------
  // The creation batch

  /** One `NewUser(record, dry_run).save()` per record, stopping at the first failure. */
  function CreateAllSpec(records: seq<UserDict>, dryRun: bool, st: DirState): (r: (Outcome, DirState))
    ensures records == [] ==> r == (Pass, st)
  {
    if records == [] then (Pass, st)
    else match Prepare(AccessLevelByName, records[0])
      case Failure(e) => (Fail(e), st)
      case Success(p) =>
        var (o, st1) := SaveSpec(st.users, p.userdict, p.group, dryRun, st);
        if o.Fail? then (o, st1) else CreateAllSpec(records[1..], dryRun, st1)
  }

  /** The creation loop of the script's entry point. */
  method CreateAll(records: seq<UserDict>, dryRun: bool, service: Service) returns (r: Outcome)
    modifies service
    ensures (r, service.state) == CreateAllSpec(records, dryRun, old(service.state))
  {
    var i := 0;
    while i < |records|
      invariant 0 <= i <= |records|
      invariant CreateAllSpec(records, dryRun, old(service.state)) == CreateAllSpec(records[i..], dryRun, service.state)
    {
      assert records[i..][1..] == records[i + 1..];
      var p := Prepare(AccessLevelByName, records[i]);
      if p.Failure? {
        return Fail(p.error);
      }
      var newUser := new NewUser(p.value, dryRun, service);
      var o := newUser.Save();
      if o.Fail? {
        return o;
      }
      i := i + 1;
    }
    return Pass;
  }

  /** A dry run changes nothing in the directory. */
  lemma {:induction false} CreateAllDryRun(records: seq<UserDict>, st: DirState)
    ensures CreateAllSpec(records, true, st).1 == st
  {
    if records != [] && Prepare(AccessLevelByName, records[0]).Success? {
      var p := Prepare(AccessLevelByName, records[0]).value;
      if SaveSpec(st.users, p.userdict, p.group, true, st).0.Pass? {
        CreateAllDryRun(records[1..], st);
      }
    }
  }

  /**
   * Processing two lists of records one after the other is processing their
   * concatenation, the second list being skipped when the first one fails.
   */
  lemma {:induction false} CreateAllAppend(a: seq<UserDict>, b: seq<UserDict>, dryRun: bool, st: DirState)
    ensures var (o, st1) := CreateAllSpec(a, dryRun, st);
            CreateAllSpec(a + b, dryRun, st) == if o.Fail? then (o, st1) else CreateAllSpec(b, dryRun, st1)
  {
    if a == [] {
      assert a + b == b;
    } else {
      assert (a + b)[0] == a[0];
      assert (a + b)[1..] == a[1..] + b;
      if Prepare(AccessLevelByName, a[0]).Success? {
        var p := Prepare(AccessLevelByName, a[0]).value;
        var (o, st1) := SaveSpec(st.users, p.userdict, p.group, dryRun, st);
        if o.Pass? {
          CreateAllAppend(a[1..], b, dryRun, st1);
        }
      }
    }
  }

  /** The later log keeps the earlier one and adds no deletion. */
  predicate NoDeletionAdded(before: seq<Call>, after: seq<Call>) {
    |after| >= |before| && after[..|before|] == before &&
    forall k :: |before| <= k < |after| ==> !after[k].DeleteCall?
  }

  /** The later log keeps the earlier one and adds only deletions. */
  predicate OnlyDeletionsAdded(before: seq<Call>, after: seq<Call>) {
    |after| >= |before| && after[..|before|] == before &&
    forall k :: |before| <= k < |after| ==> after[k].DeleteCall?
  }

  lemma SaveCheckedAddsNoDeletion(d: UserDict, group: Option<GroupRequest>, st: DirState)
    ensures NoDeletionAdded(st.log, SaveChecked(d, group, st).1.log)
  {
    CreateSpecCalls(d, st);
  }

  lemma SaveAddsNoDeletion(existing: seq<User>, d: UserDict, group: Option<GroupRequest>, dryRun: bool, st: DirState)
    ensures NoDeletionAdded(st.log, SaveSpec(existing, d, group, dryRun, st).1.log)
  {
    SaveCheckedAddsNoDeletion(d, group, st);
  }

  /** The creation batch keeps ids fresh and unique. */
  lemma {:induction false} CreateAllKeepsWellFormed(records: seq<UserDict>, dryRun: bool, st: DirState)
    requires WellFormed(st)
    ensures WellFormed(CreateAllSpec(records, dryRun, st).1)
  {
    if records != [] && Prepare(AccessLevelByName, records[0]).Success? {
      var p := Prepare(AccessLevelByName, records[0]).value;
      var (o, st1) := SaveSpec(st.users, p.userdict, p.group, dryRun, st);
      SaveKeepsWellFormed(st.users, p.userdict, p.group, dryRun, st);
      if o.Pass? {
        CreateAllKeepsWellFormed(records[1..], dryRun, st1);
      }
    }
  }

  /** The creation batch only appends to the log, and never deletes an account. */
  lemma {:induction false} CreateAllNeverDeletes(records: seq<UserDict>, dryRun: bool, st: DirState)
    ensures NoDeletionAdded(st.log, CreateAllSpec(records, dryRun, st).1.log)
  {
    if records != [] && Prepare(AccessLevelByName, records[0]).Success? {
      var p := Prepare(AccessLevelByName, records[0]).value;
      var (o, st1) := SaveSpec(st.users, p.userdict, p.group, dryRun, st);
      SaveAddsNoDeletion(st.users, p.userdict, p.group, dryRun, st);
      if o.Pass? {
        CreateAllNeverDeletes(records[1..], dryRun, st1);
        NoDeletionTrans(st.log, st1.log, CreateAllSpec(records[1..], dryRun, st1).1.log);
      }
    }
  }

  lemma NoDeletionTrans(a: seq<Call>, b: seq<Call>, c: seq<Call>)
    requires NoDeletionAdded(a, b) && NoDeletionAdded(b, c)
    ensures NoDeletionAdded(a, c)
  {
    assert c[..|a|] == c[..|b|][..|a|];
  }

  lemma OnlyDeletionsTrans(a: seq<Call>, b: seq<Call>, c: seq<Call>)
    requires OnlyDeletionsAdded(a, b) && OnlyDeletionsAdded(b, c)
    ensures OnlyDeletionsAdded(a, c)
  {
    assert c[..|a|] == c[..|b|][..|a|];
  }

  // ---------------------------------------------------------------------
  // Deleting accounts (`OldUser`)

  /** What a deletion did and how many console lines it read. */
  datatype DeleteReport = DeleteReport(outcome: Outcome, consumed: nat)

  /**
   * `OldUser.delete`: nothing for an unknown user or in a dry run; otherwise
   * ask "Delete?" (default no) and delete the account on a yes.
   */
  function DeleteSpec(found: Option<User>, dryRun: bool, inputs: seq<string>, st: DirState)
    : (r: (DeleteReport, DirState))
    ensures r.0.consumed <= |inputs|
    ensures found.None? || dryRun ==> r == (DeleteReport(Pass, 0), st)
  {
    if found.None? || dryRun then (DeleteReport(Pass, 0), st)
    else match QueryYesNo(Some("no"), inputs)
      case Failure(e) => (DeleteReport(Fail(e), |inputs|), st)
      case Success(reply) =>
        (DeleteReport(Pass, reply.consumed), if reply.yes then AfterDelete(st, found.value.id) else st)
  }

  /**
   * An account is deleted only after a yes to the prompt, an existing
   * account is deleted outside a dry run once the answer is yes, and the
   * deletion fails exactly when the console runs out before an answer.
   */
  lemma DeleteNeedsConfirmation(found: Option<User>, dryRun: bool, inputs: seq<string>, st: DirState)
    ensures DeleteSpec(found, dryRun, inputs, st).1 != st ==>
              found.Some? && !dryRun && DeleteSpec(found, dryRun, inputs, st).1 == AfterDelete(st, found.value.id) &&
              QueryYesNo(Some("no"), inputs).Success? && QueryYesNo(Some("no"), inputs).value.yes
    ensures found.Some? && !dryRun && QueryYesNo(Some("no"), inputs).Success? && QueryYesNo(Some("no"), inputs).value.yes ==>
              DeleteSpec(found, dryRun, inputs, st).1 == AfterDelete(st, found.value.id)
    ensures DeleteSpec(found, dryRun, inputs, st).0.outcome.Fail? <==>
              found.Some? && !dryRun && QueryYesNo(Some("no"), inputs).Failure?
  {
  }

  /** An `OldUser` object: the username and the account it found, if any. */
  class OldUser {
    const username: string
    const dryRun: bool
    const found: Option<User>
    const service: Service

    constructor(username: string, dryRun: bool, service: Service)
      ensures this.username == username && this.dryRun == dryRun && this.service == service
      ensures found == FindUser(service.state.users, username)
    {
      this.username := username;
      this.dryRun := dryRun;
      this.service := service;
      found := FindUser(service.state.users, username);
    }

    /** `delete`, reading the confirmation from `inputs`. */
    method Delete(inputs: seq<string>) returns (r: DeleteReport)
      modifies service
      ensures (r, service.state) == DeleteSpec(found, dryRun, inputs, old(service.state))
    {
      if found.None? || dryRun {
        return DeleteReport(Pass, 0);
      }
      var answer := AskYesNo(Some("no"), inputs);
      if answer.Failure? {
        return DeleteReport(Fail(answer.error), |inputs|);
      }
      if answer.value.yes {
        service.DeleteUser(found.value.id);
      }
      return DeleteReport(Pass, answer.value.consumed);
    }
  }

  /**
   * `get_usernames_from_csv`: the first field of every non-comment line. A
   * blank line reads as an empty row, whose first field raises `IndexError`.
   */
  function FirstColumns(lines: seq<string>): (r: Result<seq<string>>)
    requires PlainFile(lines)
    ensures r.Failure? <==> exists i :: 0 <= i < |lines| && lines[i] == ""
    ensures r.Failure? ==> r.error == IndexError
    ensures r.Success? ==> r.value == UsernamesFromCsv(lines)
  {
    if lines == [] then Success([])
    else
      assert forall i :: 1 <= i < |lines| ==> lines[1..][i - 1] == lines[i];
      var first: Result<seq<string>> :=
        if IsComment(lines[0]) then Success([])
        else if lines[0] == "" then Failure(IndexError)
        else Success([ReadRow(lines[0])[0]]);
      match first
      case Failure(e) => Failure(e)
      case Success(names) =>
        match FirstColumns(lines[1..])
        case Failure(e) => Failure(e)
        case Success(rest) => Success(names + rest)
  }

  /** `OldUser(username, dry_run).delete()`: the account is looked up by name first. */
  function DeleteByName(username: string, dryRun: bool, inputs: seq<string>, st: DirState)
    : (r: (DeleteReport, DirState))
    ensures r.0.consumed <= |inputs|
  {
    DeleteSpec(FindUser(st.users, username), dryRun, inputs, st)
  }

  /**
   * The deletion batch from the `i`-th name on, with `used` console lines
   * already read: the report of the whole batch and the final directory.
   */
  function DeleteAllFrom(names: seq<string>, i: nat, dryRun: bool, inputs: seq<string>, used: nat, st: DirState)
    : (r: (DeleteReport, DirState))
    requires i <= |names| && used <= |inputs|
    ensures used <= r.0.consumed <= |inputs|
    decreases |names| - i
  {
    if i == |names| then (DeleteReport(Pass, used), st)
    else
      var first := DeleteByName(names[i], dryRun, inputs[used..], st);
      if first.0.outcome.Fail? then (DeleteReport(first.0.outcome, used + first.0.consumed), first.1)
      else DeleteAllFrom(names, i + 1, dryRun, inputs, used + first.0.consumed, first.1)
  }

  /** The deletion batch: what it did, and how many console lines it read. */
  function DeleteAllSpec(names: seq<string>, dryRun: bool, inputs: seq<string>, st: DirState)
    : (r: (DeleteReport, DirState))
    ensures r.0.consumed <= |inputs|
    ensures names == [] ==> r == (DeleteReport(Pass, 0), st)
  {
    DeleteAllFrom(names, 0, dryRun, inputs, 0, st)
  }

  /** One iteration of the deletion loop: a fresh `OldUser` asked to delete itself. */
  method DeleteOldUser(username: string, dryRun: bool, inputs: seq<string>, service: Service)
    returns (r: DeleteReport)
    modifies service
    ensures (r, service.state) == DeleteByName(username, dryRun, inputs, old(service.state))
  {
    var oldUser := new OldUser(username, dryRun, service);
    r := oldUser.Delete(inputs);
  }

  /** The deletion loop of the script's entry point, one `OldUser` per name. */
  method DeleteAll(names: seq<string>, dryRun: bool, inputs: seq<string>, service: Service)
    returns (r: DeleteReport)
    modifies service
    ensures (r, service.state) == DeleteAllSpec(names, dryRun, inputs, old(service.state))
  {
    ghost var spec := DeleteAllSpec(names, dryRun, inputs, service.state);
    var i := 0;
    var used := 0;
    while i < |names|
      invariant 0 <= i <= |names| && 0 <= used <= |inputs|
      invariant spec == DeleteAllFrom(names, i, dryRun, inputs, used, service.state)
    {
      ghost var before := service.state;
      var rep := DeleteOldUser(names[i], dryRun, inputs[used..], service);
      ghost var after := service.state;
      DeleteAllFromStep(names, i, dryRun, inputs, used, before, rep, after);
      if rep.outcome.Fail? {
        return DeleteReport(rep.outcome, used + rep.consumed);
      }
      used := used + rep.consumed;
      i := i + 1;
    }
    return DeleteReport(Pass, used);
  }

  /** One step of the deletion batch, in terms of what the `i`-th deletion reported. */
  lemma DeleteAllFromStep(names: seq<string>, i: nat, dryRun: bool, inputs: seq<string>, used: nat,
                          st: DirState, rep: DeleteReport, after: DirState)
    requires i < |names| && used <= |inputs|
    requires (rep, after) == DeleteByName(names[i], dryRun, inputs[used..], st)
    ensures used + rep.consumed <= |inputs|
    ensures DeleteAllFrom(names, i, dryRun, inputs, used, st) ==
            if rep.outcome.Fail? then (DeleteReport(rep.outcome, used + rep.consumed), after)
            else DeleteAllFrom(names, i + 1, dryRun, inputs, used + rep.consumed, after)
  {
  }

  /** A dry run neither reads the console nor changes the directory. */
  lemma {:induction false} DeleteAllFromDryRun(names: seq<string>, i: nat, inputs: seq<string>, used: nat,
                                               st: DirState)
    requires i <= |names| && used <= |inputs|
    ensures DeleteAllFrom(names, i, true, inputs, used, st) == (DeleteReport(Pass, used), st)
    decreases |names| - i
  {
    if i < |names| {
      DeleteAllFromDryRun(names, i + 1, inputs, used, st);
    }
  }

  lemma DeleteAllDryRun(names: seq<string>, inputs: seq<string>, st: DirState)
    ensures DeleteAllSpec(names, true, inputs, st) == (DeleteReport(Pass, 0), st)
  {
    DeleteAllFromDryRun(names, 0, inputs, 0, st);
  }

  /**
   * A later state of the directory that differs from an earlier one only by
   * deletions: the log gains deletions only, no account appears, and the
   * groups and memberships are untouched.
   */
  predicate OnlyDeletions(before: DirState, after: DirState) {
    OnlyDeletionsAdded(before.log, after.log) &&
    (forall v :: v in after.users ==> v in before.users) &&
    after.groups == before.groups && after.members == before.members
  }

  lemma OnlyDeletionsChain(a: DirState, b: DirState, c: DirState)
    requires OnlyDeletions(a, b) && OnlyDeletions(b, c)
    ensures OnlyDeletions(a, c)
  {
    OnlyDeletionsTrans(a.log, b.log, c.log);
  }

  lemma OnlyDeletionsRefl(st: DirState)
    ensures OnlyDeletions(st, st)
  {
    assert st.log[..|st.log|] == st.log;
  }

  lemma AfterDeleteOnlyDeletes(st: DirState, id: nat)
    ensures OnlyDeletions(st, AfterDelete(st, id))
  {
    var log := AfterDelete(st, id).log;
    assert log[..|st.log|] == st.log;
  }

  lemma DeleteOnlyDeletes(found: Option<User>, dryRun: bool, inputs: seq<string>, st: DirState)
    ensures OnlyDeletions(st, DeleteSpec(found, dryRun, inputs, st).1)
  {
    var st' := DeleteSpec(found, dryRun, inputs, st).1;
    if st' != st {
      assert st'.log == st.log + [DeleteCall(found.value.id)];
    }
  }

  /** The deletion batch only deletes. */
  lemma {:induction false} DeleteAllFromOnlyDeletes(names: seq<string>, i: nat, dryRun: bool, inputs: seq<string>,
                                                    used: nat, st: DirState)
    requires i <= |names| && used <= |inputs|
    ensures OnlyDeletions(st, DeleteAllFrom(names, i, dryRun, inputs, used, st).1)
    decreases |names| - i
  {
    if i < |names| {
      var first := DeleteByName(names[i], dryRun, inputs[used..], st);
      DeleteByNameOnlyDeletes(names[i], dryRun, inputs[used..], st);
      DeleteAllFromStep(names, i, dryRun, inputs, used, st, first.0, first.1);
      if first.0.outcome.Pass? {
        DeleteAllFromOnlyDeletes(names, i + 1, dryRun, inputs, used + first.0.consumed, first.1);
        OnlyDeletionsChain(st, first.1, DeleteAllFrom(names, i, dryRun, inputs, used, st).1);
      }
    } else {
      OnlyDeletionsRefl(st);
    }
  }

  lemma DeleteByNameOnlyDeletes(username: string, dryRun: bool, inputs: seq<string>, st: DirState)
    ensures OnlyDeletions(st, DeleteByName(username, dryRun, inputs, st).1)
  {
    DeleteOnlyDeletes(FindUser(st.users, username), dryRun, inputs, st);
  }

  lemma DeleteAllOnlyDeletes(names: seq<string>, dryRun: bool, inputs: seq<string>, st: DirState)
    ensures OnlyDeletions(st, DeleteAllSpec(names, dryRun, inputs, st).1)
  {
    DeleteAllFromOnlyDeletes(names, 0, dryRun, inputs, 0, st);
  }
}
