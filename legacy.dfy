/**
 * The earlier, single-file version of the script: its CSV loader (plain
 * `zip`, no trimming), its `NewUser`, which checks the group by name and
 * finds it again through a search, and its listing, which has no "active"
 * filter. Its `OldUser` behaves as the later one outside a dry run (it has
 * none), and its username loader is the later one's `FirstColumns`.
 */
module Legacy {
  import opened Text
  import opened Models
  import opened Csv
  import opened Utils
  import opened Directory
  import opened Access
  import opened Listing
  import opened Provisioning

  // ---------------------------------------------------------------------
  // Reading records

  /** `zip(names, row)`: pairs up to the shorter length. */
  function Zip(names: seq<string>, row: seq<string>): (r: seq<(Key, Value)>)
    ensures |r| == if |names| < |row| then |names| else |row|
    ensures forall i :: 0 <= i < |r| ==> r[i] == (Name(names[i]), Str(row[i]))
  {
    var n := if |names| < |row| then |names| else |row|;
    seq(n, i requires 0 <= i < n => (Name(names[i]), Str(row[i])))
  }

  /** `dict(zip(fieldnames, row))` */
  function LegacyRecord(row: seq<string>): (r: UserDict)
    ensures NoneKey !in r
    ensures row == [] ==> r == map[]
  {
    var pairs := Zip(Fieldnames, row);
    DictOfKeys(pairs);
    assert NoneKey !in (set i | 0 <= i < |pairs| :: pairs[i].0);
    DictOf(pairs)
  }

  /** The columns a row supplies are the keys of its record, holding the raw fields. */
  lemma LegacyRecordKeys(row: seq<string>)
    ensures forall k :: k in LegacyRecord(row) ==> k in FieldKeys
    ensures forall i :: 0 <= i < 7 ==> (Name(Fieldnames[i]) in LegacyRecord(row) <==> i < |row|)
    ensures forall i :: 0 <= i < 7 && i < |row| ==> LegacyRecord(row)[Name(Fieldnames[i])] == Str(row[i])
  {
    LegacyRecordFields(row);
    LegacyRecordDomain(row);
  }

  lemma LegacyRecordDomain(row: seq<string>)
    ensures forall k :: k in LegacyRecord(row) ==> k in FieldKeys
    ensures forall i :: 0 <= i < 7 ==> (Name(Fieldnames[i]) in LegacyRecord(row) <==> i < |row|)
  {
    var pairs := Zip(Fieldnames, row);
    DictOfKeys(pairs);
    forall i | 0 <= i < 7 ensures Name(Fieldnames[i]) in LegacyRecord(row) <==> i < |row| {
      if i < |row| {
        assert pairs[i].0 == Name(Fieldnames[i]);
      } else {
        FieldnamesDistinct();
        forall j | 0 <= j < |pairs| ensures pairs[j].0 != Name(Fieldnames[i]) {
          assert Fieldnames[j] != Fieldnames[i];
        }
      }
    }
    forall k | k in LegacyRecord(row) ensures k in FieldKeys {
      var j :| 0 <= j < |pairs| && pairs[j].0 == k;
      assert k == Name(Fieldnames[j]);
    }
  }

  lemma LegacyRecordFields(row: seq<string>)
    ensures forall i :: 0 <= i < 7 && i < |row| ==>
              Name(Fieldnames[i]) in LegacyRecord(row) && LegacyRecord(row)[Name(Fieldnames[i])] == Str(row[i])
  {
    var pairs := Zip(Fieldnames, row);
    FieldnamesDistinct();
    forall i | 0 <= i < 7 && i < |row|
      ensures Name(Fieldnames[i]) in LegacyRecord(row) && LegacyRecord(row)[Name(Fieldnames[i])] == Str(row[i])
    {
      DictOfLast(pairs, i);
    }
  }

  /**
   * `get_users_from_csv` of the earlier script: at most one record per
   * line, its fields untrimmed.
   */
  function LegacyUsersFromCsv(lines: seq<string>): (r: seq<UserDict>)
    requires PlainFile(lines)
    ensures |r| <= |lines|
  {
    if lines == [] then []
    else (if IsComment(lines[0]) then [] else [LegacyRecord(ReadRow(lines[0]))]) + LegacyUsersFromCsv(lines[1..])
  }

  /** A file without comments gives each line's record, in file order. */
  lemma {:induction false} LegacyUsersFromCsvNoComments(lines: seq<string>)
    requires PlainFile(lines)
    requires forall i :: 0 <= i < |lines| ==> !IsComment(lines[i])
    ensures |LegacyUsersFromCsv(lines)| == |lines|
    ensures forall i :: 0 <= i < |lines| ==> LegacyUsersFromCsv(lines)[i] == LegacyRecord(ReadRow(lines[i]))
  {
    LegacyUsersFromCsvLength(lines);
    forall i | 0 <= i < |lines| ensures LegacyUsersFromCsv(lines)[i] == LegacyRecord(ReadRow(lines[i])) {
      LegacyUsersFromCsvAt(lines, i);
    }
  }

  lemma {:induction false} LegacyUsersFromCsvLength(lines: seq<string>)
    requires PlainFile(lines)
    requires forall i :: 0 <= i < |lines| ==> !IsComment(lines[i])
    ensures |LegacyUsersFromCsv(lines)| == |lines|
  {
    if lines != [] {
      assert !IsComment(lines[0]);
      LegacyUsersFromCsvLength(lines[1..]);
    }
  }

  lemma LegacyUsersFromCsvAt(lines: seq<string>, i: nat)
    requires PlainFile(lines)
    requires forall k :: 0 <= k < |lines| ==> !IsComment(lines[k])
    requires i < |lines|
    ensures i < |LegacyUsersFromCsv(lines)| && LegacyUsersFromCsv(lines)[i] == LegacyRecord(ReadRow(lines[i]))
  {
    var before, after := lines[..i], lines[i..];
    assert lines == before + after;
    LegacyUsersFromCsvAppend(before, after);
    LegacyUsersFromCsvLength(before);
    LegacyUsersFromCsvCons(after);
    ElementAfterPrefix(LegacyUsersFromCsv(lines), LegacyUsersFromCsv(before), LegacyRecord(ReadRow(after[0])),
                       LegacyUsersFromCsv(after[1..]));
  }

  /** The first line of a file that does not start with a comment gives the first record. */
  lemma LegacyUsersFromCsvCons(lines: seq<string>)
    requires PlainFile(lines) && lines != [] && !IsComment(lines[0])
    ensures PlainFile(lines[1..])
    ensures LegacyUsersFromCsv(lines) == [LegacyRecord(ReadRow(lines[0]))] + LegacyUsersFromCsv(lines[1..])
  {
  }

  /** A comment line gives no record, and any other line gives the record of its row. */
  lemma LegacyUsersFromCsvLine(line: string)
    requires PlainLine(line)
    ensures IsComment(line) ==> LegacyUsersFromCsv([line]) == []
    ensures !IsComment(line) ==> LegacyUsersFromCsv([line]) == [LegacyRecord(ReadRow(line))]
  {
    assert [line][1..] == [];
  }

  /** The earlier loader reads a file line by line: the records of two parts follow each other. */
  lemma {:induction false} LegacyUsersFromCsvAppend(a: seq<string>, b: seq<string>)
    requires PlainFile(a) && PlainFile(b)
    ensures PlainFile(a + b)
    ensures LegacyUsersFromCsv(a + b) == LegacyUsersFromCsv(a) + LegacyUsersFromCsv(b)
  {
    PlainFileAppend(a, b);
    if a != [] {
      var head := if IsComment(a[0]) then [] else [LegacyRecord(ReadRow(a[0]))];
      assert (a + b)[1..] == a[1..] + b;
      assert (a + b)[0] == a[0];
      assert LegacyUsersFromCsv(a + b) == head + LegacyUsersFromCsv(a[1..] + b);
      LegacyUsersFromCsvAppend(a[1..], b);
      AppendAssoc(head, LegacyUsersFromCsv(a[1..]), LegacyUsersFromCsv(b));
    } else {
      assert a + b == b;
    }
  }

  /** A record from a line of fewer than six fields has no group column, and preparing it fails. */
  lemma ShortRowHasNoGroup(row: seq<string>)
    requires |row| < 6
    ensures Prepare(LegacyAccessLevelByName, LegacyRecord(row)) == Failure(KeyError(GroupKey))
  {
    LegacyRecordKeys(row);
    assert Fieldnames[5] == "group";
  }

  /**
   * For a line of exactly seven fields that carry no surrounding spaces, the
   * two loaders agree.
   */
  lemma FullRowsAgree(row: seq<string>)
    requires |row| == 7
    requires forall i :: 0 <= i < 7 ==> Trim(row[i]) == row[i]
    ensures LegacyRecord(row) == RowRecord(TrimAll(row))
  {
    assert TrimAll(row) == row;
    FullRowRecord(row);
  }

  lemma FullRowRecord(row: seq<string>)
    requires |row| == 7
    ensures LegacyRecord(row) == RowRecord(row)
  {
    LegacyRecordKeys(row);
    RowRecordShort(row);
    forall k | k in FieldKeys ensures k in LegacyRecord(row) && LegacyRecord(row)[k] == RowRecord(row)[k] {
      var i :| 0 <= i < 7 && k == Name(Fieldnames[i]);
    }
    assert LegacyRecord(row).Keys == RowRecord(row).Keys;
  }

  // ---------------------------------------------------------------------
  // Checking and creating an account

  /** `value in [g.name for g in groups]` */
  predicate GroupNamed(groups: seq<Group>, v: Value) {
    v.Str? && exists i :: 0 <= i < |groups| && groups[i].name == v.s
  }

  /**
   * `_check` of the earlier script: false when a username, email or name is
   * used already, or when no group bears the requested name.
   */
  function LegacyCheckSpec(existing: seq<User>, d: UserDict, group: Option<GroupRequest>, st: DirState)
    : (r: Result<bool>)
    ensures r.Failure? <==> Describe(d, group).Failure?
    ensures r == Success(true) <==>
              Describe(d, group).Success? &&
              !Taken(existing, "username", d[Name("username")]) &&
              !Taken(existing, "email", d[Name("email")]) &&
              !Taken(existing, "name", d[Name("name")]) &&
              (group.None? || GroupNamed(st.groups, group.value.name))
  {
    match Describe(d, group)
    case Failure(e) => Failure(e)
    case Success(_) =>
      assert Checked[0] == "username" && Checked[1] == "email" && Checked[2] == "name";
      Success(!Taken(existing, "username", d[Name("username")]) &&
              !Taken(existing, "email", d[Name("email")]) &&
              !Taken(existing, "name", d[Name("name")]) &&
              (group.None? || GroupNamed(st.groups, group.value.name)))
  }

  /**
   * `_add_to_group` as written: search the groups by the name and accept
   * the result only when it is a single group bearing exactly that name.
   */
  function AddToGroupAsWritten(st: DirState, g: GroupRequest, userId: nat): (r: (Outcome, DirState))
    ensures var found := SearchGroups(st.groups, Show(g.name));
            r.0.Pass? <==> |found| == 1 && g.name == Str(found[0].name) && g.level in LegacyAccessLevelByName
    ensures var found := SearchGroups(st.groups, Show(g.name));
            r.0.Pass? ==> r.1 == AfterAddMember(st, found[0].id, userId, LegacyAccessLevelByName[g.level])
    ensures var found := SearchGroups(st.groups, Show(g.name));
            !(|found| == 1 && g.name == Str(found[0].name)) ==> r.0 == Fail(SystemExit("Group " + Show(g.name) + " not found"))
    ensures r.0.Fail? ==> r.1 == st
  {
    var found := SearchGroups(st.groups, Show(g.name));
    if |found| == 1 && g.name == Str(found[0].name) then
      if g.level !in LegacyAccessLevelByName then (Fail(KeyError(Name(g.level))), st)
      else (Pass, AfterAddMember(st, found[0].id, userId, LegacyAccessLevelByName[g.level]))
    else (Fail(SystemExit("Group " + Show(g.name) + " not found")), st)
  }

  /**
   * A name that is part of another group's name or path makes the search
   * return more than one group, so the account, created already, is left
   * without its group and the run stops, although the check accepted the
   * group.
   */
  lemma AmbiguousNameStopsRun(st: DirState, g: GroupRequest, userId: nat, i: nat, j: nat)
    requires i < |st.groups| && j < |st.groups|
    requires g.name == Str(st.groups[i].name)
    requires st.groups[j] != st.groups[i]
    requires Contains(st.groups[j].name, st.groups[i].name)
    ensures GroupNamed(st.groups, g.name)
    ensures AddToGroupAsWritten(st, g, userId) == (Fail(SystemExit("Group " + st.groups[i].name + " not found")), st)
    ensures g.level in LegacyAccessLevelByName ==> AddToGroup(st, g, userId).0 == Pass
  {
    var s := st.groups[i].name;
    ContainsSelf(s);
    var found := SearchGroups(st.groups, s);
    assert st.groups[i] in found && st.groups[j] in found;
    if g.level in LegacyAccessLevelByName {
      CheckedGroupFound(st, g, userId);
    }
  }

  lemma {:induction false} ContainsSelf(s: string)
    ensures Contains(s, s)
  {
    assert s[..|s|] == s;
  }

  /** The first group of a sequence bearing exactly the name. */
  function FirstNamed(groups: seq<Group>, name: string): (r: Option<Group>)
    ensures r.None? <==> forall i :: 0 <= i < |groups| ==> groups[i].name != name
    ensures r.Some? ==> r.value in groups && r.value.name == name
  {
    if groups == [] then None
    else if groups[0].name == name then Some(groups[0])
    else FirstNamed(groups[1..], name)
  }

  /**
   * `_add_to_group` as intended: the group of the search results that bears
   * exactly the requested name, which is the group the check found.
   */
  function AddToGroup(st: DirState, g: GroupRequest, userId: nat): (r: (Outcome, DirState))
    ensures r.0.Fail? ==> r.1 == st
    ensures r.0.Pass? ==>
              g.name.Str? && g.level in LegacyAccessLevelByName &&
              FirstNamed(SearchGroups(st.groups, g.name.s), g.name.s).Some? &&
              var grp := FirstNamed(SearchGroups(st.groups, g.name.s), g.name.s).value;
              grp in st.groups && grp.name == g.name.s &&
              r.1 == AfterAddMember(st, grp.id, userId, LegacyAccessLevelByName[g.level])
  {
    if !g.name.Str? then (Fail(SystemExit("Group " + Show(g.name) + " not found")), st)
    else match FirstNamed(SearchGroups(st.groups, g.name.s), g.name.s)
      case None => (Fail(SystemExit("Group " + Show(g.name) + " not found")), st)
      case Some(grp) =>
        if g.level !in LegacyAccessLevelByName then (Fail(KeyError(Name(g.level))), st)
        else (Pass, AfterAddMember(st, grp.id, userId, LegacyAccessLevelByName[g.level]))
  }

  /** A group the check accepted is found again, and the account joins it. */
  lemma CheckedGroupFound(st: DirState, g: GroupRequest, userId: nat)
    requires GroupNamed(st.groups, g.name)
    requires g.level in LegacyAccessLevelByName
    ensures AddToGroup(st, g, userId).0 == Pass
  {
    var i :| 0 <= i < |st.groups| && st.groups[i].name == g.name.s;
    ContainsSelf(g.name.s);
    assert st.groups[i] in SearchGroups(st.groups, g.name.s);
  }

  /** `save` of the earlier script (which has no dry run), with the intended `_add_to_group`. */
  function LegacySaveSpec(existing: seq<User>, d: UserDict, group: Option<GroupRequest>, st: DirState)
    : (r: (Outcome, DirState))
    ensures LegacyCheckSpec(existing, d, group, st).Failure? ==>
              r == (Fail(LegacyCheckSpec(existing, d, group, st).error), st)
    ensures LegacyCheckSpec(existing, d, group, st) == Success(false) ==> r == (Pass, st)
  {
    match LegacyCheckSpec(existing, d, group, st)
    case Failure(e) => (Fail(e), st)
    case Success(ok) =>
      if !ok then (Pass, st)
      else LegacySaveChecked(d, group, st)
  }

  /** A save past its check: `_create`, then the intended `_add_to_group` for a record with a group. */
  function LegacySaveChecked(d: UserDict, group: Option<GroupRequest>, st: DirState): (r: (Outcome, DirState))
    ensures r.1.groups == st.groups && r.1.lookupErrors == st.lookupErrors
    ensures r.0.Pass? ==> Accepts(st, d) && r.1.users == st.users + [NewAccount(st, d)]
    ensures r.0.Pass? && group.None? ==> r.1.members == st.members
    ensures r.0.Pass? && group.Some? ==>
              group.value.level in LegacyAccessLevelByName &&
              exists grp :: grp in st.groups && Str(grp.name) == group.value.name &&
                r.1.members == st.members + {Membership(grp.id, st.nextId, LegacyAccessLevelByName[group.value.level])}
  {
    var (made, st1) := CreateSpec(d, st);
    if made.Failure? then (Fail(made.error), st1)
    else if group.None? then (Pass, st1)
    else AddToGroup(st1, group.value, made.value.id)
  }

  /**
   * Once the check has passed and the directory accepts the record, the
   * save completes: the account is created and, for a record with a group,
   * joins it.
   */
  lemma CheckedSaveCompletes(existing: seq<User>, d: UserDict, group: Option<GroupRequest>, st: DirState)
    requires LegacyCheckSpec(existing, d, group, st) == Success(true)
    requires Accepts(st, d)
    requires group.Some? ==> group.value.level in LegacyAccessLevelByName
    ensures LegacySaveSpec(existing, d, group, st).0 == Pass
    ensures LegacySaveSpec(existing, d, group, st).1.users == st.users + [NewAccount(st, d)]
  {
    assert Describe(d, group).Success?;
    CreateSpecCalls(d, st);
    var st1 := CreateSpec(d, st).1;
    if group.Some? {
      CheckedGroupFound(st1, group.value, st.nextId);
    }
  }

  /** A `NewUser` object of the earlier script. */
  class LegacyNewUser {
    const userdict: UserDict
    const group: Option<GroupRequest>
    const existing: seq<User>
    const service: Service

    constructor(p: Prepared, service: Service)
      ensures userdict == p.userdict && group == p.group
      ensures this.service == service && existing == service.state.users
    {
      userdict := p.userdict;
      group := p.group;
      this.service := service;
      existing := service.state.users;
    }

    /** `_check` */
    method Check() returns (r: Result<bool>)
      ensures r == LegacyCheckSpec(existing, userdict, group, service.state)
    {
      var description := Describe(userdict, group);
      if description.Failure? {
        return Failure(description.error);
      }
      var checkOk := true;
      assert Name(Checked[0]) in userdict && Name(Checked[1]) in userdict && Name(Checked[2]) in userdict;
      for i := 0 to |Checked|
        invariant checkOk <==>
                    forall j :: 0 <= j < i ==> !Taken(existing, Checked[j], userdict[Name(Checked[j])])
      {
        var entry := Checked[i];
        if Taken(existing, entry, userdict[Name(entry)]) {
          checkOk := false;
        }
      }
      assert Checked == ["username", "email", "name"];
      if group.Some? && !GroupNamed(service.state.groups, group.value.name) {
        checkOk := false;
      }
      return Success(checkOk);
    }

    /** `save` */
    method Save() returns (r: Outcome)
      modifies service
      ensures (r, service.state) == LegacySaveSpec(existing, userdict, group, old(service.state))
    {
      var ok := Check();
      if ok.Failure? {
        return Fail(ok.error);
      }
      if !ok.value {
        return Pass;
      }
      var created := CreateAccount(userdict, service);
      if created.Failure? {
        return Fail(created.error);
      }
      var u := created.value;
      if group.Some? {
        var g := group.value;
        if !g.name.Str? {
          return Fail(SystemExit("Group " + Show(g.name) + " not found"));
        }
        var found := FirstNamed(SearchGroups(service.state.groups, g.name.s), g.name.s);
        if found.None? {
          return Fail(SystemExit("Group " + Show(g.name) + " not found"));
        }
        if g.level !in LegacyAccessLevelByName {
          return Fail(KeyError(Name(g.level)));
        }
        service.AddMember(found.value.id, u.id, LegacyAccessLevelByName[g.level]);
      }
      return Pass;
    }
  }

  /** One `NewUser(record).save()` per record, stopping at the first failure. */
  function LegacyCreateAllSpec(records: seq<UserDict>, st: DirState): (r: (Outcome, DirState))
    ensures records == [] ==> r == (Pass, st)
  {
    if records == [] then (Pass, st)
    else match Prepare(LegacyAccessLevelByName, records[0])
      case Failure(e) => (Fail(e), st)
      case Success(p) =>
        var (o, st1) := LegacySaveSpec(st.users, p.userdict, p.group, st);
        if o.Fail? then (o, st1) else LegacyCreateAllSpec(records[1..], st1)
  }

  /** The creation loop of the earlier script. */
  method LegacyCreateAll(records: seq<UserDict>, service: Service) returns (r: Outcome)
    modifies service
    ensures (r, service.state) == LegacyCreateAllSpec(records, old(service.state))
  {
    var i := 0;
    while i < |records|
      invariant 0 <= i <= |records|
      invariant LegacyCreateAllSpec(records, old(service.state)) == LegacyCreateAllSpec(records[i..], service.state)
    {
      assert records[i..][1..] == records[i + 1..];
      var p := Prepare(LegacyAccessLevelByName, records[i]);
      if p.Failure? {
        return Fail(p.error);
      }
      var newUser := new LegacyNewUser(p.value, service);
      var o := newUser.Save();
      if o.Fail? {
        return o;
      }
      i := i + 1;
    }
    return Pass;
  }

  lemma LegacySaveKeepsWellFormed(existing: seq<User>, d: UserDict, group: Option<GroupRequest>, st: DirState)
    requires WellFormed(st)
    ensures WellFormed(LegacySaveSpec(existing, d, group, st).1)
  {
    CreateSpecKeepsWellFormed(d, st);
  }

  lemma LegacySaveCheckedAddsNoDeletion(d: UserDict, group: Option<GroupRequest>, st: DirState)
    ensures NoDeletionAdded(st.log, LegacySaveChecked(d, group, st).1.log)
  {
    CreateSpecCalls(d, st);
  }

  lemma LegacySaveAddsNoDeletion(existing: seq<User>, d: UserDict, group: Option<GroupRequest>, st: DirState)
    ensures NoDeletionAdded(st.log, LegacySaveSpec(existing, d, group, st).1.log)
  {
    LegacySaveCheckedAddsNoDeletion(d, group, st);
  }

  /** The earlier script's creation batch keeps ids fresh and unique and never deletes an account. */
  lemma {:induction false} LegacyCreateAllNeverDeletes(records: seq<UserDict>, st: DirState)
    requires WellFormed(st)
    ensures WellFormed(LegacyCreateAllSpec(records, st).1)
    ensures NoDeletionAdded(st.log, LegacyCreateAllSpec(records, st).1.log)
  {
    if records != [] && Prepare(LegacyAccessLevelByName, records[0]).Success? {
      var p := Prepare(LegacyAccessLevelByName, records[0]).value;
      var (o, st1) := LegacySaveSpec(st.users, p.userdict, p.group, st);
      LegacySaveAddsNoDeletion(st.users, p.userdict, p.group, st);
      LegacySaveKeepsWellFormed(st.users, p.userdict, p.group, st);
      if o.Pass? {
        LegacyCreateAllNeverDeletes(records[1..], st1);
        NoDeletionTrans(st.log, st1.log, LegacyCreateAllSpec(records[1..], st1).1.log);
      }
    }
  }

  // ---------------------------------------------------------------------
  // Listing

  /**
   * `output` of the earlier script: the "unused" and "sign_in" filters only.
   * Its `user_info` has no `name_only` flag, so that flag is off.
   */
  function LegacyOutputLines(d: Display, activity: seq<string>, users: seq<User>, now: int, parse: string -> Option<int>)
    : (r: Result<seq<string>>)
    requires !d.nameOnly
    ensures "active" !in activity ==> r == OutputLines(d, activity, users, now, parse)
    ensures "active" in activity && "unused" !in activity && "sign_in" !in activity ==>
              r.Success? ==> r.value == []
  {
    if activity == [] then Success(Infos(d, users))
    else match ActivityOf(users, now, parse)
      case Failure(e) => Failure(e)
      case Success(b) =>
        if "unused" in activity then
          Success([OldHeader] + Infos(d, b.oldSignIn) + [NeverHeader] + Infos(d, b.neverSignIn))
        else if "sign_in" in activity then Success([AlreadyHeader] + Infos(d, b.alreadySignIn))
        else Success([])
  }
}
