/**
 * The command-line front end: the `create-from-csv`, `delete-from-csv` and
 * `delete-user` commands, which drive the directory through the service
 * layer. The console is a sequence of input lines; the run reads them in
 * order.
 */
module Cli {
  import opened Text
  import opened Models
  import opened Utils
  import opened Directory
  import opened Access
  import opened Provisioning

  // ---------------------------------------------------------------------
  // The service layer

  /** `get_user_by_username`: the first account with that username, or `ValueError`. */
  function UserByUsername(st: DirState, username: string): (r: Result<User>)
    ensures r.Failure? <==> forall i :: 0 <= i < |st.users| ==> st.users[i].username != username
    ensures r.Failure? ==> r.error.ValueError?
    ensures r.Success? ==> r.value in st.users && r.value.username == username
  {
    match FindUser(st.users, username)
    case None => Failure(ValueError("User with username '" + username + "' not found."))
    case Some(u) => Success(u)
  }

  /**
   * The request `create_user` sends: username, email and name, the password
   * reset flag, and the organization and location only when they are truthy.
   */
  function CreateRequest(username: Value, email: Value, name: Value, organization: Value, location: Value)
    : (r: UserDict)
    ensures r.Keys == {Name("username"), Name("email"), Name("name"), ResetKey} +
                      (if Truthy(organization) then {Name("organization")} else {}) +
                      (if Truthy(location) then {Name("location")} else {})
    ensures r[Name("username")] == username && r[Name("email")] == email && r[Name("name")] == name
    ensures r[ResetKey] == Flag(true)
    ensures Truthy(organization) ==> r[Name("organization")] == organization
    ensures Truthy(location) ==> r[Name("location")] == location
  {
    map[Name("username") := username, Name("email") := email, Name("name") := name, ResetKey := Flag(true)] +
    (if Truthy(organization) then map[Name("organization") := organization] else map[]) +
    (if Truthy(location) then map[Name("location") := location] else map[])
  }

  // ---------------------------------------------------------------------
  // create-from-csv

  /**
   * The guarded part of a record's processing: look the group up, resolve
   * the access level by name and add the new account. Every failure in it
   * is caught and reported as a warning, so it never stops the run; a level
   * that is not a string has no `upper` and fails like the lookup.
   */
  function JoinGroup(st: DirState, group: Value, accessLevel: Value, userId: nat): (r: DirState)
    ensures r == st ||
            (GroupGet(st, Show(group)).Success? && accessLevel.Str? &&
             ResolveAccessLevel(accessLevel.s).Some? &&
             r == AfterAddMember(st, GroupGet(st, Show(group)).value.id, userId,
                                 ResolveAccessLevel(accessLevel.s).value))
    ensures GroupGet(st, Show(group)).Failure? ==> r == st
    ensures accessLevel.Str? && ResolveAccessLevel(accessLevel.s).None? ==> r == st
    ensures !accessLevel.Str? ==> r == st
    ensures GroupGet(st, Show(group)).Success? && accessLevel.Str? && ResolveAccessLevel(accessLevel.s).Some? ==>
              r == AfterAddMember(st, GroupGet(st, Show(group)).value.id, userId, ResolveAccessLevel(accessLevel.s).value)
  {
    match GroupGet(st, Show(group))
    case Failure(_) => st
    case Success(g) =>
      if !accessLevel.Str? then st
      else match ResolveAccessLevel(accessLevel.s)
        case None => st
        case Some(level) => AfterAddMember(st, g.id, userId, level)
  }

  /** One record of `create-from-csv`. */
  function CreateOne(d: UserDict, dryRun: bool, st: DirState): (r: (Outcome, DirState))
    ensures dryRun ==> r.1 == st
    ensures r.0.Fail? ==> r.1 == st
  {
    match GetUserData(d, "username")
    case Failure(e) => (Fail(e), st)
    case Success(username) =>
      match GetUserData(d, "email")
      case Failure(e) => (Fail(e), st)
      case Success(email) =>
        match GetUserData(d, "name")
        case Failure(e) => (Fail(e), st)
        case Success(name) =>
          if dryRun then (Pass, st)
          else
            CreateAndJoin(CreateRequest(username, email, name, Get(d, "organization"), Get(d, "location")),
                          Get(d, "group"), Get(d, "access_level"), st)
  }

  /**
   * A record past its dry-run test: create the account, then, when the
   * record names a group and a level, try to add the account to the group.
   */
  function CreateAndJoin(request: UserDict, group: Value, accessLevel: Value, st: DirState): (r: (Outcome, DirState))
    ensures r.0.Fail? ==> r.1 == st
  {
    var (created, st1) := CreateResult(st, request);
    if created.Failure? then (Fail(created.error), st)
    else if Truthy(group) && Truthy(accessLevel) then (Pass, JoinGroup(st1, group, accessLevel, created.value.id))
    else (Pass, st1)
  }

  lemma CreateAndJoinKeepsWellFormed(request: UserDict, group: Value, accessLevel: Value, st: DirState)
    requires WellFormed(st)
    ensures WellFormed(CreateAndJoin(request, group, accessLevel, st).1)
  {
    CreateKeepsWellFormed(st, request);
  }

  /** `create-from-csv` over the records of the file, stopping at the first uncaught error. */
  function CreateFromCsvSpec(records: seq<UserDict>, dryRun: bool, st: DirState): (r: (Outcome, DirState))
    ensures records == [] ==> r == (Pass, st)
  {
    if records == [] then (Pass, st)
    else
      var (o, st1) := CreateOne(records[0], dryRun, st);
      if o.Fail? then (o, st1) else CreateFromCsvSpec(records[1..], dryRun, st1)
  }

  /** The `create-from-csv` loop. */
  method CreateFromCsv(records: seq<UserDict>, dryRun: bool, service: Service) returns (r: Outcome)
    modifies service
    ensures (r, service.state) == CreateFromCsvSpec(records, dryRun, old(service.state))
  {
    var i := 0;
    while i < |records|
      invariant 0 <= i <= |records|
      invariant CreateFromCsvSpec(records, dryRun, old(service.state)) ==
                CreateFromCsvSpec(records[i..], dryRun, service.state)
    {
      assert records[i..][1..] == records[i + 1..];
      var user := records[i];
      var username := GetUserData(user, "username");
      if username.Failure? {
        return Fail(username.error);
      }
      var email := GetUserData(user, "email");
      if email.Failure? {
        return Fail(email.error);
      }
      var name := GetUserData(user, "name");
      if name.Failure? {
        return Fail(name.error);
      }
      var organization := Get(user, "organization");
      var location := Get(user, "location");
      var group := Get(user, "group");
      var accessLevel := Get(user, "access_level");
      if !dryRun {
        var request := CreateRequest(username.value, email.value, name.value, organization, location);
        var created := service.CreateUser(request);
        if created.Failure? {
          return Fail(created.error);
        }
        if Truthy(group) && Truthy(accessLevel) {
          var found := GroupGet(service.state, Show(group));
          if found.Success? && accessLevel.Str? {
            var level := ResolveAccessLevel(accessLevel.s);
            if level.Some? {
              service.AddMember(found.value.id, created.value.id, level.value);
            }
          }
        }
      }
      i := i + 1;
    }
    return Pass;
  }

  /**
   * What one record asks of the directory: nothing, or the creation of the
   * account, followed, when the record names a group and a level that both
   * resolve, by the membership of that same account at that level.
   */
  lemma CreateOneCalls(d: UserDict, dryRun: bool, st: DirState)
    ensures var st' := CreateOne(d, dryRun, st).1;
            st' == st ||
            (!dryRun &&
             var request := CreateRequest(Get(d, "username"), Get(d, "email"), Get(d, "name"),
                                          Get(d, "organization"), Get(d, "location"));
             Accepts(st, request) &&
             (st'.log == st.log + [CreateCall(request, st.nextId)] ||
              (Truthy(Get(d, "group")) && Truthy(Get(d, "access_level")) && Get(d, "access_level").Str? &&
               ResolveAccessLevel(Get(d, "access_level").s).Some? &&
               st'.log == st.log + [CreateCall(request, st.nextId),
                                    AddMemberCall(GroupGet(st, Show(Get(d, "group"))).value.id, st.nextId,
                                                  ResolveAccessLevel(Get(d, "access_level").s).value)])))
  {
    if !dryRun && GetUserData(d, "username").Success? && GetUserData(d, "email").Success? &&
       GetUserData(d, "name").Success? {
      var request := CreateRequest(Get(d, "username"), Get(d, "email"), Get(d, "name"),
                                   Get(d, "organization"), Get(d, "location"));
      var (created, st1) := CreateResult(st, request);
      if created.Success? {
        assert GroupGet(st1, Show(Get(d, "group"))) == GroupGet(st, Show(Get(d, "group")));
      }
    }
  }

  /**
   * Outside a dry run, a record whose request the instance accepts creates
   * its account and the run goes on. Without a group or a level nothing
   * else happens; with a group that is found and a level that resolves, the
   * new account joins that group at that level.
   */
  lemma CreateOneCreates(d: UserDict, st: DirState)
    ensures var request := CreateRequest(Get(d, "username"), Get(d, "email"), Get(d, "name"),
                                         Get(d, "organization"), Get(d, "location"));
            var r := CreateOne(d, false, st);
            Accepts(st, request) ==>
              r.0 == Pass && r.1.users == st.users + [NewAccount(st, request)] &&
              r.1.log[..|st.log| + 1] == st.log + [CreateCall(request, st.nextId)]
    ensures var request := CreateRequest(Get(d, "username"), Get(d, "email"), Get(d, "name"),
                                         Get(d, "organization"), Get(d, "location"));
            Accepts(st, request) && !(Truthy(Get(d, "group")) && Truthy(Get(d, "access_level"))) ==>
              CreateOne(d, false, st) == (Pass, CreateResult(st, request).1)
    ensures var request := CreateRequest(Get(d, "username"), Get(d, "email"), Get(d, "name"),
                                         Get(d, "organization"), Get(d, "location"));
            var group, level := Get(d, "group"), Get(d, "access_level");
            Accepts(st, request) && Truthy(group) && Truthy(level) && level.Str? &&
            GroupGet(st, Show(group)).Success? && ResolveAccessLevel(level.s).Some? ==>
              CreateOne(d, false, st) ==
              (Pass, AfterAddMember(CreateResult(st, request).1, GroupGet(st, Show(group)).value.id, st.nextId,
                                    ResolveAccessLevel(level.s).value))
  {
    var request := CreateRequest(Get(d, "username"), Get(d, "email"), Get(d, "name"),
                                 Get(d, "organization"), Get(d, "location"));
    if Accepts(st, request) {
      assert HasText(request, "username") && HasText(request, "email") && HasText(request, "name");
      var st1 := CreateResult(st, request).1;
      assert GroupGet(st1, Show(Get(d, "group"))) == GroupGet(st, Show(Get(d, "group")));
    }
  }

  /**
   * A group that cannot be found only costs the membership: the account is
   * created all the same and the run goes on.
   */
  lemma MissingGroupKeepsAccount(d: UserDict, st: DirState)
    requires GetUserData(d, "username").Success? && GetUserData(d, "email").Success? && GetUserData(d, "name").Success?
    requires GroupGet(st, Show(Get(d, "group"))).Failure?
    ensures var request := CreateRequest(Get(d, "username"), Get(d, "email"), Get(d, "name"),
                                         Get(d, "organization"), Get(d, "location"));
            Accepts(st, request) ==> CreateOne(d, false, st) == (Pass, CreateResult(st, request).1)
  {
    var request := CreateRequest(Get(d, "username"), Get(d, "email"), Get(d, "name"),
                                 Get(d, "organization"), Get(d, "location"));
    var st1 := CreateResult(st, request).1;
    assert GroupGet(st1, Show(Get(d, "group"))) == GroupGet(st, Show(Get(d, "group")));
  }

  /** A dry run changes nothing in the directory. */
  lemma {:induction false} CreateFromCsvDryRun(records: seq<UserDict>, st: DirState)
    ensures CreateFromCsvSpec(records, true, st).1 == st
  {
    if records != [] {
      CreateFromCsvDryRun(records[1..], st);
    }
  }

  lemma CreateOneKeepsWellFormed(d: UserDict, dryRun: bool, st: DirState)
    requires WellFormed(st)
    ensures WellFormed(CreateOne(d, dryRun, st).1)
  {
    var request := CreateRequest(Get(d, "username"), Get(d, "email"), Get(d, "name"),
                                 Get(d, "organization"), Get(d, "location"));
    CreateAndJoinKeepsWellFormed(request, Get(d, "group"), Get(d, "access_level"), st);
  }

  lemma CreateOneAddsNoDeletion(d: UserDict, dryRun: bool, st: DirState)
    ensures NoDeletionAdded(st.log, CreateOne(d, dryRun, st).1.log)
  {
    CreateOneCalls(d, dryRun, st);
  }

  /** The run keeps ids fresh and unique and never deletes an account. */
  lemma {:induction false} CreateFromCsvNeverDeletes(records: seq<UserDict>, dryRun: bool, st: DirState)
    requires WellFormed(st)
    ensures WellFormed(CreateFromCsvSpec(records, dryRun, st).1)
    ensures NoDeletionAdded(st.log, CreateFromCsvSpec(records, dryRun, st).1.log)
  {
    if records != [] {
      var (o, st1) := CreateOne(records[0], dryRun, st);
      CreateOneKeepsWellFormed(records[0], dryRun, st);
      CreateOneAddsNoDeletion(records[0], dryRun, st);
      if o.Pass? {
        CreateFromCsvNeverDeletes(records[1..], dryRun, st1);
        NoDeletionTrans(st.log, st1.log, CreateFromCsvSpec(records[1..], dryRun, st1).1.log);
      }
    }
  }

  // ---------------------------------------------------------------------
  // delete-from-csv and delete-user

  /**
   * The answers the confirmation accepts as a yes, after `strip().lower()`:
   * once the surrounding whitespace is gone, "y" or "yes" in any mix of
   * cases.
   */
  function Confirms(line: string): (r: bool)
    ensures r <==> YesInAnyCase(Trim(line))
  {
    LowerYes(Trim(line));
    Lower(Trim(line)) in {"y", "yes"}
  }

  /** "y" or "yes", each letter small or capital. */
  predicate YesInAnyCase(t: string) {
    (|t| == 1 && (t[0] == 'y' || t[0] == 'Y')) ||
    (|t| == 3 && (t[0] == 'y' || t[0] == 'Y') && (t[1] == 'e' || t[1] == 'E') && (t[2] == 's' || t[2] == 'S'))
  }

  lemma LowerYes(t: string)
    ensures Lower(t) in {"y", "yes"} <==> YesInAnyCase(t)
  {
    var l := Lower(t);
    if |t| == 1 {
      assert l == "y" <==> l[0] == 'y';
    } else if |t| == 3 {
      assert l == "yes" <==> l[0] == 'y' && l[1] == 'e' && l[2] == 's';
    }
  }

  /**
   * One username of `delete-from-csv`: an unknown user is skipped and a dry
   * run only reports; otherwise one console line is read and the account is
   * deleted when it confirms. An empty console raises `EOFError`.
   */
  function DeleteOne(username: string, dryRun: bool, inputs: seq<string>, st: DirState): (r: (DeleteReport, DirState))
    ensures r.0.consumed <= 1 && r.0.consumed <= |inputs|
    ensures r.0.outcome.Fail? <==> UserByUsername(st, username).Success? && !dryRun && inputs == []
    ensures r.0.outcome.Fail? ==> r.0.outcome.error == EOFError
  {
    match UserByUsername(st, username)
    case Failure(_) => (DeleteReport(Pass, 0), st)
    case Success(user) =>
      if dryRun then (DeleteReport(Pass, 0), st)
      else if inputs == [] then (DeleteReport(Fail(EOFError), 0), st)
      else if Confirms(inputs[0]) then (DeleteReport(Pass, 1), AfterDelete(st, user.id))
      else (DeleteReport(Pass, 1), st)
  }

  /** An account is deleted only when the line read for it confirms. */
  lemma DeleteOneNeedsConfirmation(username: string, dryRun: bool, inputs: seq<string>, st: DirState)
    ensures var st' := DeleteOne(username, dryRun, inputs, st).1;
            st' == st ||
            (!dryRun && inputs != [] && Confirms(inputs[0]) && UserByUsername(st, username).Success? &&
             st' == AfterDelete(st, UserByUsername(st, username).value.id))
    ensures !dryRun && inputs != [] && Confirms(inputs[0]) && UserByUsername(st, username).Success? ==>
              DeleteOne(username, dryRun, inputs, st).1 == AfterDelete(st, UserByUsername(st, username).value.id)
  {
  }

  /**
   * The body of the `delete-from-csv` loop for one username: look the
   * account up, and outside a dry run read one line and delete the account
   * when it confirms.
   */
  method ConfirmAndDelete(username: string, dryRun: bool, inputs: seq<string>, service: Service)
    returns (r: DeleteReport)
    modifies service
    ensures (r, service.state) == DeleteOne(username, dryRun, inputs, old(service.state))
  {
    var user := UserByUsername(service.state, username);
    if user.Failure? || dryRun {
      return DeleteReport(Pass, 0);
    }
    if inputs == [] {
      return DeleteReport(Fail(EOFError), 0);
    }
    if Lower(Trim(inputs[0])) in {"y", "yes"} {
      service.DeleteUser(user.value.id);
    }
    return DeleteReport(Pass, 1);
  }

  /**
   * `delete-from-csv` from the `i`-th username on, with `used` console lines
   * already read: the report of the whole run and the final directory.
   */
  function DeleteFrom(names: seq<string>, i: nat, dryRun: bool, inputs: seq<string>, used: nat, st: DirState)
    : (r: (DeleteReport, DirState))
    requires i <= |names| && used <= |inputs|
    ensures used <= r.0.consumed <= |inputs|
    decreases |names| - i
  {
    if i == |names| then (DeleteReport(Pass, used), st)
    else
      var first := DeleteOne(names[i], dryRun, inputs[used..], st);
      if first.0.outcome.Fail? then (DeleteReport(first.0.outcome, used), first.1)
      else DeleteFrom(names, i + 1, dryRun, inputs, used + first.0.consumed, first.1)
  }

  /** `delete-from-csv` over the usernames of the file. */
  function DeleteFromCsvSpec(names: seq<string>, dryRun: bool, inputs: seq<string>, st: DirState)
    : (r: (DeleteReport, DirState))
    ensures r.0.consumed <= |inputs|
    ensures names == [] ==> r == (DeleteReport(Pass, 0), st)
  {
    DeleteFrom(names, 0, dryRun, inputs, 0, st)
  }

  /** The `delete-from-csv` loop. */
  method DeleteFromCsv(names: seq<string>, dryRun: bool, inputs: seq<string>, service: Service)
    returns (r: DeleteReport)
    modifies service
    ensures (r, service.state) == DeleteFromCsvSpec(names, dryRun, inputs, old(service.state))
  {
    var i := 0;
    var used := 0;
    while i < |names|
      invariant 0 <= i <= |names| && 0 <= used <= |inputs|
      invariant DeleteFromCsvSpec(names, dryRun, inputs, old(service.state)) ==
                DeleteFrom(names, i, dryRun, inputs, used, service.state)
    {
      var rep := ConfirmAndDelete(names[i], dryRun, inputs[used..], service);
      if rep.outcome.Fail? {
        return DeleteReport(rep.outcome, used);
      }
      used := used + rep.consumed;
      i := i + 1;
    }
    return DeleteReport(Pass, used);
  }

  /** A dry run neither reads the console nor changes the directory. */
  lemma {:induction false} DeleteFromDryRun(names: seq<string>, i: nat, inputs: seq<string>, used: nat, st: DirState)
    requires i <= |names| && used <= |inputs|
    ensures DeleteFrom(names, i, true, inputs, used, st) == (DeleteReport(Pass, used), st)
    decreases |names| - i
  {
    if i < |names| {
      DeleteFromDryRun(names, i + 1, inputs, used, st);
    }
  }

  lemma DeleteFromCsvDryRun(names: seq<string>, inputs: seq<string>, st: DirState)
    ensures DeleteFromCsvSpec(names, true, inputs, st) == (DeleteReport(Pass, 0), st)
  {
    DeleteFromDryRun(names, 0, inputs, 0, st);
  }

  /** When no console line confirms, nothing is deleted. */
  lemma DeclinedDeletesNothing(names: seq<string>, dryRun: bool, inputs: seq<string>, st: DirState)
    requires forall k :: 0 <= k < |inputs| ==> !Confirms(inputs[k])
    ensures DeleteFromCsvSpec(names, dryRun, inputs, st).1 == st
  {
    DeclinedFromDeletesNothing(names, 0, dryRun, inputs, 0, st);
  }

  lemma {:induction false} DeclinedFromDeletesNothing(names: seq<string>, i: nat, dryRun: bool, inputs: seq<string>,
                                                  used: nat, st: DirState)
    requires i <= |names| && used <= |inputs|
    requires forall k :: 0 <= k < |inputs| ==> !Confirms(inputs[k])
    ensures DeleteFrom(names, i, dryRun, inputs, used, st).1 == st
    decreases |names| - i
  {
    if i < |names| {
      var first := DeleteOne(names[i], dryRun, inputs[used..], st);
      DeleteOneNeedsConfirmation(names[i], dryRun, inputs[used..], st);
      assert first.1 == st by {
        if inputs[used..] != [] {
          assert inputs[used..][0] == inputs[used];
        }
      }
      if first.0.outcome.Pass? {
        DeclinedFromDeletesNothing(names, i + 1, dryRun, inputs, used + first.0.consumed, st);
        DeleteFromPass(names, i, dryRun, inputs, used, st);
      } else {
        assert DeleteFrom(names, i, dryRun, inputs, used, st).1 == first.1;
      }
    }
  }

  /** `delete-from-csv` only deletes. */
  lemma DeleteFromCsvOnlyDeletes(names: seq<string>, dryRun: bool, inputs: seq<string>, st: DirState)
    ensures OnlyDeletions(st, DeleteFromCsvSpec(names, dryRun, inputs, st).1)
  {
    DeleteFromOnlyDeletes(names, 0, dryRun, inputs, 0, st);
  }

  lemma DeleteOneOnlyDeletes(username: string, dryRun: bool, inputs: seq<string>, st: DirState)
    ensures OnlyDeletions(st, DeleteOne(username, dryRun, inputs, st).1)
  {
    match UserByUsername(st, username)
    case Failure(_) =>
      OnlyDeletionsRefl(st);
    case Success(user) =>
      if !dryRun && inputs != [] && Confirms(inputs[0]) {
        AfterDeleteOnlyDeletes(st, user.id);
      } else {
        OnlyDeletionsRefl(st);
      }
  }

  lemma {:induction false} DeleteFromOnlyDeletes(names: seq<string>, i: nat, dryRun: bool, inputs: seq<string>,
                                                 used: nat, st: DirState)
    requires i <= |names| && used <= |inputs|
    ensures OnlyDeletions(st, DeleteFrom(names, i, dryRun, inputs, used, st).1)
    decreases |names| - i
  {
    if i < |names| {
      var first := DeleteOne(names[i], dryRun, inputs[used..], st);
      DeleteOneOnlyDeletes(names[i], dryRun, inputs[used..], st);
      if first.0.outcome.Pass? {
        DeleteFromOnlyDeletes(names, i + 1, dryRun, inputs, used + first.0.consumed, first.1);
        DeleteFromPass(names, i, dryRun, inputs, used, st);
        OnlyDeletionsChain(st, first.1, DeleteFrom(names, i, dryRun, inputs, used, st).1);
      }
    }
  }

  /** A batch whose first name passes goes on with the rest. */
  lemma DeleteFromPass(names: seq<string>, i: nat, dryRun: bool, inputs: seq<string>, used: nat, st: DirState)
    requires i < |names| && used <= |inputs|
    requires DeleteOne(names[i], dryRun, inputs[used..], st).0.outcome.Pass?
    ensures var first := DeleteOne(names[i], dryRun, inputs[used..], st);
            DeleteFrom(names, i, dryRun, inputs, used, st) ==
            DeleteFrom(names, i + 1, dryRun, inputs, used + first.0.consumed, first.1)
  {
  }

  /**
   * `delete-user` as written: an existing account is deleted outside a dry
   * run without asking, although the command's help promises a
   * confirmation.
   */
  function DeleteUserAsWritten(username: string, dryRun: bool, st: DirState): (r: DirState)
    ensures UserByUsername(st, username).Failure? || dryRun ==> r == st
    ensures UserByUsername(st, username).Success? && !dryRun ==>
              r == AfterDelete(st, UserByUsername(st, username).value.id)
  {
    match UserByUsername(st, username)
    case Failure(_) => st
    case Success(user) => if dryRun then st else AfterDelete(st, user.id)
  }

  /** The account is deleted even when the operator would have answered no. */
  lemma DeleteUserAsWrittenIgnoresRefusal(username: string, st: DirState)
    requires UserByUsername(st, username).Success?
    ensures DeleteUserAsWritten(username, false, st) != st
    ensures DeleteUser(username, false, ["n"], st).1 == st
  {
    NoDoesNotConfirm();
    DeleteOneNeedsConfirmation(username, false, ["n"], st);
    assert |DeleteUserAsWritten(username, false, st).log| == |st.log| + 1;
  }

  lemma NoDoesNotConfirm()
    ensures !Confirms("n")
  {
    var s := "n";
    assert !IsSpace(s[0]);
    assert Trim(s) == s;
    assert Lower(s) == s by {
      assert |Lower(s)| == 1 && Lower(s)[0] == LowerChar(s[0]) == s[0];
    }
  }

  /** `delete-user` with the confirmation its help promises, as `delete-from-csv` asks it. */
  function DeleteUser(username: string, dryRun: bool, inputs: seq<string>, st: DirState): (r: (DeleteReport, DirState))
    ensures r.0.consumed <= 1
    ensures r.0.outcome.Fail? <==> UserByUsername(st, username).Success? && !dryRun && inputs == []
  {
    DeleteOne(username, dryRun, inputs, st)
  }

  /**
   * The corrected command deletes what the command as written deletes, but
   * only after a line that confirms.
   */
  lemma DeleteUserNeedsYes(username: string, dryRun: bool, inputs: seq<string>, st: DirState)
    ensures var st' := DeleteUser(username, dryRun, inputs, st).1;
            (st' == st || (!dryRun && inputs != [] && Confirms(inputs[0]))) &&
            (st' == st || st' == DeleteUserAsWritten(username, dryRun, st)) &&
            (!dryRun && inputs != [] && Confirms(inputs[0]) ==> st' == DeleteUserAsWritten(username, dryRun, st))
  {
    DeleteOneNeedsConfirmation(username, dryRun, inputs, st);
  }

  /** The corrected `delete-user` command: one username, asked as `delete-from-csv` asks. */
  method RunDeleteUser(username: string, dryRun: bool, inputs: seq<string>, service: Service) returns (r: DeleteReport)
    modifies service
    ensures (r, service.state) == DeleteUser(username, dryRun, inputs, old(service.state))
  {
    r := ConfirmAndDelete(username, dryRun, inputs, service);
  }
}
