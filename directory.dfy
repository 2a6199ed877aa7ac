/**
 * The remote GitLab instance as the tool sees it through its client
 * library: users, groups and group memberships, the lookups the tool
 * performs, and the four kinds of change it requests. Every change that
 * the instance accepts is appended to a log, so that properties such as
 * "a dry run changes nothing" can be stated about it.
 */
module Directory {
  import opened Text
  import opened Models

  /** A change the tool asked the instance to make (and the instance made). */
  datatype Call =
    | CreateCall(request: UserDict, userId: nat)
    | UpdateCall(userId: nat, organization: Value, location: Value)
    | DeleteCall(userId: nat)
    | AddMemberCall(groupId: nat, userId: nat, level: int)

  datatype Membership = Membership(groupId: nat, userId: nat, level: int)

  /**
   * The instance: its users and groups, the group lookups that fail for a
   * reason other than a missing group (with the error body they report),
   * the memberships, the next user id it hands out and the log of changes.
   */
  datatype DirState = DirState(
    users: seq<User>,
    groups: seq<Group>,
    lookupErrors: map<string, string>,
    members: set<Membership>,
    nextId: nat,
    log: seq<Call>)

  /** The error body of a lookup for a group that does not exist. */
  const GroupNotFound: string := "Group Not Found"

  /** The error body of a refused user creation. */
  const CreateRefused: string := "Bad Request"

  /** Ids are below the next id to hand out and no two users share one. */
  predicate WellFormed(st: DirState) {
    (forall i :: 0 <= i < |st.users| ==> st.users[i].id < st.nextId) &&
    (forall i, j :: 0 <= i < j < |st.users| ==> st.users[i].id != st.users[j].id)
  }

  /** `users.list(username=...)[0]`: the first user with that username, if any. */
  function FindUser(users: seq<User>, username: string): (r: Option<User>)
    ensures r.None? <==> forall i :: 0 <= i < |users| ==> users[i].username != username
    ensures r.Some? ==> r.value in users && r.value.username == username
  {
    if users == [] then None
    else if users[0].username == username then Some(users[0])
    else FindUser(users[1..], username)
  }

  /** A group `groups.get(key)` designates: its path or its id equals the key. */
  predicate Designates(g: Group, key: string) {
    g.path == key || NatToString(g.id) == key
  }

  function FirstGroup(groups: seq<Group>, key: string): (r: Option<Group>)
    ensures r.None? <==> forall i :: 0 <= i < |groups| ==> !Designates(groups[i], key)
    ensures r.Some? ==> r.value in groups && Designates(r.value, key)
  {
    if groups == [] then None
    else if Designates(groups[0], key) then Some(groups[0])
    else FirstGroup(groups[1..], key)
  }

  /** `groups.get(key)`: the group, or the error the instance reports. */
  function GroupGet(st: DirState, key: string): (r: Result<Group>)
    ensures r.Success? ==> key !in st.lookupErrors && r.value in st.groups && Designates(r.value, key)
    ensures r.Failure? ==> r.error.RemoteError?
    ensures key !in st.lookupErrors ==>
              (r == Failure(RemoteError(GroupNotFound)) <==>
               forall i :: 0 <= i < |st.groups| ==> !Designates(st.groups[i], key))
  {
    if key in st.lookupErrors then Failure(RemoteError(st.lookupErrors[key]))
    else match FirstGroup(st.groups, key)
      case Some(g) => Success(g)
      case None => Failure(RemoteError(GroupNotFound))
  }

  /** `groups.search(text)`: the groups whose name or path contains the text, in order. */
  function SearchGroups(groups: seq<Group>, text: string): (r: seq<Group>)
    ensures forall g :: g in r <==> g in groups && (Contains(g.name, text) || Contains(g.path, text))
    ensures |r| <= |groups|
  {
    if groups == [] then []
    else
      var rest := SearchGroups(groups[1..], text);
      assert groups == [groups[0]] + groups[1..];
      if Contains(groups[0].name, text) || Contains(groups[0].path, text) then [groups[0]] + rest else rest
  }

  /** A request field holding a non-empty string. */
  predicate HasText(req: UserDict, key: string) {
    Name(key) in req && req[Name(key)].Str? && req[Name(key)].s != ""
  }

  /**
   * Whether the instance accepts a creation request: username, email and
   * name are given, and neither the username nor the email is taken.
   */
  predicate Accepts(st: DirState, req: UserDict) {
    HasText(req, "username") && HasText(req, "email") && HasText(req, "name") &&
    forall i :: 0 <= i < |st.users| ==>
      st.users[i].username != req[Name("username")].s && st.users[i].email != req[Name("email")].s
  }

  /** The user an accepted request creates: a fresh id, active, never signed in. */
  function NewAccount(st: DirState, req: UserDict): User
    requires Accepts(st, req)
  {
    User(st.nextId, req[Name("username")].s, req[Name("email")].s, req[Name("name")].s, "active", None)
  }

  /** `users.create(req)` */
  function CreateResult(st: DirState, req: UserDict): (r: (Result<User>, DirState))
    ensures r.0.Success? <==> Accepts(st, req)
    ensures r.0.Failure? ==> r.1 == st
    ensures r.0.Success? ==>
              r.0.value.id == st.nextId && r.0.value.username == req[Name("username")].s &&
              r.1.users == st.users + [r.0.value] &&
              r.1.users == st.users + [NewAccount(st, req)] &&
              r.1.log == st.log + [CreateCall(req, st.nextId)] && r.1.nextId == st.nextId + 1 &&
              r.1.groups == st.groups && r.1.members == st.members && r.1.lookupErrors == st.lookupErrors
  {
    if Accepts(st, req) then
      var u := NewAccount(st, req);
      (Success(u), st.(users := st.users + [u], nextId := st.nextId + 1, log := st.log + [CreateCall(req, u.id)]))
    else (Failure(RemoteError(CreateRefused)), st)
  }

  /** A creation keeps ids fresh and unique, and the new user is found by its username. */
  lemma CreateKeepsWellFormed(st: DirState, req: UserDict)
    requires WellFormed(st)
    ensures WellFormed(CreateResult(st, req).1)
    ensures CreateResult(st, req).0.Success? ==>
              FindUser(CreateResult(st, req).1.users, req[Name("username")].s) == Some(CreateResult(st, req).0.value)
  {
    var (r, st') := CreateResult(st, req);
    if r.Success? {
      var name := req[Name("username")].s;
      assert FindUser(st.users, name).None?;
      FindUserAppend(st.users, [r.value], name);
    }
  }

  lemma {:induction false} FindUserAppend(a: seq<User>, b: seq<User>, username: string)
    requires FindUser(a, username).None?
    ensures FindUser(a + b, username) == FindUser(b, username)
  {
    if a != [] {
      assert (a + b)[1..] == a[1..] + b;
      FindUserAppend(a[1..], b, username);
    } else {
      assert a + b == b;
    }
  }

  /** The users of a sequence whose id differs from `id`, in order. */
  function WithoutId(users: seq<User>, id: nat): (r: seq<User>)
    ensures forall v :: v in r <==> v in users && v.id != id
    ensures |r| <= |users|
  {
    if users == [] then []
    else
      assert users == [users[0]] + users[1..];
      (if users[0].id != id then [users[0]] else []) + WithoutId(users[1..], id)
  }

  lemma {:induction false} WithoutIdOrder(users: seq<User>, id: nat)
    requires forall i, j :: 0 <= i < j < |users| ==> users[i].id != users[j].id
    ensures forall i, j :: 0 <= i < j < |WithoutId(users, id)| ==>
              WithoutId(users, id)[i].id != WithoutId(users, id)[j].id
  {
    if users != [] {
      WithoutIdOrder(users[1..], id);
      var rest := WithoutId(users[1..], id);
      forall k | 0 <= k < |rest| ensures rest[k].id != users[0].id {
        assert rest[k] in users[1..];
      }
    }
  }

  /** `users.delete(id)` */
  function AfterDelete(st: DirState, id: nat): (r: DirState)
    ensures forall v :: v in r.users <==> v in st.users && v.id != id
    ensures r.log == st.log + [DeleteCall(id)]
    ensures r.groups == st.groups && r.members == st.members && r.nextId == st.nextId
    ensures r.lookupErrors == st.lookupErrors
  {
    st.(users := WithoutId(st.users, id), log := st.log + [DeleteCall(id)])
  }

  lemma DeleteKeepsWellFormed(st: DirState, id: nat)
    requires WellFormed(st)
    ensures WellFormed(AfterDelete(st, id))
  {
    var r := AfterDelete(st, id);
    WithoutIdOrder(st.users, id);
    forall i | 0 <= i < |r.users| ensures r.users[i].id < r.nextId {
      assert r.users[i] in st.users;
    }
  }

  /** `user.save()` after setting its organization and location. */
  function AfterUpdate(st: DirState, id: nat, organization: Value, location: Value): (r: DirState)
    ensures r.log == st.log + [UpdateCall(id, organization, location)]
    ensures r.users == st.users && r.groups == st.groups && r.members == st.members && r.nextId == st.nextId
    ensures r.lookupErrors == st.lookupErrors
  {
    st.(log := st.log + [UpdateCall(id, organization, location)])
  }

  /** `group.members.create({"user_id": ..., "access_level": ...})` */
  function AfterAddMember(st: DirState, groupId: nat, userId: nat, level: int): (r: DirState)
    ensures r.members == st.members + {Membership(groupId, userId, level)}
    ensures r.log == st.log + [AddMemberCall(groupId, userId, level)]
    ensures r.users == st.users && r.groups == st.groups && r.nextId == st.nextId
    ensures r.lookupErrors == st.lookupErrors
  {
    st.(members := st.members + {Membership(groupId, userId, level)},
        log := st.log + [AddMemberCall(groupId, userId, level)])
  }

  /** The connection to the instance, whose state the tool's calls change. */
  class Service {
    var state: DirState

    constructor(st: DirState)
      ensures state == st
    {
      state := st;
    }

    method CreateUser(req: UserDict) returns (r: Result<User>)
      modifies this
      ensures (r, state) == CreateResult(old(state), req)
    {
      var res := CreateResult(state, req);
      r, state := res.0, res.1;
    }

    method UpdateUser(id: nat, organization: Value, location: Value)
      modifies this
      ensures state == AfterUpdate(old(state), id, organization, location)
    {
      state := AfterUpdate(state, id, organization, location);
    }

    method DeleteUser(id: nat)
      modifies this
      ensures state == AfterDelete(old(state), id)
    {
      state := AfterDelete(state, id);
    }

    method AddMember(groupId: nat, userId: nat, level: int)
      modifies this
      ensures state == AfterAddMember(old(state), groupId, userId, level)
    {
      state := AfterAddMember(state, groupId, userId, level);
    }
  }
}
