/**
 * The listing side of the script: the date a user last signed in, the
 * sorting of users by activity, which of them a listing shows, the line
 * shown for a user and the list of existing usernames.
 *
 * The clock and `strptime` are parameters: `now` is a time in seconds and
 * `parse` turns a `YYYY-MM-DD` text into a day number (midnight of that
 * day is `day * 86400` seconds), or fails.
 */
module Listing {
  import opened Text
  import opened Models

  /** Whether `current_sign_in_at` is set (a non-empty timestamp). */
  predicate SignedIn(u: User) {
    u.currentSignInAt.Some? && u.currentSignInAt.value != ""
  }

  /**
   * `_sign_in_date`: the date part of the sign-in timestamp, that is the
   * text before its first "T" (all of it when there is none), or nothing
   * when the user never signed in.
   */
  function SignInDate(u: User): (r: Option<string>)
    ensures r.None? <==> !SignedIn(u)
    ensures r.Some? ==>
              var stamp := u.currentSignInAt.value;
              'T' !in r.value && StartsWith(stamp, r.value) &&
              (|r.value| == |stamp| || stamp[|r.value|] == 'T')
  {
    if SignedIn(u) then
      var stamp := u.currentSignInAt.value;
      if 'T' in stamp then
        var k := IndexOf(stamp, 'T');
        assert Split(stamp, 'T')[0] == stamp[..k];
        Some(Split(stamp, 'T')[0])
      else Some(Split(stamp, 'T')[0])
    else None
  }

  /**
   * `_sign_in_date` as the class finally defines it: the second definition
   * replaces the first and calls a `_format_date` helper the class does not
   * have, so every call fails.
   */
  function SignInDateAsWritten(u: User): (r: Result<Option<string>>)
    ensures r == Failure(AttributeError("_format_date"))
  {
    Failure(AttributeError("_format_date"))
  }

  /** The failure `strptime` reports for a text that is not a `YYYY-MM-DD` date. */
  const BadDate: Error := ValueError("time data does not match format '%Y-%m-%d'")

  const SecondsPerDay: int := 86400

  /** How `_getactivity` files a user. */
  datatype Activity =
    | Stale      // active, last signed in more than 365 days before now
    | Recent     // active, signed in within the last 365 days
    | Never      // active, never signed in
    | Unlisted   // not active

  /**
   * The decision the loop of `_getactivity` makes for one user. The date is
   * parsed for every user who signed in, before the state is looked at.
   */
  function Classify(u: User, now: int, parse: string -> Option<int>): (r: Result<Activity>)
    ensures SignedIn(u) ==> (r.Failure? <==> parse(SignInDate(u).value).None?)
    ensures r.Failure? ==> r == Failure(BadDate)
    ensures r == Success(Never) <==> !SignedIn(u) && u.state == "active"
    ensures r == Success(Unlisted) <==> u.state != "active" && (SignedIn(u) ==> parse(SignInDate(u).value).Some?)
    ensures r == Success(Stale) <==>
              SignedIn(u) && u.state == "active" && parse(SignInDate(u).value).Some? &&
              parse(SignInDate(u).value).value * SecondsPerDay < now - 365 * SecondsPerDay
  {
    if SignedIn(u) then
      match parse(SignInDate(u).value)
      case None => Failure(BadDate)
      case Some(day) =>
        if u.state == "active" then
          if day * SecondsPerDay < now - 365 * SecondsPerDay then Success(Stale) else Success(Recent)
        else Success(Unlisted)
    else if u.state == "active" then Success(Never)
    else Success(Unlisted)
  }

  /** The classification as written, through the failing `_sign_in_date`. */
  function ClassifyAsWritten(u: User, now: int, parse: string -> Option<int>): (r: Result<Activity>)
    ensures r.Failure? <==> SignedIn(u) || Classify(u, now, parse).Failure?
  {
    if SignedIn(u) then
      match SignInDateAsWritten(u)
      case Failure(e) => Failure(e)
      case Success(_) => Classify(u, now, parse)
    else Classify(u, now, parse)
  }

  /** As written, any user who ever signed in makes the classification fail. */
  lemma ClassifyAsWrittenFails(u: User, now: int, parse: string -> Option<int>)
    ensures SignedIn(u) ==> ClassifyAsWritten(u, now, parse) == Failure(AttributeError("_format_date"))
    ensures SignedIn(u) && parse(SignInDate(u).value).Some? ==> Classify(u, now, parse).Success?
    ensures !SignedIn(u) ==> ClassifyAsWritten(u, now, parse) == Classify(u, now, parse)
  {
  }

  /** The four lists `_getactivity` returns. */
  datatype Buckets = Buckets(oldSignIn: seq<User>, neverSignIn: seq<User>, alreadySignIn: seq<User>, active: seq<User>)

  /** Filing one more user. */
  function Place(b: Buckets, u: User, a: Activity): Buckets {
    match a
    case Stale => b.(alreadySignIn := b.alreadySignIn + [u], oldSignIn := b.oldSignIn + [u])
    case Recent => b.(alreadySignIn := b.alreadySignIn + [u], active := b.active + [u])
    case Never => b.(neverSignIn := b.neverSignIn + [u])
    case Unlisted => b
  }

  /**
   * `_getactivity`: the users filed in order, or the first failure, which
   * can only be a date that does not parse. "Already" is as long as "old"
   * and "active" together, and "already" and "never" together hold no more
   * entries than there are users.
   */
  function ActivityOf(users: seq<User>, now: int, parse: string -> Option<int>): (r: Result<Buckets>)
    ensures r.Failure? ==> r == Failure(BadDate)
    ensures r.Success? ==>
              |r.value.oldSignIn| + |r.value.active| == |r.value.alreadySignIn| &&
              |r.value.alreadySignIn| + |r.value.neverSignIn| <= |users|
  {
    if users == [] then Success(Buckets([], [], [], []))
    else
      match ActivityOf(users[..|users| - 1], now, parse)
      case Failure(e) => Failure(e)
      case Success(b) =>
        match Classify(users[|users| - 1], now, parse)
        case Failure(e) => Failure(e)
        case Success(a) => Success(Place(b, users[|users| - 1], a))
  }

  /** The loop of `_getactivity`. */
  method GetActivity(users: seq<User>, now: int, parse: string -> Option<int>) returns (r: Result<Buckets>)
    ensures r == ActivityOf(users, now, parse)
  {
    var oldSignIn, never, already, active := [], [], [], [];
    for i := 0 to |users|
      invariant ActivityOf(users[..i], now, parse) == Success(Buckets(oldSignIn, never, already, active))
    {
      assert users[..i + 1][..i] == users[..i];
      var a := Classify(users[i], now, parse);
      if a.Failure? {
        ActivityOfPrefixFailure(users, now, parse, i + 1);
        return Failure(a.error);
      }
      match a.value
      case Stale => already, oldSignIn := already + [users[i]], oldSignIn + [users[i]];
      case Recent => already, active := already + [users[i]], active + [users[i]];
      case Never => never := never + [users[i]];
      case Unlisted =>
    }
    assert users[..|users|] == users;
    return Success(Buckets(oldSignIn, never, already, active));
  }

  /** Once a prefix of the users fails, the whole classification fails the same way. */
  lemma {:induction false} ActivityOfPrefixFailure(users: seq<User>, now: int, parse: string -> Option<int>, k: nat)
    requires k <= |users|
    requires ActivityOf(users[..k], now, parse).Failure?
    ensures ActivityOf(users, now, parse) == ActivityOf(users[..k], now, parse)
    decreases |users| - k
  {
    if k < |users| {
      var p := users[..k + 1];
      assert p[..|p| - 1] == users[..k];
      ActivityOfPrefixFailure(users, now, parse, k + 1);
    } else {
      assert users[..k] == users;
    }
  }

  /** The users whose classification succeeds and falls in `kinds`, in order. */
  function Pick(users: seq<User>, now: int, parse: string -> Option<int>, kinds: set<Activity>): seq<User>
  {
    if users == [] then []
    else
      var last := users[|users| - 1];
      Pick(users[..|users| - 1], now, parse, kinds) +
      (if Classify(last, now, parse).Success? && Classify(last, now, parse).value in kinds then [last] else [])
  }

  /** The members of `Pick`. */
  lemma {:induction false} PickMembers(users: seq<User>, now: int, parse: string -> Option<int>, kinds: set<Activity>)
    ensures forall v :: v in Pick(users, now, parse, kinds) <==>
              v in users && Classify(v, now, parse).Success? && Classify(v, now, parse).value in kinds
  {
    if users != [] {
      PickMembers(users[..|users| - 1], now, parse, kinds);
      assert users == users[..|users| - 1] + [users[|users| - 1]];
    }
  }

  predicate AllClassified(users: seq<User>, now: int, parse: string -> Option<int>) {
    forall i :: 0 <= i < |users| ==> Classify(users[i], now, parse).Success?
  }

  /** `_getactivity` fails exactly when some user's date does not parse. */
  lemma {:induction false} ActivityOfFails(users: seq<User>, now: int, parse: string -> Option<int>)
    ensures ActivityOf(users, now, parse).Failure? <==> !AllClassified(users, now, parse)
  {
    if users != [] {
      var init := users[..|users| - 1];
      ActivityOfFails(init, now, parse);
      assert forall i :: 0 <= i < |init| ==> init[i] == users[i];
      assert AllClassified(users, now, parse) <==>
             AllClassified(init, now, parse) && Classify(users[|users| - 1], now, parse).Success?;
    }
  }

  /** The four lists as the users of one kind each, in their order. */
  function PickedBuckets(users: seq<User>, now: int, parse: string -> Option<int>): Result<Buckets> {
    Success(Buckets(Pick(users, now, parse, {Stale}), Pick(users, now, parse, {Never}),
                    Pick(users, now, parse, {Stale, Recent}), Pick(users, now, parse, {Recent})))
  }

  /** Otherwise each of its lists is the users of one kind, in their order. */
  lemma {:induction false} ActivityOfPick(users: seq<User>, now: int, parse: string -> Option<int>)
    requires AllClassified(users, now, parse)
    ensures ActivityOf(users, now, parse) == PickedBuckets(users, now, parse)
  {
    if users != [] {
      var init := users[..|users| - 1];
      var last := users[|users| - 1];
      assert AllClassified(init, now, parse) by {
        assert forall i :: 0 <= i < |init| ==> init[i] == users[i];
      }
      ActivityOfPick(init, now, parse);
      assert Classify(last, now, parse).Success?;
      var a := Classify(last, now, parse).value;
      var b := ActivityOf(init, now, parse).value;
      assert ActivityOf(users, now, parse) == Success(Place(b, last, a));
      PickStep(users, now, parse, {Stale});
      PickStep(users, now, parse, {Never});
      PickStep(users, now, parse, {Stale, Recent});
      PickStep(users, now, parse, {Recent});
      var po, pn := Pick(users, now, parse, {Stale}), Pick(users, now, parse, {Never});
      var pa, pr := Pick(users, now, parse, {Stale, Recent}), Pick(users, now, parse, {Recent});
      match a
      case Stale =>
        assert po == b.oldSignIn + [last] && pa == b.alreadySignIn + [last];
        assert pn == b.neverSignIn + [] == b.neverSignIn && pr == b.active + [] == b.active;
      case Recent =>
        assert pr == b.active + [last] && pa == b.alreadySignIn + [last];
        assert pn == b.neverSignIn + [] == b.neverSignIn && po == b.oldSignIn + [] == b.oldSignIn;
      case Never =>
        assert pn == b.neverSignIn + [last];
        assert po == b.oldSignIn + [] == b.oldSignIn && pr == b.active + [] == b.active;
        assert pa == b.alreadySignIn + [] == b.alreadySignIn;
      case Unlisted =>
        assert po == b.oldSignIn + [] == b.oldSignIn && pr == b.active + [] == b.active;
        assert pa == b.alreadySignIn + [] == b.alreadySignIn && pn == b.neverSignIn + [] == b.neverSignIn;
    }
  }

  lemma PickStep(users: seq<User>, now: int, parse: string -> Option<int>, kinds: set<Activity>)
    requires users != []
    ensures var last := users[|users| - 1];
            Pick(users, now, parse, kinds) ==
            Pick(users[..|users| - 1], now, parse, kinds) +
            (if Classify(last, now, parse).Success? && Classify(last, now, parse).value in kinds then [last] else [])
  {
  }

  /** Every user filed as already signed in is filed as exactly one of old or active. */
  lemma {:induction false} AlreadyIsOldPlusActive(users: seq<User>, now: int, parse: string -> Option<int>)
    ensures multiset(Pick(users, now, parse, {Stale, Recent})) ==
            multiset(Pick(users, now, parse, {Stale})) + multiset(Pick(users, now, parse, {Recent}))
  {
    if users != [] {
      AlreadyIsOldPlusActive(users[..|users| - 1], now, parse);
      PickStep(users, now, parse, {Stale});
      PickStep(users, now, parse, {Recent});
      PickStep(users, now, parse, {Stale, Recent});
    }
  }

  /**
   * What the lists of a successful `_getactivity` hold: "already" is every
   * active user who signed in and "never" every active user who never did.
   */
  lemma ActivityBuckets(users: seq<User>, now: int, parse: string -> Option<int>)
    requires AllClassified(users, now, parse)
    ensures ActivityOf(users, now, parse).Success?
    ensures var b := ActivityOf(users, now, parse).value;
            (forall v :: v in b.alreadySignIn <==> v in users && v.state == "active" && SignedIn(v)) &&
            (forall v :: v in b.neverSignIn <==> v in users && v.state == "active" && !SignedIn(v))
  {
    ActivityOfPick(users, now, parse);
    PickMembers(users, now, parse, {Never});
    PickMembers(users, now, parse, {Stale, Recent});
    var b := ActivityOf(users, now, parse).value;
    forall v | v in users && v.state == "active" && SignedIn(v) ensures v in b.alreadySignIn {
      var i :| 0 <= i < |users| && users[i] == v;
      assert Classify(users[i], now, parse).Success?;
    }
  }

  /**
   * The "old" and "active" lists hold active users who signed in, no user is
   * in both, and together they are the "already" list.
   */
  lemma OldAndActiveBuckets(users: seq<User>, now: int, parse: string -> Option<int>)
    requires AllClassified(users, now, parse)
    ensures ActivityOf(users, now, parse).Success?
    ensures var b := ActivityOf(users, now, parse).value;
            (forall v :: v in b.oldSignIn ==> v in users && v.state == "active" && SignedIn(v) && v !in b.active) &&
            (forall v :: v in b.active ==> v in users && v.state == "active" && SignedIn(v)) &&
            multiset(b.alreadySignIn) == multiset(b.oldSignIn) + multiset(b.active)
  {
    ActivityOfPick(users, now, parse);
    AlreadyIsOldPlusActive(users, now, parse);
    PickMembers(users, now, parse, {Stale});
    PickMembers(users, now, parse, {Recent});
  }

  /** A user who is not active but whose sign-in date does not parse stops the listing. */
  lemma BlockedUserWithBadDate(users: seq<User>, now: int, parse: string -> Option<int>, i: nat)
    requires i < |users| && SignedIn(users[i]) && users[i].state != "active"
    requires parse(SignInDate(users[i]).value).None?
    ensures ActivityOf(users, now, parse) == Failure(BadDate)
  {
    ActivityOfFails(users, now, parse);
    assert Classify(users[i], now, parse).Failure?;
    FailureIsBadDate(users, now, parse);
  }

  lemma {:induction false} FailureIsBadDate(users: seq<User>, now: int, parse: string -> Option<int>)
    ensures ActivityOf(users, now, parse).Failure? ==> ActivityOf(users, now, parse) == Failure(BadDate)
  {
    if users != [] {
      FailureIsBadDate(users[..|users| - 1], now, parse);
    }
  }

  // ---------------------------------------------------------------------
  // What a listing shows

  /** `_getuids` */
  function Ids(users: seq<User>): (r: seq<nat>)
    ensures |r| == |users| && forall i :: 0 <= i < |users| ==> r[i] == users[i].id
  {
    seq(|users|, i requires 0 <= i < |users| => users[i].id)
  }

  /** An activity filter is set and every user's sign-in date parses. */
  predicate Filtered(activity: seq<string>, users: seq<User>, now: int, parse: string -> Option<int>) {
    activity != [] && AllClassified(users, now, parse)
  }

  /**
   * The users a listing shows, in order: all of them when no activity
   * filter is set. Otherwise the first flag present among "unused",
   * "sign_in" and "active" decides: the users who last signed in more than
   * a year ago followed by those who never did, every active user who
   * signed in, or those who signed in within the year; any other flag shows
   * nobody. A sign-in date that does not parse stops the listing.
   */
  function ShownUsers(activity: seq<string>, users: seq<User>, now: int, parse: string -> Option<int>)
    : (r: Result<seq<User>>)
    ensures activity == [] ==> r == Success(users)
    ensures activity != [] ==> (r.Failure? <==> !AllClassified(users, now, parse))
    ensures r.Failure? ==> r == Failure(BadDate)
    ensures Filtered(activity, users, now, parse) && "unused" in activity ==>
              r == Success(Pick(users, now, parse, {Stale}) + Pick(users, now, parse, {Never}))
    ensures Filtered(activity, users, now, parse) && "unused" !in activity && "sign_in" in activity ==>
              r == Success(Pick(users, now, parse, {Stale, Recent}))
    ensures Filtered(activity, users, now, parse) && "unused" !in activity && "sign_in" !in activity &&
            "active" in activity ==>
              r == Success(Pick(users, now, parse, {Recent}))
    ensures Filtered(activity, users, now, parse) && "unused" !in activity && "sign_in" !in activity &&
            "active" !in activity ==>
              r == Success([])
  {
    ActivityOfFails(users, now, parse);
    FailureIsBadDate(users, now, parse);
    assert AllClassified(users, now, parse) ==> ActivityOf(users, now, parse) == PickedBuckets(users, now, parse) by {
      if AllClassified(users, now, parse) {
        ActivityOfPick(users, now, parse);
      }
    }
    if activity == [] then Success(users)
    else match ActivityOf(users, now, parse)
      case Failure(e) => Failure(e)
      case Success(b) =>
        if "unused" in activity then Success(b.oldSignIn + b.neverSignIn)
        else if "sign_in" in activity then Success(b.alreadySignIn)
        else if "active" in activity then Success(b.active)
        else Success([])
  }

  /**
   * `out_csv`: the ids of the users it prints a row for, in order. Without a
   * filter every user; with one, the stale then the never-signed-in users for
   * "unused", every signed-in active user for "sign_in", the users who signed
   * in within the year for "active", and nobody for any other flag.
   */
  function CsvSelection(activity: seq<string>, users: seq<User>, now: int, parse: string -> Option<int>)
    : (r: Result<seq<nat>>)
    ensures activity == [] ==> r == Success(Ids(users))
    ensures activity != [] ==> (r.Failure? <==> !AllClassified(users, now, parse))
    ensures r.Failure? ==> r == Failure(BadDate)
    ensures Filtered(activity, users, now, parse) && "unused" in activity ==>
              r == Success(Ids(Pick(users, now, parse, {Stale}) + Pick(users, now, parse, {Never})))
    ensures Filtered(activity, users, now, parse) && "unused" !in activity && "sign_in" in activity ==>
              r == Success(Ids(Pick(users, now, parse, {Stale, Recent})))
    ensures Filtered(activity, users, now, parse) && "unused" !in activity && "sign_in" !in activity &&
            "active" in activity ==>
              r == Success(Ids(Pick(users, now, parse, {Recent})))
    ensures Filtered(activity, users, now, parse) && "unused" !in activity && "sign_in" !in activity &&
            "active" !in activity ==>
              r == Success([])
  {
    match ShownUsers(activity, users, now, parse)
    case Failure(e) => Failure(e)
    case Success(shown) => Success(Ids(shown))
  }

  /** Which users each filter shows, in terms of the users themselves. */
  lemma SelectionMeaning(activity: seq<string>, users: seq<User>, now: int, parse: string -> Option<int>)
    requires Filtered(activity, users, now, parse)
    ensures ShownUsers(activity, users, now, parse).Success?
    ensures var sel := ShownUsers(activity, users, now, parse).value;
            ("unused" in activity ==>
               forall v :: v in sel <==>
                 v in users && (Classify(v, now, parse) == Success(Stale) || Classify(v, now, parse) == Success(Never))) &&
            ("unused" !in activity && "sign_in" in activity ==>
               forall v :: v in sel <==> v in users && v.state == "active" && SignedIn(v)) &&
            ("unused" !in activity && "sign_in" !in activity && "active" in activity ==>
               forall v :: v in sel <==> v in users && Classify(v, now, parse) == Success(Recent))
  {
    ActivityBuckets(users, now, parse);
    ActivityOfPick(users, now, parse);
    PickMembers(users, now, parse, {Stale});
    PickMembers(users, now, parse, {Never});
    PickMembers(users, now, parse, {Recent});
  }

  // ---------------------------------------------------------------------
  // The line shown for a user

  /** The display options of a listing. */
  datatype Display = Display(emailOnly: bool, nameOnly: bool, username: bool, signInDate: bool)

  /** `str()` of the sign-in date. */
  function DateText(u: User): string {
    match SignInDate(u)
    case None => "None"
    case Some(d) => d
  }

  /** `user_info` */
  function UserInfo(d: Display, u: User): (r: string)
    ensures d.emailOnly ==> r == u.email
    ensures !d.emailOnly && d.nameOnly ==> r == u.name
    ensures !d.emailOnly && !d.nameOnly ==>
              Contains(r, u.name + " <" + u.email + ">") &&
              (d.username ==> StartsWith(r, "@" + u.username + " ")) &&
              (!d.username ==> StartsWith(r, u.name + " <")) &&
              (d.signInDate ==> EndsWith(r, " (" + DateText(u) + ")")) &&
              (!d.signInDate ==> EndsWith(r, ">"))
    ensures !d.emailOnly && !d.nameOnly ==>
              r == (if d.username then "@" + u.username + " " else "") + (u.name + " <" + u.email + ">") +
                   (if d.signInDate then " (" + DateText(u) + ")" else "")
  {
    if d.emailOnly then u.email
    else if d.nameOnly then u.name
    else
      var pre := if d.username then "@" + u.username + " " else "";
      var core := u.name + " <" + u.email + ">";
      var post := if d.signInDate then " (" + DateText(u) + ")" else "";
      EntryLayout(pre, core, post);
      assert StartsWith(core, u.name + " <") by {
        PrefixOf(u.name + " <", u.email);
        StartsWithExtend(u.name + " <" + u.email, u.name + " <", ">");
      }
      assert EndsWith(core, ">") by { SuffixOf(u.name + " <" + u.email, ">"); }
      pre + core + post
  }

  /** `user_info` as written: the date flag calls the `_sign_in_date` that takes effect. */
  function UserInfoAsWritten(d: Display, u: User): (r: Result<string>)
    ensures r.Failure? <==> !d.emailOnly && !d.nameOnly && d.signInDate
    ensures r.Success? ==> r.value == UserInfo(d, u)
  {
    if !d.emailOnly && !d.nameOnly && d.signInDate then
      match SignInDateAsWritten(u)
      case Failure(e) => Failure(e)
      case Success(_) => Success(UserInfo(d, u))
    else Success(UserInfo(d, u))
  }

  /** As written, every line under the date flag fails; the other lines are the intended ones. */
  lemma UserInfoAsWrittenFails(d: Display, u: User)
    ensures !d.emailOnly && !d.nameOnly && d.signInDate ==>
              UserInfoAsWritten(d, u) == Failure(AttributeError("_format_date"))
    ensures d.emailOnly || d.nameOnly || !d.signInDate ==> UserInfoAsWritten(d, u) == Success(UserInfo(d, u))
  {
  }

  /** Where the three parts of a `user_info` line sit in it. */
  lemma EntryLayout(pre: string, core: string, post: string)
    ensures Contains(pre + core + post, core)
    ensures StartsWith(pre + core + post, pre)
    ensures EndsWith(pre + core + post, post)
    ensures forall p :: pre == [] && StartsWith(core, p) ==> StartsWith(pre + core + post, p)
    ensures forall p :: post == [] && EndsWith(core, p) ==> EndsWith(pre + core + post, p)
  {
    assert pre + core + post == pre + (core + post);
    PrefixOf(pre, core + post);
    SuffixOf(pre + core, post);
    ContainsSuffix(pre, core, true);
    ContainsPrefix(pre + core, core, post, true);
    forall p | pre == [] && StartsWith(core, p)
      ensures StartsWith(pre + core + post, p)
    {
      assert pre + core == core;
      StartsWithExtend(core, p, post);
    }
    forall p | post == [] && EndsWith(core, p)
      ensures EndsWith(pre + core + post, p)
    {
      assert pre + core + post == pre + core;
      EndsWithExtend(pre, core, p);
    }
  }

  lemma PrefixOf(a: string, b: string)
    ensures StartsWith(a + b, a)
  {
  }

  lemma SuffixOf(a: string, b: string)
    ensures EndsWith(a + b, b)
  {
  }

  lemma StartsWithExtend(s: string, p: string, t: string)
    requires StartsWith(s, p)
    ensures StartsWith(s + t, p)
  {
  }

  lemma EndsWithExtend(t: string, s: string, p: string)
    requires EndsWith(s, p)
    ensures EndsWith(t + s, p)
  {
  }

  lemma {:induction false} ContainsSuffix(a: string, b: string, add: bool)
    ensures Contains(if add then a + b else b, b)
  {
    if add {
      if a == [] {
        assert a + b == b;
        assert StartsWith(b, b);
      } else {
        assert (a + b)[1..] == a[1..] + b;
        ContainsSuffix(a[1..], b, add);
      }
    } else {
      assert StartsWith(b, b);
    }
  }

  lemma {:induction false} ContainsPrefix(a: string, b: string, c: string, add: bool)
    requires Contains(a, b)
    ensures Contains(if add then a + c else a, b)
  {
    if add {
      if StartsWith(a, b) {
        assert (a + c)[..|b|] == a[..|b|];
      } else {
        assert (a + c)[1..] == a[1..] + c;
        ContainsPrefix(a[1..], b, c, add);
      }
    }
  }

  /** One `user_info` line per user. */
  function Infos(d: Display, users: seq<User>): (r: seq<string>)
    ensures |r| == |users| && forall i :: 0 <= i < |users| ==> r[i] == UserInfo(d, users[i])
  {
    seq(|users|, i requires 0 <= i < |users| => UserInfo(d, users[i]))
  }

  const OldHeader: string := "  Users whose last connexion is older than 1 year:"
  const NeverHeader: string := "  Users who never signed in:"
  const AlreadyHeader: string := "  Users who have already signed in:"

  function ActiveHeader(count: nat): string {
    "  Active users (last connection < 1 year) [" + NatToString(count) + "]:"
  }

  /** How many heading lines a listing prints for a set of activity flags. */
  function Headings(activity: seq<string>): nat {
    if activity == [] then 0
    else if "unused" in activity then 2
    else if "sign_in" in activity || "active" in activity then 1
    else 0
  }

  /**
   * The lines `output` prints (without ssh key export). Without a filter,
   * one `user_info` line per user. With one, the first flag present among
   * "unused", "sign_in" and "active" decides: a heading and the users who
   * last signed in more than a year ago, then a heading and those who never
   * did; a heading and every active user who signed in; or a heading
   * counting the users who signed in within the year, then those users.
   * Any other flag prints nothing, and a sign-in date that does not parse
   * stops the listing. So the text listing shows the users the CSV listing
   * shows, in the same order.
   */
  function OutputLines(d: Display, activity: seq<string>, users: seq<User>, now: int, parse: string -> Option<int>)
    : (r: Result<seq<string>>)
    ensures activity == [] ==> r == Success(Infos(d, users))
    ensures activity != [] ==> (r.Failure? <==> !AllClassified(users, now, parse))
    ensures r.Failure? ==> r == Failure(BadDate)
    ensures Filtered(activity, users, now, parse) && "unused" in activity ==>
              r == Success([OldHeader] + Infos(d, Pick(users, now, parse, {Stale})) +
                           [NeverHeader] + Infos(d, Pick(users, now, parse, {Never})))
    ensures Filtered(activity, users, now, parse) && "unused" !in activity && "sign_in" in activity ==>
              r == Success([AlreadyHeader] + Infos(d, Pick(users, now, parse, {Stale, Recent})))
    ensures Filtered(activity, users, now, parse) && "unused" !in activity && "sign_in" !in activity &&
            "active" in activity ==>
              r == Success([ActiveHeader(|Pick(users, now, parse, {Recent})|)] + Infos(d, Pick(users, now, parse, {Recent})))
    ensures Filtered(activity, users, now, parse) && "unused" !in activity && "sign_in" !in activity &&
            "active" !in activity ==>
              r == Success([])
    ensures r.Success? ==> |r.value| == Headings(activity) + |ShownUsers(activity, users, now, parse).value|
  {
    ActivityOfFails(users, now, parse);
    FailureIsBadDate(users, now, parse);
    assert AllClassified(users, now, parse) ==> ActivityOf(users, now, parse) == PickedBuckets(users, now, parse) by {
      if AllClassified(users, now, parse) {
        ActivityOfPick(users, now, parse);
      }
    }
    if activity == [] then Success(Infos(d, users))
    else match ActivityOf(users, now, parse)
      case Failure(e) => Failure(e)
      case Success(b) =>
        if "unused" in activity then
          Success([OldHeader] + Infos(d, b.oldSignIn) + [NeverHeader] + Infos(d, b.neverSignIn))
        else if "sign_in" in activity then Success([AlreadyHeader] + Infos(d, b.alreadySignIn))
        else if "active" in activity then Success([ActiveHeader(|b.active|)] + Infos(d, b.active))
        else Success([])
  }

  // ---------------------------------------------------------------------
  // The list of usernames

  function Usernames(users: seq<User>): (r: seq<string>)
    ensures |r| == |users| && forall i :: 0 <= i < |users| ==> r[i] == users[i].username
  {
    seq(|users|, i requires 0 <= i < |users| => users[i].username)
  }

  function UsernamesHeader(n: nat): string {
    "Existing usernames (" + NatToString(n) + "):"
  }

  /** The line break and bullet `list_usernames` adds for one name. */
  function Bullet(name: string): string {
    "\n - " + name
  }

  /** One bullet per name, in order. */
  function Bullets(names: seq<string>): string {
    if names == [] then []
    else Bullets(names[..|names| - 1]) + Bullet(names[|names| - 1])
  }

  /**
   * The text `list_usernames` returns: the header counting the users, then
   * a bullet per user; with no users, the header alone.
   */
  function UsernameListing(users: seq<User>): (r: string)
    ensures StartsWith(r, UsernamesHeader(|users|))
    ensures users == [] ==> r == UsernamesHeader(0)
  {
    UsernamesHeader(|users|) + Bullets(SortStrings(Usernames(users)))
  }

  /** `list_usernames` */
  method ListUsernames(users: seq<User>) returns (msg: string)
    ensures msg == UsernameListing(users)
  {
    var usernames := Usernames(users);
    msg := UsernamesHeader(|usernames|);
    var sorted := SortStrings(usernames);
    for i := 0 to |sorted|
      invariant msg == UsernamesHeader(|users|) + Bullets(sorted[..i])
    {
      assert sorted[..i + 1][..i] == sorted[..i];
      AppendAssoc(UsernamesHeader(|users|), Bullets(sorted[..i]), Bullet(sorted[i]));
      msg := msg + Bullet(sorted[i]);
    }
    assert sorted[..|sorted|] == sorted;
  }

  /** The lines the bullets make, without their line breaks. */
  function BulletTexts(names: seq<string>): (r: seq<string>)
    ensures |r| == |names| && forall i :: 0 <= i < |names| ==> r[i] == " - " + names[i]
  {
    if names == [] then [] else BulletTexts(names[..|names| - 1]) + [" - " + names[|names| - 1]]
  }

  /**
   * Read line by line, the listing is the header counting every user, then
   * one line per username in ascending order: the usernames, each once per
   * user.
   */
  lemma UsernameListingLines(users: seq<User>)
    requires forall i :: 0 <= i < |users| ==> '\n' !in users[i].username
    ensures var sorted := SortStrings(Usernames(users));
            Split(UsernameListing(users), '\n') == [UsernamesHeader(|users|)] + BulletTexts(sorted) &&
            Sorted(sorted) && multiset(sorted) == multiset(Usernames(users))
  {
    var sorted := SortStrings(Usernames(users));
    forall i | 0 <= i < |sorted| ensures '\n' !in sorted[i] {
      assert sorted[i] in multiset(Usernames(users));
    }
    HeaderHasNoNewline(|users|);
    BulletLines(UsernamesHeader(|users|), sorted);
  }

  lemma HeaderHasNoNewline(n: nat)
    ensures '\n' !in UsernamesHeader(n)
  {
    var digits := NatToString(n);
    assert '\n' !in digits by {
      forall i | 0 <= i < |digits| ensures digits[i] != '\n' {
      }
    }
  }

  lemma {:induction false} BulletLines(header: string, names: seq<string>)
    requires '\n' !in header
    requires forall i :: 0 <= i < |names| ==> '\n' !in names[i]
    ensures Split(header + Bullets(names), '\n') == [header] + BulletTexts(names)
  {
    if names == [] {
      assert header + Bullets(names) == header;
    } else {
      var init := names[..|names| - 1];
      var text := " - " + names[|names| - 1];
      BulletLines(header, init);
      AppendAssoc(header, Bullets(init), Bullet(names[|names| - 1]));
      assert Bullet(names[|names| - 1]) == ['\n'] + text;
      assert '\n' !in text;
      SplitAppend(header + Bullets(init), '\n', text);
      AppendAssoc([header], BulletTexts(init), [text]);
    }
  }
}
