/** Model of the decision logic of core/views.py: the permission table of the
    user endpoints, the validation of user creation and update, the admin
    succession that runs when an admin leaves a group, the single-use email
    verification code, and the five-minute cool-down between emails. */
module Views {
  import opened Groups

  // ---------------------------------------------------------------------------
  // Permissions
  // ---------------------------------------------------------------------------

  datatype Action = List | Retrieve | Update | PartialUpdate | Create | OtherAction

  datatype Permission = AllowAny | IsAdminUser | IsAuthenticated | IsUsersProfileOrGroupAdmin

  /** `UserViewSet.get_permissions`: the permission class guarding an action,
      read here per class: which requests each class guards. */
  function PermissionFor(isStaff: bool, action: Action): (p: Permission)
    ensures p == AllowAny <==> isStaff || action == Create
    ensures p == IsAdminUser <==> !isStaff && action == List
    ensures p == IsUsersProfileOrGroupAdmin <==> !isStaff && (action == Update || action == PartialUpdate)
    ensures p == IsAuthenticated <==> !isStaff && (action == Retrieve || action == OtherAction)
  {
    if isStaff then AllowAny
    else match action
      case List => IsAdminUser
      case Retrieve => IsAuthenticated
      case Update => IsUsersProfileOrGroupAdmin
      case PartialUpdate => IsUsersProfileOrGroupAdmin
      case Create => AllowAny
      case OtherAction => IsAuthenticated
  }

  // ---------------------------------------------------------------------------
  // Creating and updating users
  // ---------------------------------------------------------------------------

  /** The `group_id` of a request: absent, or given. A given empty code stands
      for every falsy value (null or the empty string). */
  datatype GroupField = Absent | Given(code: string)

  datatype CreateRequest = CreateRequest(email: string, password: string, groupId: string)

  /** An empty password stands for a password that is absent or empty. */
  datatype UpdateRequest = UpdateRequest(password: string, groupId: GroupField)

  datatype Rejection =
    | Invalid(badPassword: bool, missingGroup: bool)  // the 400 response with its error fields
    | NotFound                                         // no user with that id
    | PrivateGroup
    | Blacklisted
    | AdminTaken  // the successor already administers another group: the unique admin column refuses the write

  datatype Result<T> = Ok(value: T) | Err(error: Rejection)

  /** The code `group_id` names, empty when it is absent or falsy. */
  function TargetOf(f: GroupField): string {
    if f.Given? then f.code else ""
  }

  /** The membership a successful update writes: the new group, or none. */
  function NewMembership(f: GroupField, current: Option<Code>): Option<Code> {
    if f.Absent? then current else if f.code == "" then None else Some(f.code)
  }

  /** The user is moving away from a current group: `group_id` is in the
      request and differs from the current group (a falsy value included). */
  predicate Leaves(f: GroupField, current: Option<Code>) {
    f.Given? && current.Some? && TargetOf(f) != current.value
  }

  predicate BadPassword(password: string, isValidPassword: string -> bool) {
    password != "" && !isValidPassword(password)
  }

  /** `UserViewSet.create`: check the password and the group, both at once;
      on success store the new user under the next free id, in the group the
      request names. `issuedCode` is the verification code the user record
      receives (generated outside this model). */
  method CreateUser(db: Database, req: CreateRequest, isValidPassword: string -> bool, issuedCode: string)
    returns (r: Result<UserId>)
    requires db.Valid()
    modifies db
    ensures db.Valid()
    ensures r.Err? ==> r.error == Invalid(!isValidPassword(req.password), req.groupId != "" && req.groupId !in old(db.groups))
    ensures r.Ok? <==> isValidPassword(req.password) && (req.groupId == "" || req.groupId in old(db.groups))
    ensures r.Err? ==> db.users == old(db.users)
    ensures r.Ok? ==> r.value !in old(db.users)
    ensures r.Ok? ==> db.users == old(db.users)[r.value := User(req.email, NewMembership(Given(req.groupId), None), false, Some(issuedCode), None)]
    ensures db.groups == old(db.groups) && db.stores == old(db.stores) && db.products == old(db.products)
  {
    var badPassword := !isValidPassword(req.password);
    var missingGroup := req.groupId != "" && req.groupId !in db.groups;
    if badPassword || missingGroup {
      return Err(Invalid(badPassword, missingGroup));
    }
    var id := NextId(db.users.Keys);
    db.SaveUser(id, User(req.email, NewMembership(Given(req.groupId), None), false, Some(issuedCode), None));
    r := Ok(id);
  }

  /** The primary key the datastore assigns next: one above every key in use. */
  method NextId(ids: set<nat>) returns (id: nat)
    ensures id !in ids
    ensures forall k :: k in ids ==> k < id
  {
    var rest := ids;
    id := 0;
    while rest != {}
      invariant rest <= ids
      invariant forall k :: k in ids && k !in rest ==> k < id
      decreases rest
    {
      var k :| k in rest;
      if id <= k {
        id := k + 1;
      }
      rest := rest - {k};
    }
  }

  /** `group_id` names a group that does not exist. */
  predicate MissingGroup(groups: map<Code, Group>, f: GroupField) {
    TargetOf(f) != "" && TargetOf(f) !in groups
  }

  /** The validation of `UserViewSet.update`, in its order: an unknown user;
      then a bad password and a missing group, reported together; then a
      private group; then the blacklist. `None` lets the update go ahead. */
  function UpdateRejection(groups: map<Code, Group>, users: map<UserId, User>, uid: UserId,
                           req: UpdateRequest, isValidPassword: string -> bool): (rej: Option<Rejection>)
    ensures rej.None? <==>
              && uid in users
              && !BadPassword(req.password, isValidPassword)
              && !MissingGroup(groups, req.groupId)
              && (TargetOf(req.groupId) != "" ==>
                    !groups[TargetOf(req.groupId)].private && uid !in groups[TargetOf(req.groupId)].blacklist)
    ensures rej == Some(NotFound) <==> uid !in users
    // a 400 response is sent exactly for a bad password or a missing group, and names which
    ensures uid in users ==>
              (rej.Some? && rej.value.Invalid? <==>
                 BadPassword(req.password, isValidPassword) || MissingGroup(groups, req.groupId))
    ensures rej.Some? && rej.value.Invalid? ==>
              rej.value == Invalid(BadPassword(req.password, isValidPassword), MissingGroup(groups, req.groupId))
    ensures rej.Some? && rej.value.Invalid? ==> rej.value.badPassword || rej.value.missingGroup
    ensures rej == Some(PrivateGroup) <==>
              uid in users && !BadPassword(req.password, isValidPassword)
              && TargetOf(req.groupId) != "" && TargetOf(req.groupId) in groups
              && groups[TargetOf(req.groupId)].private
    ensures rej == Some(Blacklisted) <==>
              uid in users && !BadPassword(req.password, isValidPassword)
              && TargetOf(req.groupId) != "" && TargetOf(req.groupId) in groups
              && !groups[TargetOf(req.groupId)].private && uid in groups[TargetOf(req.groupId)].blacklist
    ensures rej != Some(AdminTaken)
  {
    if uid !in users then Some(NotFound)
    else
      var badPassword := BadPassword(req.password, isValidPassword);
      var missingGroup := MissingGroup(groups, req.groupId);
      if badPassword || missingGroup then Some(Invalid(badPassword, missingGroup))
      else if TargetOf(req.groupId) == "" then None
      else if groups[TargetOf(req.groupId)].private then Some(PrivateGroup)
      else if uid in groups[TargetOf(req.groupId)].blacklist then Some(Blacklisted)
      else None
  }

  /** The succession step of `UserViewSet.update`, for an admin leaving group
      `prev`: another member becomes admin, or, with no other member, the
      group is deleted with its cascades. The write of the new admin fails
      (and changes nothing) only when that member already administers another
      group, which cannot happen while every admin is a member of its group. */
  method HandOver(db: Database, uid: UserId, prev: Code) returns (ok: bool)
    requires db.Valid()
    requires uid in db.users && db.users[uid].group == Some(prev)
    requires prev in db.groups && db.groups[prev].admin == Some(uid)
    modifies db
    ensures db.Valid()
    ensures old(db.AdminsAreMembers()) ==> ok && db.AdminsAreMembers()
    ensures !ok ==> db.groups == old(db.groups) && db.stores == old(db.stores)
                    && db.products == old(db.products) && db.users == old(db.users)
    ensures ok ==> forall c :: c in db.groups ==> db.groups[c].admin != Some(uid)
    // another member takes over; nothing else changes
    ensures ok && Members(old(db.users), prev) - {uid} != {} ==>
              && db.groups.Keys == old(db.groups).Keys
              && db.groups[prev].admin.Some?
              && db.groups[prev].admin.value in Members(old(db.users), prev) - {uid}
              && db.groups == old(db.groups)[prev := old(db.groups)[prev].(admin := db.groups[prev].admin)]
              && db.stores == old(db.stores) && db.products == old(db.products) && db.users == old(db.users)
    // the last member leaves: the group goes, with its stores and products
    ensures ok && Members(old(db.users), prev) - {uid} == {} ==>
              && db.groups == old(db.groups) - {prev}
              && db.stores == WithoutStoresOf(old(db.stores), prev)
              && db.products == WithoutProductsOf(old(db.products), old(db.stores), prev)
              && db.users == old(db.users)[uid := old(db.users)[uid].(group := None)]
  {
    var others := Members(db.users, prev) - {uid};
    if others != {} {
      var successor :| successor in others;
      var succeeded := db.groups[prev].(admin := Some(successor));
      if !db.Fits(prev, succeeded) {
        return false;
      }
      var _ := db.SaveGroup(prev, succeeded, []);
    } else {
      ghost var before := db.users;
      db.DeleteGroup(prev);
      forall v | v in before && v != uid ensures db.users[v] == before[v] {
        assert v !in Members(before, prev) - {uid};
      }
      assert db.users == before[uid := before[uid].(group := None)];
    }
    ok := true;
  }

  /** `UserViewSet.update`, restricted to the membership change it governs:
      validation, each rejection leaving the datastore as it was; then, when
      the user leaves a group it administers, succession; last, the new
      membership is written. */
  method UpdateUser(db: Database, uid: UserId, req: UpdateRequest, isValidPassword: string -> bool)
    returns (r: Result<()>)
    requires db.Valid()
    modifies db
    ensures db.Valid()
    ensures old(db.AdminsAreMembers()) ==> db.AdminsAreMembers()
    // rejections
    ensures r.Err? ==> db.groups == old(db.groups) && db.stores == old(db.stores)
                       && db.products == old(db.products) && db.users == old(db.users)
    ensures UpdateRejection(old(db.groups), old(db.users), uid, req, isValidPassword).Some? ==>
              r == Err(UpdateRejection(old(db.groups), old(db.users), uid, req, isValidPassword).value)
    ensures r.Err? && r.error != AdminTaken ==>
              Some(r.error) == UpdateRejection(old(db.groups), old(db.users), uid, req, isValidPassword)
    ensures r == Err(NotFound) <==> uid !in old(db.users)
    ensures r.Err? && r.error.Invalid? ==> r.error.badPassword || r.error.missingGroup
    ensures uid in old(db.users)
            && (BadPassword(req.password, isValidPassword) || MissingGroup(old(db.groups), req.groupId)) ==>
              r == Err(Invalid(BadPassword(req.password, isValidPassword), MissingGroup(old(db.groups), req.groupId)))
    ensures r == Err(PrivateGroup) <==>
              uid in old(db.users) && !BadPassword(req.password, isValidPassword)
              && TargetOf(req.groupId) in old(db.groups) && old(db.groups)[TargetOf(req.groupId)].private
    ensures r == Err(Blacklisted) <==>
              uid in old(db.users) && !BadPassword(req.password, isValidPassword)
              && TargetOf(req.groupId) in old(db.groups) && !old(db.groups)[TargetOf(req.groupId)].private
              && uid in old(db.groups)[TargetOf(req.groupId)].blacklist
    ensures r == Err(AdminTaken) ==> !old(db.AdminsAreMembers())
    // a request that passes validation succeeds while every admin is a member of its group
    ensures old(db.AdminsAreMembers()) && uid in old(db.users)
            && !BadPassword(req.password, isValidPassword) && !MissingGroup(old(db.groups), req.groupId)
            && (TargetOf(req.groupId) != "" ==>
                  !old(db.groups)[TargetOf(req.groupId)].private
                  && uid !in old(db.groups)[TargetOf(req.groupId)].blacklist) ==>
              r.Ok?
    // the new membership; no other user changes
    ensures r.Ok? ==> uid in old(db.users)
    ensures r.Ok? ==> db.users == old(db.users)[uid := old(db.users)[uid].(group := NewMembership(req.groupId, old(db.users)[uid].group))]
    // staying, or leaving a group one does not administer: the groups do not change
    ensures r.Ok? && !(Leaves(req.groupId, old(db.users)[uid].group)
                       && old(db.groups)[old(db.users)[uid].group.value].admin == Some(uid)) ==>
              db.groups == old(db.groups) && db.stores == old(db.stores) && db.products == old(db.products)
    // leaving a group one administers
    ensures r.Ok? && Leaves(req.groupId, old(db.users)[uid].group) ==>
              var prev := old(db.users)[uid].group.value;
              old(db.groups)[prev].admin == Some(uid) ==>
                && (forall c :: c in db.groups ==> db.groups[c].admin != Some(uid))
                && (Members(old(db.users), prev) - {uid} != {} ==>
                      && db.groups.Keys == old(db.groups).Keys
                      && db.groups[prev].admin.Some?
                      && db.groups[prev].admin.value in Members(old(db.users), prev) - {uid}
                      && db.groups == old(db.groups)[prev := old(db.groups)[prev].(admin := db.groups[prev].admin)]
                      && db.stores == old(db.stores) && db.products == old(db.products))
                && (Members(old(db.users), prev) - {uid} == {} ==>
                      && db.groups == old(db.groups) - {prev}
                      && db.stores == WithoutStoresOf(old(db.stores), prev)
                      && db.products == WithoutProductsOf(old(db.products), old(db.stores), prev))
  {
    var rejection := UpdateRejection(db.groups, db.users, uid, req, isValidPassword);
    if rejection.Some? {
      return Err(rejection.value);
    }
    var current := db.users[uid].group;
    if Leaves(req.groupId, current) && db.groups[current.value].admin == Some(uid) {
      var handedOver := HandOver(db, uid, current.value);
      if !handedOver {
        return Err(AdminTaken);
      }
    }
    if req.groupId.Given? {
      db.SaveUser(uid, db.users[uid].(group := NewMembership(req.groupId, current)));
    }
    r := Ok(());
  }

  // ---------------------------------------------------------------------------
  // Email verification
  // ---------------------------------------------------------------------------

  /** The rows `User.objects.get(email=..., verification_code=...)` looks at. */
  function Matching(users: map<UserId, User>, email: string, code: string): set<UserId> {
    set u | u in users && users[u].email == email && users[u].verificationCode == Some(code)
  }

  /** The rows `User.objects.get(email=...)` looks at. */
  function ByEmail(users: map<UserId, User>, email: string): set<UserId> {
    set u | u in users && users[u].email == email
  }

  /** `s` is the single row a `get` returns. */
  predicate Only(s: set<UserId>, u: UserId) {
    s == {u}
  }

  datatype Lookup = NoRow | OneRow(id: UserId) | SeveralRows

  /** `get` over a set of rows: the one row, or the failure to find exactly one
      (DoesNotExist, MultipleObjectsReturned). */
  method Get(s: set<UserId>) returns (r: Lookup)
    ensures r == NoRow <==> s == {}
    ensures r.OneRow? ==> Only(s, r.id)
    ensures r == SeveralRows <==> |s| > 1
  {
    if s == {} {
      return NoRow;
    }
    var u :| u in s;
    if s == {u} {
      return OneRow(u);
    }
    var v :| v in s && v != u;
    assert v in s - {u};
    assert |s - {u}| == |s| - 1;
    r := SeveralRows;
  }

  /** The user record after a successful verification. */
  function Consumed(u: User): User {
    u.(verified := true, verificationCode := None)
  }

  /** Once a code has verified its user, the same email and code match no one. */
  lemma {:induction false} VerificationCodeIsSingleUse(users: map<UserId, User>, who: UserId, email: string, code: string)
    requires Only(Matching(users, email, code), who)
    ensures Matching(users[who := Consumed(users[who])], email, code) == {}
  {
    var after := users[who := Consumed(users[who])];
    forall v | v in after
      ensures !(after[v].email == email && after[v].verificationCode == Some(code))
    {
      if v != who {
        assert v !in Matching(users, email, code);
      }
    }
  }

  datatype VerifyOutcome = Verified(who: UserId) | InvalidCode | SeveralMatches

  /** `verify_email_code`: the one user with this email and code becomes
      verified and loses its code; a pair that matches no one changes nothing
      (and neither does a pair that matches several rows, an unhandled error). */
  method VerifyEmailCode(db: Database, email: string, code: string) returns (r: VerifyOutcome)
    requires db.Valid()
    modifies db
    ensures db.Valid()
    ensures r == InvalidCode <==> Matching(old(db.users), email, code) == {}
    ensures r == SeveralMatches <==> |Matching(old(db.users), email, code)| > 1
    ensures r.Verified? ==> Only(Matching(old(db.users), email, code), r.who)
    ensures r.Verified? ==> db.users == old(db.users)[r.who := Consumed(old(db.users)[r.who])]
    ensures r.Verified? ==> Matching(db.users, email, code) == {}
    ensures !r.Verified? ==> db.users == old(db.users)
    ensures db.groups == old(db.groups) && db.stores == old(db.stores) && db.products == old(db.products)
  {
    var found := Get(Matching(db.users, email, code));
    match found
    case NoRow => r := InvalidCode;
    case SeveralRows => r := SeveralMatches;
    case OneRow(who) =>
      VerificationCodeIsSingleUse(db.users, who, email, code);
      db.SaveUser(who, Consumed(db.users[who]));
      r := Verified(who);
  }

  // ---------------------------------------------------------------------------
  // The email cool-down
  // ---------------------------------------------------------------------------

  /** Five minutes, in seconds. */
  const Timeout: int := 300

  datatype CoolDown = Wait(minutes: int, seconds: int) | Proceed

  /** The cool-down check of the resend and feedback views: within five minutes
      of the last email, refuse and report the time left as minutes and
      seconds (`divmod(remaining, 60)`); otherwise go ahead. Times are whole
      seconds. */
  function CoolDownFor(lastSent: Option<int>, now: int): (d: CoolDown)
    ensures d.Wait? <==> lastSent.Some? && now - lastSent.value < Timeout
    ensures d.Wait? ==> d.minutes * 60 + d.seconds == Timeout - (now - lastSent.value)
    ensures d.Wait? ==> 0 <= d.seconds < 60 && 0 <= d.minutes
    ensures d.Wait? && lastSent.value <= now ==> d.minutes < 5 || (d.minutes == 5 && d.seconds == 0)
  {
    if lastSent.Some? && now - lastSent.value < Timeout then
      var remaining := Timeout - (now - lastSent.value);
      Wait(remaining / 60, remaining % 60)
    else
      Proceed
  }

  datatype SendOutcome = Sent | TooSoon(minutes: int, seconds: int) | AlreadyVerified | UnknownEmail | DuplicateEmail

  /** The answer of the cool-down check for a user who last got an email at
      `lastSent`. */
  function CoolDownAnswer(lastSent: Option<int>, now: int): (r: SendOutcome)
    ensures r == Sent || r.TooSoon?
    ensures r == Sent <==> lastSent.None? || now - lastSent.value >= Timeout
    ensures r.TooSoon? ==> r.minutes * 60 + r.seconds == Timeout - (now - lastSent.value)
    ensures r.TooSoon? ==> 0 <= r.seconds < 60 && 0 <= r.minutes
  {
    match CoolDownFor(lastSent, now)
    case Wait(m, sec) => TooSoon(m, sec)
    case Proceed => Sent
  }

  /** The answer of the resend view for the user with the email. */
  function ResendAnswer(u: User, now: int): (r: SendOutcome)
    ensures r == AlreadyVerified <==> u.verified
    ensures r == Sent <==> !u.verified && (u.lastEmailSent.None? || now - u.lastEmailSent.value >= Timeout)
    ensures r.TooSoon? <==> !u.verified && u.lastEmailSent.Some? && now - u.lastEmailSent.value < Timeout
    ensures r.TooSoon? ==> r.minutes * 60 + r.seconds == Timeout - (now - u.lastEmailSent.value)
    ensures r.TooSoon? ==> 0 <= r.seconds < 60 && 0 <= r.minutes
  {
    if u.verified then AlreadyVerified else CoolDownAnswer(u.lastEmailSent, now)
  }

  /** `ResendVerificationEmailView.post` as written: it stamps `last_email_sent`
      on the loaded user but never saves it, so the datastore is left as it was
      (the method modifies nothing). */
  method ResendVerificationEmail(db: Database, email: string, now: int) returns (r: SendOutcome)
    ensures r == UnknownEmail <==> ByEmail(db.users, email) == {}
    ensures r == DuplicateEmail <==> |ByEmail(db.users, email)| > 1
    ensures forall u :: Only(ByEmail(db.users, email), u) ==> u in db.users && r == ResendAnswer(db.users[u], now)
  {
    var found := Get(ByEmail(db.users, email));
    match found
    case NoRow => r := UnknownEmail;
    case SeveralRows => r := DuplicateEmail;
    case OneRow(who) => r := ResendAnswer(db.users[who], now);
  }

  /** The resend view with the stamp saved, as the feedback view does: a sent
      email starts the cool-down. */
  method ResendVerificationEmailStamped(db: Database, email: string, now: int) returns (r: SendOutcome)
    requires db.Valid()
    modifies db
    ensures db.Valid()
    ensures r == UnknownEmail <==> ByEmail(old(db.users), email) == {}
    ensures r == DuplicateEmail <==> |ByEmail(old(db.users), email)| > 1
    ensures forall u :: Only(ByEmail(old(db.users), email), u) ==>
              u in old(db.users) && r == ResendAnswer(old(db.users)[u], now)
              && db.users == if r == Sent then old(db.users)[u := old(db.users)[u].(lastEmailSent := Some(now))]
                             else old(db.users)
    ensures r != Sent ==> db.users == old(db.users)
    ensures db.groups == old(db.groups) && db.stores == old(db.stores) && db.products == old(db.products)
  {
    var found := Get(ByEmail(db.users, email));
    match found
    case NoRow => r := UnknownEmail;
    case SeveralRows => r := DuplicateEmail;
    case OneRow(who) =>
      r := ResendAnswer(db.users[who], now);
      if r == Sent {
        db.SaveUser(who, db.users[who].(lastEmailSent := Some(now)));
      }
  }

  /** `FeedbackView.post`: the same cool-down, with the stamp saved. A missing
      email is not caught by the view (the request fails); nothing changes. */
  method Feedback(db: Database, email: string, now: int) returns (r: SendOutcome)
    requires db.Valid()
    modifies db
    ensures db.Valid()
    ensures r == UnknownEmail <==> ByEmail(old(db.users), email) == {}
    ensures r == DuplicateEmail <==> |ByEmail(old(db.users), email)| > 1
    ensures forall u :: Only(ByEmail(old(db.users), email), u) ==>
              u in old(db.users) && r == CoolDownAnswer(old(db.users)[u].lastEmailSent, now)
              && db.users == if r == Sent then old(db.users)[u := old(db.users)[u].(lastEmailSent := Some(now))]
                             else old(db.users)
    ensures r != Sent ==> db.users == old(db.users)
    ensures db.groups == old(db.groups) && db.stores == old(db.stores) && db.products == old(db.products)
  {
    var found := Get(ByEmail(db.users, email));
    match found
    case NoRow => r := UnknownEmail;
    case SeveralRows => r := DuplicateEmail;
    case OneRow(who) =>
      r := CoolDownAnswer(db.users[who].lastEmailSent, now);
      if r == Sent {
        db.SaveUser(who, db.users[who].(lastEmailSent := Some(now)));
      }
  }

  /** An unverified user asks for the verification email twice, one minute
      apart, through the view as written: both requests are sent. */
  method ResendTwiceAsWritten() returns (first: SendOutcome, second: SendOutcome)
    ensures first == Sent && second == Sent
  {
    var db := new Database();
    db.SaveUser(0, User("ann@example.org", None, false, Some("4711"), None));
    assert Only(ByEmail(db.users, "ann@example.org"), 0);
    first := ResendVerificationEmail(db, "ann@example.org", 1000);
    second := ResendVerificationEmail(db, "ann@example.org", 1060);
  }

  /** The same two requests with the stamp saved: the second is refused with
      four minutes left. */
  method ResendTwiceStamped() returns (first: SendOutcome, second: SendOutcome)
    ensures first == Sent && second == TooSoon(4, 0)
  {
    var db := new Database();
    db.SaveUser(0, User("ann@example.org", None, false, Some("4711"), None));
    assert Only(ByEmail(db.users, "ann@example.org"), 0);
    first := ResendVerificationEmailStamped(db, "ann@example.org", 1000);
    assert Only(ByEmail(db.users, "ann@example.org"), 0);
    second := ResendVerificationEmailStamped(db, "ann@example.org", 1060);
  }
}
