/**
 * The decisions and record updates of authentication/views.py: user and
 * admin registration, user and admin login, the admin approval list and
 * toggle, the mailbox value update, and the user listings. Each view returns
 * an HTTP status; those that write change the `Db` tables in place.
 *
 * Password checking is the abstract predicate `checkPassword`; token
 * issuance is reduced to the claims the response carries; approval mail,
 * the client-IP lookup and the serializer's field-format checks are inputs
 * or left out (see README).
 */
module AuthViews {
  import opened Common
  import opened Records

  const HTTP_200_OK := 200
  const HTTP_201_CREATED := 201
  const HTTP_400_BAD_REQUEST := 400
  const HTTP_401_UNAUTHORIZED := 401
  const HTTP_403_FORBIDDEN := 403
  const HTTP_404_NOT_FOUND := 404
  /** An exception the view does not catch. */
  const HTTP_500_SERVER_ERROR := 500

  /** The one client address allowed to register admins. */
  const AdminRegistrationIp := "192.168.1.8"

  /** The abstract `user.check_password(password)`. */
  type PasswordCheck = (User, Option<string>) -> bool

  // -----------------------------------------------------------------------
  // RegisterView
  // -----------------------------------------------------------------------

  /** `email.split("@")[0]`: the text before the first '@', or all of it. */
  function UsernameOf(email: string): (u: string)
    ensures u <= email
    ensures '@' !in u
    ensures |u| < |email| ==> email[|u|] == '@'
  {
    if email == [] || email[0] == '@' then []
    else [email[0]] + UsernameOf(email[1..])
  }

  /** An address built from a local part without '@' yields that part back. */
  lemma {:induction false} UsernameOfLocalPart(local: string, domain: string)
    requires '@' !in local
    ensures UsernameOf(local + "@" + domain) == local
  {
    if local != [] {
      assert (local + "@" + domain)[1..] == local[1..] + "@" + domain;
      UsernameOfLocalPart(local[1..], domain);
    }
  }

  /** The registration form's fields. */
  datatype RegisterRequest = RegisterRequest(username: string, email: string, profile: Profile)

  /**
   * `RegisterView.post`. The serializer rejects the form (400) when a field
   * is malformed (`fieldsValid` false) or the requested username or the
   * email is taken. The stored username is not the requested one but the
   * email's local part. The serializer compares the email as given, but
   * `create_user` stores it normalised; if the local part is empty or
   * taken, or the normalised email is taken, `create_user` raises outside
   * any handler (500). Otherwise an unapproved user is created (201).
   */
  method Register(db: Db, req: RegisterRequest, fieldsValid: bool) returns (status: int)
    requires db.Valid()
    modifies db
    ensures db.Valid() && db.mailboxes == old(db.mailboxes)
    ensures status == HTTP_400_BAD_REQUEST <==>
              !fieldsValid || UsernameTaken(old(db.users), req.username) || EmailTaken(old(db.users), req.email)
    ensures status == HTTP_500_SERVER_ERROR <==>
              status != HTTP_400_BAD_REQUEST &&
              (UsernameOf(req.email) == "" || UsernameTaken(old(db.users), UsernameOf(req.email)) ||
               EmailTaken(old(db.users), NormalizeEmail(req.email)))
    ensures status in {HTTP_201_CREATED, HTTP_400_BAD_REQUEST, HTTP_500_SERVER_ERROR}
    ensures status != HTTP_201_CREATED ==> db.users == old(db.users)
    ensures status == HTTP_201_CREATED ==>
              db.users == old(db.users)[old(db.nextUserId) :=
                NewUser(old(db.nextUserId), UsernameOf(req.email), NormalizeEmail(req.email),
                        req.profile, false, None)]
  {
    if !fieldsValid || UsernameTaken(db.users, req.username) || EmailTaken(db.users, req.email) {
      return HTTP_400_BAD_REQUEST;
    }
    var r := db.CreateUser(UsernameOf(req.email), req.email, req.profile, false, None);
    status := if r.Ok? then HTTP_201_CREATED else HTTP_500_SERVER_ERROR;
  }

  // -----------------------------------------------------------------------
  // UserLoginView and AdminLoginView
  // -----------------------------------------------------------------------

  /** A login response: the token claims, or a refusal status. */
  datatype LoginResult = Issued(userId: UserId, username: string, isSuperuser: bool) | Refused(status: int)

  /** `User.objects.get(username=...)`: the one user with that name, if any. */
  method GetByUsername(users: map<UserId, User>, username: Option<string>) returns (r: Option<UserId>)
    ensures r.None? <==> username.None? || !UsernameTaken(users, username.value)
    ensures r.Some? ==> r.value in users && Some(users[r.value].username) == username
  {
    if username.Some? && UsernameTaken(users, username.value) {
      var id :| id in users && users[id].username == username.value;
      r := Some(id);
    } else {
      r := None;
    }
  }

  /**
   * `UserLoginView` once the user is found: approval is checked before the
   * password, so an unapproved user gets 403 whatever the password.
   */
  function UserLoginDecision(u: User, password: Option<string>, checkPassword: PasswordCheck): (r: LoginResult)
    ensures r.Issued? <==> u.isApproved && checkPassword(u, password)
    ensures r.Issued? ==> r == Issued(u.id, u.username, u.isSuperuser)
    ensures !u.isApproved ==> r == Refused(HTTP_403_FORBIDDEN)
    ensures u.isApproved && !checkPassword(u, password) ==> r == Refused(HTTP_401_UNAUTHORIZED)
  {
    if !u.isApproved then Refused(HTTP_403_FORBIDDEN)
    else if !checkPassword(u, password) then Refused(HTTP_401_UNAUTHORIZED)
    else Issued(u.id, u.username, u.isSuperuser)
  }

  /** `UserLoginView.post`: an unknown username gets 401. */
  method UserLogin(users: map<UserId, User>, username: Option<string>, password: Option<string>,
                   checkPassword: PasswordCheck) returns (r: LoginResult)
    requires UsernamesUnique(users)
    ensures username.None? || !UsernameTaken(users, username.value) ==> r == Refused(HTTP_401_UNAUTHORIZED)
    ensures forall id :: id in users && Some(users[id].username) == username ==>
              r == UserLoginDecision(users[id], password, checkPassword)
    ensures r.Issued? <==>
              exists id :: id in users && Some(users[id].username) == username &&
                           users[id].isApproved && checkPassword(users[id], password)
  {
    var found := GetByUsername(users, username);
    if found.None? {
      return Refused(HTTP_401_UNAUTHORIZED);
    }
    r := UserLoginDecision(users[found.value], password, checkPassword);
  }

  /**
   * The admin IP check: a non-empty allowed IP that differs from the client
   * address. An absent or empty allowed IP never refuses.
   */
  predicate IpRefused(u: User, clientIp: Option<string>) {
    Truthy(u.allowedIp) && u.allowedIp != clientIp
  }

  /**
   * `AdminLoginView` once the user is found: a non-superuser gets 403, then
   * a refused IP gets 403 before the password is looked at.
   */
  function AdminLoginDecision(u: User, clientIp: Option<string>, password: Option<string>,
                              checkPassword: PasswordCheck): (r: LoginResult)
    ensures r.Issued? <==> u.isSuperuser && !IpRefused(u, clientIp) && checkPassword(u, password)
    ensures r.Issued? ==> r == Issued(u.id, u.username, true)
    ensures !u.isSuperuser || IpRefused(u, clientIp) ==> r == Refused(HTTP_403_FORBIDDEN)
    ensures u.isSuperuser && !IpRefused(u, clientIp) && !checkPassword(u, password) ==>
              r == Refused(HTTP_401_UNAUTHORIZED)
  {
    if !u.isSuperuser then Refused(HTTP_403_FORBIDDEN)
    else if IpRefused(u, clientIp) then Refused(HTTP_403_FORBIDDEN)
    else if !checkPassword(u, password) then Refused(HTTP_401_UNAUTHORIZED)
    else Issued(u.id, u.username, u.isSuperuser)
  }

  /** With no allowed IP set, the client address plays no part in admin login. */
  lemma AdminLoginIgnoresIpWhenUnset(u: User, ip1: Option<string>, ip2: Option<string>,
                                     password: Option<string>, checkPassword: PasswordCheck)
    requires !Truthy(u.allowedIp)
    ensures AdminLoginDecision(u, ip1, password, checkPassword) ==
            AdminLoginDecision(u, ip2, password, checkPassword)
  {
  }

  /** `AdminLoginView.post`: an unknown username gets 401. */
  method AdminLogin(users: map<UserId, User>, clientIp: Option<string>, username: Option<string>,
                    password: Option<string>, checkPassword: PasswordCheck) returns (r: LoginResult)
    requires UsernamesUnique(users)
    ensures username.None? || !UsernameTaken(users, username.value) ==> r == Refused(HTTP_401_UNAUTHORIZED)
    ensures forall id :: id in users && Some(users[id].username) == username ==>
              r == AdminLoginDecision(users[id], clientIp, password, checkPassword)
    ensures r.Issued? <==>
              exists id :: id in users && Some(users[id].username) == username && users[id].isSuperuser &&
                           !IpRefused(users[id], clientIp) && checkPassword(users[id], password)
  {
    var found := GetByUsername(users, username);
    if found.None? {
      return Refused(HTTP_401_UNAUTHORIZED);
    }
    r := AdminLoginDecision(users[found.value], clientIp, password, checkPassword);
  }

  // -----------------------------------------------------------------------
  // AdminRegistrationView
  // -----------------------------------------------------------------------

  /**
   * `AdminRegistrationView.post` as written. Past the IP gate it passes
   * `allowed_ip` to `create_user`, but `User` has no such field, so the
   * model constructor raises TypeError (or, for a missing username,
   * `create_user` raises ValueError first); either is caught as 400. No
   * admin account is ever created.
   */
  function AdminRegistrationAsWritten(users: map<UserId, User>, clientIp: Option<string>,
                                      username: Option<string>, requestedIp: Option<string>): (status: int)
    ensures clientIp != Some(AdminRegistrationIp) <==> status == HTTP_403_FORBIDDEN
    ensures clientIp == Some(AdminRegistrationIp) ==> status == HTTP_400_BAD_REQUEST
    ensures status != HTTP_201_CREATED
  {
    if clientIp != Some(AdminRegistrationIp) then HTTP_403_FORBIDDEN
    else if !Truthy(username) then HTTP_400_BAD_REQUEST   // ValueError: username must be set
    else HTTP_400_BAD_REQUEST                             // TypeError: unexpected keyword 'allowed_ip'
  }

  /**
   * When the intended admin registration creates an account: the client is
   * the allowed address and `create_user` does not raise. No email is
   * given, so the account's email is "" and must itself be unused.
   */
  predicate AdminCreationAllowed(users: map<UserId, User>, clientIp: Option<string>, username: Option<string>) {
    clientIp == Some(AdminRegistrationIp) && Truthy(username) &&
    !UsernameTaken(users, username.value) && !EmailTaken(users, "")
  }

  /** The first admin registered from the allowed address is refused as written. */
  lemma AdminRegistrationAsWrittenRefusesFirstAdmin()
    ensures AdminCreationAllowed(map[], Some(AdminRegistrationIp), Some("root"))
    ensures AdminRegistrationAsWritten(map[], Some(AdminRegistrationIp), Some("root"), None) == HTTP_400_BAD_REQUEST
  {
  }

  /**
   * `AdminRegistrationView.post` as intended, with `allowed_ip` an optional
   * field of the user: a client other than the allowed address gets 403;
   * otherwise a superuser is created whose allowed IP is the requested one,
   * defaulting to the client's (201), and any creation error gives 400.
   */
  method AdminRegistration(db: Db, clientIp: Option<string>, username: Option<string>,
                           requestedIp: Option<string>) returns (status: int)
    requires db.Valid()
    modifies db
    ensures db.Valid() && db.mailboxes == old(db.mailboxes)
    ensures clientIp != Some(AdminRegistrationIp) ==> status == HTTP_403_FORBIDDEN
    ensures clientIp == Some(AdminRegistrationIp) ==>
              status == HTTP_201_CREATED || status == HTTP_400_BAD_REQUEST
    ensures status == HTTP_201_CREATED <==> AdminCreationAllowed(old(db.users), clientIp, username)
    ensures status != HTTP_201_CREATED ==> db.users == old(db.users)
    ensures status == HTTP_201_CREATED ==>
              db.users == old(db.users)[old(db.nextUserId) :=
                NewUser(old(db.nextUserId), username.value, "", EmptyProfile, true,
                        Some(requestedIp.GetOr(AdminRegistrationIp)))]
  {
    if clientIp != Some(AdminRegistrationIp) {
      return HTTP_403_FORBIDDEN;
    }
    var ip := requestedIp.GetOr(clientIp.value);
    var name := if username.Some? then username.value else "";
    var r := db.CreateUser(name, "", EmptyProfile, true, Some(ip));
    status := if r.Ok? then HTTP_201_CREATED else HTTP_400_BAD_REQUEST;
  }

  // -----------------------------------------------------------------------
  // AdminUserApprovalView
  // -----------------------------------------------------------------------

  /** `AdminUserApprovalView.get`: superusers see the users not yet approved. */
  function PendingUsers(requester: User, users: map<UserId, User>): (r: Result<set<UserId>, int>)
    ensures r.Err? <==> !requester.isSuperuser
    ensures r.Err? ==> r.error == HTTP_403_FORBIDDEN
    ensures r.Ok? ==> forall id :: id in r.value <==> id in users && !users[id].isApproved
  {
    if !requester.isSuperuser then Err(HTTP_403_FORBIDDEN)
    else Ok(set id | id in users && !users[id].isApproved)
  }

  /** The user table after user `pk` is marked approved. */
  function Approved(users: map<UserId, User>, pk: UserId): (r: map<UserId, User>)
    requires pk in users
    ensures r.Keys == users.Keys
    ensures forall id :: id in r ==> r[id].isApproved == (id == pk || users[id].isApproved)
    ensures forall id :: id in r ==> r[id].(isApproved := users[id].isApproved) == users[id]
  {
    users[pk := users[pk].(isApproved := true)]
  }

  /** Approving twice is approving once. */
  lemma ApprovalIsIdempotent(users: map<UserId, User>, pk: UserId)
    requires pk in users
    ensures Approved(Approved(users, pk), pk) == Approved(users, pk)
  {
  }

  /** Approval takes exactly the approved user off the pending list. */
  lemma ApprovalLeavesPending(requester: User, users: map<UserId, User>, pk: UserId)
    requires requester.isSuperuser && pk in users
    ensures PendingUsers(requester, Approved(users, pk)) ==
            Ok(PendingUsers(requester, users).value - {pk})
  {
    var before := PendingUsers(requester, users).value;
    var after := PendingUsers(requester, Approved(users, pk)).value;
    assert after == before - {pk};
  }

  /** Approval changes no username or email, so the store stays valid. */
  lemma ApprovalKeepsUnique(users: map<UserId, User>, pk: UserId)
    requires pk in users && UsernamesUnique(users) && EmailsUnique(users)
    ensures UsernamesUnique(Approved(users, pk)) && EmailsUnique(Approved(users, pk))
  {
    var next := Approved(users, pk);
    assert forall id :: id in next ==> next[id].username == users[id].username && next[id].email == users[id].email;
  }

  /**
   * `AdminUserApprovalView.patch`: a non-superuser gets 403, an unknown
   * user 404; otherwise that user is approved (200) and the approval mail
   * is sent, which the model leaves out.
   */
  method ApproveUser(db: Db, requester: User, pk: UserId) returns (status: int)
    requires db.Valid()
    modifies db
    ensures db.Valid()
    ensures db.mailboxes == old(db.mailboxes) && db.nextUserId == old(db.nextUserId)
    ensures !requester.isSuperuser ==> status == HTTP_403_FORBIDDEN
    ensures requester.isSuperuser && pk !in old(db.users) ==> status == HTTP_404_NOT_FOUND
    ensures status == HTTP_200_OK <==> requester.isSuperuser && pk in old(db.users)
    ensures status == HTTP_200_OK ==> db.users == Approved(old(db.users), pk)
    ensures status != HTTP_200_OK ==> db.users == old(db.users)
  {
    if !requester.isSuperuser {
      return HTTP_403_FORBIDDEN;
    }
    if pk !in db.users {
      return HTTP_404_NOT_FOUND;
    }
    ApprovalKeepsUnique(db.users, pk);
    db.users := Approved(db.users, pk);
    status := HTTP_200_OK;
  }

  /** A freshly registered user is refused at login until approved... */
  lemma NewUserCannotLogIn(id: UserId, email: string, profile: Profile,
                           password: Option<string>, checkPassword: PasswordCheck)
    ensures UserLoginDecision(NewUser(id, UsernameOf(email), email, profile, false, None), password, checkPassword)
            == Refused(HTTP_403_FORBIDDEN)
  {
  }

  /** ...and once approved, logs in exactly when the password matches. */
  lemma ApprovedUserLogsIn(users: map<UserId, User>, pk: UserId,
                           password: Option<string>, checkPassword: PasswordCheck)
    requires pk in users
    ensures var u := Approved(users, pk)[pk];
            UserLoginDecision(u, password, checkPassword).Issued? <==> checkPassword(u, password)
  {
  }

  // -----------------------------------------------------------------------
  // UpdateMailboxPriceView
  // -----------------------------------------------------------------------

  /** The requester owns the item or is a superuser. */
  predicate MayEditItem(requester: User, item: MailboxItem) {
    requester.id == item.owner || requester.isSuperuser
  }

  /**
   * `UpdateMailboxPriceView.patch`: an unknown item gets 404, a requester
   * who is neither its owner nor a superuser 403, a missing
   * `product_value` 400; otherwise only that item's value changes (200).
   */
  method UpdateMailboxPrice(db: Db, requester: User, pk: ItemId, newValue: Option<real>)
    returns (status: int)
    requires db.Valid()
    modifies db
    ensures db.Valid()
    ensures db.users == old(db.users) && db.nextUserId == old(db.nextUserId)
    ensures pk !in old(db.mailboxes) ==> status == HTTP_404_NOT_FOUND
    ensures pk in old(db.mailboxes) && !MayEditItem(requester, old(db.mailboxes[pk])) ==>
              status == HTTP_403_FORBIDDEN
    ensures pk in old(db.mailboxes) && MayEditItem(requester, old(db.mailboxes[pk])) && newValue.None? ==>
              status == HTTP_400_BAD_REQUEST
    ensures status == HTTP_200_OK <==>
              pk in old(db.mailboxes) && MayEditItem(requester, old(db.mailboxes[pk])) && newValue.Some?
    ensures status != HTTP_200_OK ==> db.mailboxes == old(db.mailboxes)
    ensures status == HTTP_200_OK ==>
              db.mailboxes == old(db.mailboxes)[pk := old(db.mailboxes[pk]).(productValue := newValue.value)]
  {
    if pk !in db.mailboxes {
      return HTTP_404_NOT_FOUND;
    }
    var item := db.mailboxes[pk];
    if requester.id != item.owner && !requester.isSuperuser {
      return HTTP_403_FORBIDDEN;
    }
    if newValue.None? {
      return HTTP_400_BAD_REQUEST;
    }
    db.mailboxes := db.mailboxes[pk := item.(productValue := newValue.value)];
    status := HTTP_200_OK;
  }

  // -----------------------------------------------------------------------
  // Userlist and UserDetailsWithMailboxView
  // -----------------------------------------------------------------------

  /** `Userlist.get`: id and username of every user who is not a superuser. */
  function NonAdminUsers(users: map<UserId, User>): (r: map<UserId, string>)
    ensures forall id :: id in r <==> id in users && !users[id].isSuperuser
    ensures forall id :: id in r ==> r[id] == users[id].username
  {
    map id | id in users && !users[id].isSuperuser :: users[id].username
  }

  /** A user's details with the mailbox items they own. */
  datatype UserDetails = UserDetails(user: User, mailboxItems: map<ItemId, MailboxItem>)

  /**
   * `UserDetailsWithMailboxView.get`: 404 for an unknown user and for a
   * superuser; otherwise the user and exactly the items they own.
   */
  function UserDetailsWithMailbox(users: map<UserId, User>, mailboxes: map<ItemId, MailboxItem>,
                                  pk: UserId): (r: Result<UserDetails, int>)
    ensures r.Err? <==> pk !in users || users[pk].isSuperuser
    ensures r.Err? ==> r.error == HTTP_404_NOT_FOUND
    ensures r.Ok? ==> r.value.user == users[pk]
    ensures r.Ok? ==> forall i :: i in r.value.mailboxItems <==> i in mailboxes && mailboxes[i].owner == pk
    ensures r.Ok? ==> forall i :: i in r.value.mailboxItems ==> r.value.mailboxItems[i] == mailboxes[i]
  {
    if pk !in users || users[pk].isSuperuser then Err(HTTP_404_NOT_FOUND)
    else Ok(UserDetails(users[pk], map i | i in mailboxes && mailboxes[i].owner == pk :: mailboxes[i]))
  }

  /** The user list names exactly the users whose details can be fetched. */
  lemma ListedExactlyWhenDetailed(users: map<UserId, User>, mailboxes: map<ItemId, MailboxItem>, pk: UserId)
    ensures pk in NonAdminUsers(users) <==> UserDetailsWithMailbox(users, mailboxes, pk).Ok?
  {
  }
}
