/**
 * The records of authentication/models.py (User, Mailbox, AdminUser) and the
 * relational store that holds them. The store is a class whose tables are
 * maps from primary key to record; the views change it by reassigning them.
 */
module Records {
  import opened Common

  /** Primary keys, assigned by the store's auto-increment counter. */
  type UserId = nat
  type ItemId = nat

  /** Contact fields a user record carries; no decision reads them. */
  datatype Profile = Profile(
    phoneNumber: string,
    actualAddress: string,
    billingAddress: string,
    dateOfBirth: Option<string>)

  /** The profile `create_user` stores when the caller gives none. */
  const EmptyProfile := Profile("", "", "", None)

  /**
   * A `User` row. `allowedIp` is not a column of the shown model: it is
   * absent (None) for every user the code as written can create, and only
   * set by the corrected admin registration (see AuthViews).
   */
  datatype User = User(
    id: UserId,
    username: string,
    email: string,
    profile: Profile,
    isSuperuser: bool,
    isApproved: bool,
    uniqueUserId: Option<string>,
    allowedIp: Option<string>)

  /** A `Mailbox` row: one parcel held for its owner. */
  datatype MailboxItem = MailboxItem(
    owner: UserId,
    itemName: string,
    productValue: real,
    trackingNumber: string,
    image: string,
    weight: Option<string>,
    dimension: Option<string>,
    shippingPrice: Option<real>)

  /** Python truthiness of an optional string: neither None nor empty. */
  predicate Truthy(s: Option<string>) {
    s.Some? && s.value != ""
  }

  predicate UsernameTaken(users: map<UserId, User>, name: string) {
    exists id :: id in users && users[id].username == name
  }

  predicate EmailTaken(users: map<UserId, User>, email: string) {
    exists id :: id in users && users[id].email == email
  }

  /** The `unique=True` constraints of the username and email columns. */
  ghost predicate UsernamesUnique(users: map<UserId, User>) {
    forall a, b :: a in users && b in users && users[a].username == users[b].username ==> a == b
  }

  ghost predicate EmailsUnique(users: map<UserId, User>) {
    forall a, b :: a in users && b in users && users[a].email == users[b].email ==> a == b
  }

  /**
   * The row `create_user` builds: not approved, not yet given a unique
   * user id (both model defaults), and the superuser flag as requested.
   */
  function NewUser(id: UserId, username: string, email: string, profile: Profile,
                   isSuperuser: bool, allowedIp: Option<string>): (u: User)
    ensures u.id == id && u.username == username && u.email == email
    ensures !u.isApproved && u.uniqueUserId.None?
    ensures u.isSuperuser == isSuperuser && u.allowedIp == allowedIp
  {
    User(id, username, email, profile, isSuperuser, false, None, allowedIp)
  }

  // -----------------------------------------------------------------------
  // Email normalisation done by `create_user`
  // -----------------------------------------------------------------------

  /** ASCII lower-casing of one character. */
  function LowerAscii(c: char): (d: char)
    ensures 'A' <= c <= 'Z' ==> d as int == c as int + 32
    ensures !('A' <= c <= 'Z') ==> d == c
    ensures d == '@' <==> c == '@'
  {
    if 'A' <= c <= 'Z' then (c as int + 32) as char else c
  }

  /** The position of the last '@' among the first `n` characters of `s`. */
  function LastAtBelow(s: string, n: nat): (r: Option<nat>)
    requires n <= |s|
    ensures r.None? ==> forall i :: 0 <= i < n ==> s[i] != '@'
    ensures r.Some? ==> r.value < n && s[r.value] == '@'
    ensures r.Some? ==> forall i :: r.value < i < n ==> s[i] != '@'
  {
    if n == 0 then None
    else if s[n - 1] == '@' then Some(n - 1)
    else LastAtBelow(s, n - 1)
  }

  /** The position of the last '@' of a string, if it has one. */
  function LastAt(s: string): (r: Option<nat>)
    ensures r.None? <==> '@' !in s
    ensures r.Some? ==> r.value < |s| && s[r.value] == '@'
    ensures r.Some? ==> forall i :: r.value < i < |s| ==> s[i] != '@'
  {
    LastAtBelow(s, |s|)
  }

  /**
   * `normalize_email`: an address with an '@' keeps everything up to its
   * last '@' and has the domain after it lower-cased; an address without
   * one is stored as given.
   */
  function NormalizeEmail(email: string): (r: string)
    ensures |r| == |email|
    ensures '@' !in email ==> r == email
    ensures LastAt(email).Some? ==>
              forall i :: 0 <= i <= LastAt(email).value ==> r[i] == email[i]
    ensures LastAt(email).Some? ==>
              forall i :: LastAt(email).value < i < |email| ==> r[i] == LowerAscii(email[i])
  {
    match LastAt(email)
    case None => email
    case Some(at) =>
      seq(|email|, i requires 0 <= i < |email| => if i <= at then email[i] else LowerAscii(email[i]))
  }

  /** A '@' with none after it is the last '@'. */
  lemma LastAtIs(s: string, p: nat)
    requires p < |s| && s[p] == '@'
    requires forall i :: p < i < |s| ==> s[i] != '@'
    ensures LastAt(s) == Some(p)
  {
    var r := LastAt(s);
    assert r.Some? && r.value >= p;
  }

  /** Lower-casing keeps every '@' where it was and adds none. */
  lemma NormalizeKeepsLastAt(email: string)
    ensures LastAt(NormalizeEmail(email)) == LastAt(email)
  {
    match LastAt(email)
    case None =>
    case Some(at) =>
      LastAtIs(NormalizeEmail(email), at);
  }

  /** Normalising an address twice is normalising it once. */
  lemma NormalizeEmailIsIdempotent(email: string)
    ensures NormalizeEmail(NormalizeEmail(email)) == NormalizeEmail(email)
  {
    var n := NormalizeEmail(email);
    NormalizeKeepsLastAt(email);
    match LastAt(email)
    case None =>
    case Some(at) =>
      var nn := NormalizeEmail(n);
      assert forall i :: 0 <= i < |email| ==> nn[i] == n[i];
  }

  /** The last '@' of `local@domain` is the one before a domain without '@'. */
  lemma LastAtBeforeDomain(local: string, domain: string)
    requires '@' !in domain
    ensures LastAt(local + "@" + domain) == Some(|local|)
  {
    var e := local + "@" + domain;
    assert e[|local|] == '@' && e[|local| + 1..] == domain;
    forall i | |local| < i < |e| ensures e[i] != '@' {
      assert e[i] == e[|local| + 1..][i - |local| - 1];
    }
    LastAtIs(e, |local|);
  }

  /**
   * Two addresses that agree up to their last '@' and whose domains differ
   * only in case are stored alike.
   */
  lemma SameUpToDomainCase(e1: string, e2: string, at: nat)
    requires LastAt(e1) == Some(at) && LastAt(e2) == Some(at) && |e1| == |e2|
    requires forall i :: 0 <= i <= at ==> e1[i] == e2[i]
    requires forall i :: at < i < |e1| ==> LowerAscii(e1[i]) == LowerAscii(e2[i])
    ensures NormalizeEmail(e1) == NormalizeEmail(e2)
  {
    var n1, n2 := NormalizeEmail(e1), NormalizeEmail(e2);
    assert forall i :: 0 <= i < |e1| ==> n1[i] == n2[i];
  }

  /** `local@Example.COM` and `local@example.com` are the same stored address. */
  lemma DomainCaseIsFolded(local: string, d1: string, d2: string)
    requires '@' !in d1 && |d1| == |d2|
    requires forall i :: 0 <= i < |d1| ==> LowerAscii(d1[i]) == LowerAscii(d2[i])
    ensures NormalizeEmail(local + "@" + d1) == NormalizeEmail(local + "@" + d2)
  {
    assert '@' !in d2 by {
      forall i | 0 <= i < |d2| ensures d2[i] != '@' {
        assert d1[i] != '@';
      }
    }
    LastAtBeforeDomain(local, d1);
    LastAtBeforeDomain(local, d2);
    var e1, e2 := local + "@" + d1, local + "@" + d2;
    assert e1[|local| + 1..] == d1 && e2[|local| + 1..] == d2;
    assert forall i :: 0 <= i <= |local| ==> e1[i] == e2[i];
    forall i | |local| < i < |e1| ensures LowerAscii(e1[i]) == LowerAscii(e2[i]) {
      assert e1[i] == e1[|local| + 1..][i - |local| - 1];
      assert e2[i] == e2[|local| + 1..][i - |local| - 1];
    }
    SameUpToDomainCase(e1, e2, |local|);
  }

  /** Errors `create_user` raises: ValueError, then IntegrityError. */
  datatype CreateError = MissingUsername | DuplicateUsername | DuplicateEmail

  /** Adding a user whose username and email are new keeps both unique. */
  lemma InsertKeepsUnique(users: map<UserId, User>, u: User)
    requires UsernamesUnique(users) && EmailsUnique(users)
    requires u.id !in users
    requires !UsernameTaken(users, u.username) && !EmailTaken(users, u.email)
    ensures UsernamesUnique(users[u.id := u]) && EmailsUnique(users[u.id := u])
  {
  }

  /** The user and mailbox tables. */
  class Db {
    var users: map<UserId, User>
    var mailboxes: map<ItemId, MailboxItem>
    var nextUserId: UserId

    /**
     * Each row is stored under its own key, keys come from the counter,
     * usernames and emails are unique, and every mailbox item's owner is
     * a stored user (the foreign key).
     */
    ghost predicate Valid()
      reads this
    {
      (forall id :: id in users ==> users[id].id == id && id < nextUserId) &&
      UsernamesUnique(users) && EmailsUnique(users) &&
      (forall i :: i in mailboxes ==> mailboxes[i].owner in users)
    }

    constructor ()
      ensures Valid()
      ensures users == map[] && mailboxes == map[] && nextUserId == 0
    {
      users, mailboxes, nextUserId := map[], map[], 0;
    }

    /**
     * `User.objects.create_user`: an empty username raises ValueError; the
     * email is normalised, and a taken username or normalised email raises
     * IntegrityError; otherwise a new row with the normalised email is
     * stored under the next key.
     */
    method CreateUser(username: string, email: string, profile: Profile,
                      isSuperuser: bool, allowedIp: Option<string>)
      returns (r: Result<UserId, CreateError>)
      requires Valid()
      modifies this
      ensures Valid() && mailboxes == old(mailboxes)
      ensures r.Err? <==>
                username == "" || UsernameTaken(old(users), username) ||
                EmailTaken(old(users), NormalizeEmail(email))
      ensures r.Err? ==> users == old(users) && nextUserId == old(nextUserId)
      ensures r.Ok? ==> r.value == old(nextUserId) && r.value !in old(users)
      ensures r.Ok? ==>
                users == old(users)[r.value :=
                  NewUser(r.value, username, NormalizeEmail(email), profile, isSuperuser, allowedIp)]
    {
      if username == "" {
        return Err(MissingUsername);
      }
      if UsernameTaken(users, username) {
        return Err(DuplicateUsername);
      }
      var normalized := NormalizeEmail(email);
      if EmailTaken(users, normalized) {
        return Err(DuplicateEmail);
      }
      var u := NewUser(nextUserId, username, normalized, profile, isSuperuser, allowedIp);
      InsertKeepsUnique(users, u);
      users := users[nextUserId := u];
      r := Ok(nextUserId);
      nextUserId := nextUserId + 1;
    }
  }

  // -----------------------------------------------------------------------
  // AdminUser
  // -----------------------------------------------------------------------

  /** An `AdminUser` row (the fields its `save` guard and table read). */
  datatype AdminUser = AdminUser(
    id: UserId,
    username: string,
    isAdminUser: bool,
    allowedIp: Option<string>)

  /** Why `AdminUser.save` fails: its own ValueError, or the unique username. */
  datatype SaveError = MissingAllowedIp | UsernameInUse

  /**
   * What `AdminUser.save` decides for a row: the guard refuses an admin
   * with no allowed IP before the database is touched; then the username
   * must not belong to another row.
   */
  function SaveCheck(rows: map<UserId, AdminUser>, a: AdminUser): (r: Option<SaveError>)
    ensures r == Some(MissingAllowedIp) <==> a.isAdminUser && !Truthy(a.allowedIp)
    ensures r.None? ==> a.isAdminUser ==> Truthy(a.allowedIp)
    ensures r.None? <==>
              !(a.isAdminUser && !Truthy(a.allowedIp)) &&
              forall id :: id in rows && id != a.id ==> rows[id].username != a.username
  {
    if a.isAdminUser && !Truthy(a.allowedIp) then Some(MissingAllowedIp)
    else if exists id :: id in rows && id != a.id && rows[id].username == a.username then Some(UsernameInUse)
    else None
  }

  /** Every stored admin has an allowed IP, and usernames are unique. */
  ghost predicate AdminRowsValid(rows: map<UserId, AdminUser>) {
    (forall id :: id in rows ==> rows[id].id == id && (rows[id].isAdminUser ==> Truthy(rows[id].allowedIp))) &&
    (forall a, b :: a in rows && b in rows && rows[a].username == rows[b].username ==> a == b)
  }

  /** A row the guard lets through keeps the admin table valid. */
  lemma SaveKeepsAdminRowsValid(rows: map<UserId, AdminUser>, a: AdminUser)
    requires AdminRowsValid(rows)
    requires SaveCheck(rows, a).None?
    ensures AdminRowsValid(rows[a.id := a])
  {
  }

  /** The AdminUser table. */
  class AdminUsers {
    var rows: map<UserId, AdminUser>

    ghost predicate Valid()
      reads this
    {
      AdminRowsValid(rows)
    }

    constructor ()
      ensures Valid() && rows == map[]
    {
      rows := map[];
    }

    /**
     * `AdminUser.save`: raises (and persists nothing) for an admin without
     * an allowed IP; otherwise inserts or overwrites the row under its key.
     */
    method Save(a: AdminUser) returns (r: Result<(), SaveError>)
      requires Valid()
      modifies this
      ensures Valid()
      ensures r.Err? <==> SaveCheck(old(rows), a).Some?
      ensures r == Err(MissingAllowedIp) <==> a.isAdminUser && !Truthy(a.allowedIp)
      ensures rows == if r.Ok? then old(rows)[a.id := a] else old(rows)
    {
      var check := SaveCheck(rows, a);
      if check.Some? {
        return Err(check.value);
      }
      SaveKeepsAdminRowsValid(rows, a);
      rows := rows[a.id := a];
      r := Ok(());
    }
  }
}
