/** The two tables the handlers read and write, `users` and
    `password_resets`, and the queries the handlers run against them, as pure
    functions over the rows. Each query is the meaning of one PostgREST chain
    in the handlers (select-by-email, update-by-email, newest-by-email-and-
    token, delete-by-email-and-token). */
module Tables {
  import opened Wrappers
  import opened Credentials

  /** A row of `users`. The id is assigned by the store on insert. */
  datatype User = User(id: nat, email: string, password: Hash)

  /** A row of `password_resets`; times are milliseconds since the epoch. */
  datatype ResetRow = ResetRow(email: string, token: string, createdAt: nat, expiresAt: nat)

  /** How long a reset token stays usable: 15 minutes, in milliseconds. */
  const ResetWindow: nat := 15 * 60 * 1000

  predicate Registered(users: seq<User>, email: string) {
    exists u :: u in users && u.email == email
  }

  /** At most one user per email. */
  predicate UniqueEmails(users: seq<User>) {
    forall i, j :: 0 <= i < j < |users| ==> users[i].email != users[j].email
  }

  /** `select * from users where email = ?` followed by `.single()`: the
      user with that email, or `None` (the PGRST116 "no row" answer). */
  function FindUser(users: seq<User>, email: string): (r: Option<User>)
    ensures r.Some? ==> r.value in users && r.value.email == email
    ensures r.None? <==> !Registered(users, email)
  {
    if users == [] then None
    else if users[0].email == email then Some(users[0])
    else FindUser(users[1..], email)
  }

  /** With unique emails, the lookup finds THE user with that email. */
  lemma {:induction false} FindUserUnique(users: seq<User>, u: User)
    requires UniqueEmails(users) && u in users
    ensures FindUser(users, u.email) == Some(u)
  {
    if users[0] != u {
      assert users[0].email != u.email by {
        var k :| 0 <= k < |users| && users[k] == u;
        assert k != 0;
      }
      assert u in users[1..];
      FindUserUnique(users[1..], u);
    }
  }

  /** Appending a user under a fresh email makes that email resolve to it and
      leaves every other lookup as it was. */
  lemma {:induction false} FindUserAppend(users: seq<User>, u: User, email: string)
    requires !Registered(users, u.email)
    ensures FindUser(users + [u], email) == if email == u.email then Some(u) else FindUser(users, email)
  {
    if users == [] {
    } else {
      assert (users + [u])[1..] == users[1..] + [u];
      assert !Registered(users[1..], u.email);
      FindUserAppend(users[1..], u, email);
    }
  }

  /** Appending a user under a fresh email keeps emails unique. */
  lemma UniqueEmailsAppend(users: seq<User>, u: User)
    requires UniqueEmails(users) && !Registered(users, u.email)
    ensures UniqueEmails(users + [u])
  {
    forall i, j | 0 <= i < j < |users| + 1
      ensures (users + [u])[i].email != (users + [u])[j].email
    {
      if j == |users| {
        assert users[i] in users;
      }
    }
  }

  /** `update users set password = h where email = ?`: every user with that
      email gets the new hash; ids, emails and everybody else are untouched. */
  function SetPassword(users: seq<User>, email: string, h: Hash): (r: seq<User>)
    ensures |r| == |users|
    ensures forall i :: 0 <= i < |users| ==>
      r[i].id == users[i].id && r[i].email == users[i].email &&
      r[i].password == (if users[i].email == email then h else users[i].password)
  {
    if users == [] then []
    else
      var first := if users[0].email == email then users[0].(password := h) else users[0];
      [first] + SetPassword(users[1..], email, h)
  }

  /** After the update, the email's lookup carries the new hash and every
      other email's lookup is unchanged. */
  lemma {:induction false} FindUserAfterSetPassword(users: seq<User>, email: string, h: Hash, other: string)
    ensures FindUser(SetPassword(users, email, h), other) ==
      match FindUser(users, other)
      case None => None
      case Some(u) => Some(if other == email then u.(password := h) else u)
  {
    if users != [] {
      var r := SetPassword(users, email, h);
      assert r[0].email == users[0].email;
      assert r[1..] == SetPassword(users[1..], email, h);
      FindUserAfterSetPassword(users[1..], email, h, other);
    }
  }

  /** The update as the `/reset` handler sees it: the email now resolves to
      a user carrying the new hash, every other email resolves as before. */
  lemma SetPasswordLookups(users: seq<User>, email: string, h: Hash)
    requires Registered(users, email)
    ensures FindUser(SetPassword(users, email, h), email).Some?
    ensures FindUser(SetPassword(users, email, h), email).value.password == h
    ensures forall e :: e != email ==> FindUser(SetPassword(users, email, h), e) == FindUser(users, e)
  {
    FindUserAfterSetPassword(users, email, h, email);
    forall e | e != email ensures FindUser(SetPassword(users, email, h), e) == FindUser(users, e) {
      FindUserAfterSetPassword(users, email, h, e);
    }
  }

  /** The update changes no email, so the set of registered emails and their
      uniqueness survive it. */
  lemma SetPasswordKeepsEmails(users: seq<User>, email: string, h: Hash)
    ensures forall e :: Registered(SetPassword(users, email, h), e) <==> Registered(users, e)
    ensures UniqueEmails(users) ==> UniqueEmails(SetPassword(users, email, h))
  {
    var r := SetPassword(users, email, h);
    forall e ensures Registered(r, e) <==> Registered(users, e) {
      if Registered(r, e) {
        var w :| w in r && w.email == e;
        var k :| 0 <= k < |r| && r[k] == w;
        assert users[k] in users;
      }
      if Registered(users, e) {
        var w :| w in users && w.email == e;
        var k :| 0 <= k < |users| && users[k] == w;
        assert r[k] in r;
      }
    }
  }

  /** A reset row for exactly this (email, token) pair. */
  predicate IsFor(row: ResetRow, email: string, token: string) {
    row.email == email && row.token == token
  }

  /** `select * from password_resets where email = ? and token = ?
      order by created_at desc limit 1`: a matching row with the greatest
      creation time, or `None` when no row matches. Among rows created at
      the same instant the store's order is unspecified; this picks the
      earliest in the table. */
  function NewestMatch(rows: seq<ResetRow>, email: string, token: string): (r: Option<ResetRow>)
    ensures r.None? <==> forall row :: row in rows ==> !IsFor(row, email, token)
    ensures r.Some? ==> r.value in rows && IsFor(r.value, email, token)
    ensures r.Some? ==> forall row :: row in rows && IsFor(row, email, token) ==> row.createdAt <= r.value.createdAt
  {
    if rows == [] then None
    else
      var rest := NewestMatch(rows[1..], email, token);
      if !IsFor(rows[0], email, token) then rest
      else if rest.Some? && rest.value.createdAt > rows[0].createdAt then rest
      else Some(rows[0])
  }

  /** Every row expires exactly one reset window after it was created. */
  predicate WindowKept(rows: seq<ResetRow>) {
    forall row :: row in rows ==> row.expiresAt == row.createdAt + ResetWindow
  }

  /** Validating against the newest matching row accepts exactly when SOME
      matching row is still within its window: duplicate outstanding rows for
      one (email, token) never make a live token fail. */
  lemma NewestDecidesLiveness(rows: seq<ResetRow>, email: string, token: string, now: nat)
    requires WindowKept(rows)
    ensures (NewestMatch(rows, email, token).Some? && now <= NewestMatch(rows, email, token).value.expiresAt)
        <==> exists row :: row in rows && IsFor(row, email, token) && now <= row.expiresAt
  {
  }

  /** `delete from password_resets where email = ? and token = ?`: every
      matching row goes, every other row stays with its multiplicity. */
  function DeleteMatching(rows: seq<ResetRow>, email: string, token: string): (r: seq<ResetRow>)
    ensures forall row :: multiset(r)[row] == if IsFor(row, email, token) then 0 else multiset(rows)[row]
  {
    if rows == [] then []
    else
      var rest := DeleteMatching(rows[1..], email, token);
      assert rows == [rows[0]] + rows[1..];
      if IsFor(rows[0], email, token) then rest else [rows[0]] + rest
  }

  /** After the delete no row matches the pair any more, and every other row
      is still there. */
  lemma DeleteMatchingConsumes(rows: seq<ResetRow>, email: string, token: string)
    ensures NewestMatch(DeleteMatching(rows, email, token), email, token) == None
    ensures forall row :: row in DeleteMatching(rows, email, token) <==> row in rows && !IsFor(row, email, token)
  {
    var r := DeleteMatching(rows, email, token);
    forall row ensures row in r <==> row in rows && !IsFor(row, email, token) {
      assert row in r <==> multiset(r)[row] > 0;
      assert row in rows <==> multiset(rows)[row] > 0;
    }
  }
}
