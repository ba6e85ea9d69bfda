/** The four authentication handlers (`/register`, `/login`, `/forgot`,
    `/reset`) as methods of a service object that owns the `users` and
    `password_resets` tables. Every handler is one linear pass of guards with
    early replies; each reply carries the HTTP status the handler sends.

    The environment enters as parameters: the current time in milliseconds,
    the bcrypt salt, the 32 random token bytes, whether the mail transport
    delivered, and which store call (if any) answers with an error other
    than "no row". */
module Auth {
  import opened Wrappers
  import opened Hex
  import opened Credentials
  import opened Tables

  /** A store call that answers with an error; "no row" (PGRST116) is not
      one of these, it comes from the tables themselves. */
  datatype StoreError = LookupFailed | WriteFailed | DeleteFailed

  /** One reply per distinct response the handlers send. */
  datatype Reply =
    | AccountCreated
    | AccountExists
    | ServerError
    | MissingFields
    | EmailNotRegistered
    | WrongPassword
    | LoggedIn(token: SessionToken, userId: nat)
    | UserNotFound
    | MailSent
    | MailFailed
    | InvalidOrExpired
    | TokenExpired
    | PasswordChanged
  {
    /** The HTTP status code sent with the reply. */
    function Status(): (code: nat)
      ensures code == 201 <==> this == AccountCreated
      ensures code == 200 <==> this.LoggedIn? || this == MailSent || this == PasswordChanged
      ensures code == 500 <==> this == ServerError || this == MailFailed
      ensures code == 200 || code == 201 || code == 400 || code == 500
    {
      match this
      case AccountCreated => 201
      case LoggedIn(_, _) => 200
      case MailSent => 200
      case PasswordChanged => 200
      case ServerError => 500
      case MailFailed => 500
      case _ => 400
    }
  }

  /** JavaScript truthiness of a request field: an absent field and the
      empty string are both represented by "". */
  predicate Given(field: string)
    ensures Given(field) <==> |field| > 0
  {
    field != ""
  }

  /** Some row for (email, token) is still inside its window at `now`. */
  predicate LiveRow(rows: seq<ResetRow>, email: string, token: string, now: nat) {
    exists row :: row in rows && IsFor(row, email, token) && now <= row.expiresAt
  }

  /** What the handlers keep true of the tables: one user per email,
      distinct ids below `nextId`, and every reset row as `/forgot` issues it
      (for a registered email, a 64-digit hex token, a 15-minute window). */
  predicate TablesValid(users: seq<User>, resets: seq<ResetRow>, nextId: nat) {
    && UniqueEmails(users)
    && (forall i :: 0 <= i < |users| ==> users[i].id < nextId)
    && (forall i, j :: 0 <= i < j < |users| ==> users[i].id != users[j].id)
    && WindowKept(resets)
    && (forall row :: row in resets ==>
          Registered(users, row.email) && |row.token| == 64 && IsLowerHex(row.token))
  }

  /** Registering a fresh email under the next id keeps the tables valid. */
  lemma AddUserKeepsValid(users: seq<User>, resets: seq<ResetRow>, nextId: nat, u: User)
    requires TablesValid(users, resets, nextId)
    requires !Registered(users, u.email) && u.id == nextId
    ensures TablesValid(users + [u], resets, nextId + 1)
  {
    UniqueEmailsAppend(users, u);
    forall row | row in resets ensures Registered(users + [u], row.email) {
      var w :| w in users && w.email == row.email;
      assert w in users + [u];
    }
  }

  /** A row issued by `/forgot` for a registered email keeps the tables valid. */
  lemma AddRowKeepsValid(users: seq<User>, resets: seq<ResetRow>, nextId: nat, row: ResetRow)
    requires TablesValid(users, resets, nextId)
    requires Registered(users, row.email) && |row.token| == 64 && IsLowerHex(row.token)
    requires row.expiresAt == row.createdAt + ResetWindow
    ensures TablesValid(users, resets + [row], nextId)
  {
  }

  /** The password update of `/reset` keeps the tables valid: it changes
      no email and no id. */
  lemma SetPasswordKeepsValid(users: seq<User>, resets: seq<ResetRow>, nextId: nat,
                              email: string, h: Hash)
    requires TablesValid(users, resets, nextId)
    ensures TablesValid(SetPassword(users, email, h), resets, nextId)
  {
    var updated := SetPassword(users, email, h);
    SetPasswordKeepsEmails(users, email, h);
    assert forall i :: 0 <= i < |updated| ==> updated[i].id == users[i].id;
  }

  /** The delete of `/reset` keeps the tables valid: every row left was
      already there. */
  lemma DeleteKeepsValid(users: seq<User>, resets: seq<ResetRow>, nextId: nat,
                         email: string, token: string)
    requires TablesValid(users, resets, nextId)
    ensures TablesValid(users, DeleteMatching(resets, email, token), nextId)
  {
    DeleteMatchingConsumes(resets, email, token);
  }

  /** The reply `/reset` sends, given the reset rows before the call. The
      request is validated against the newest row for (email, token); it is
      expired only when the time is strictly past that row's expiry. */
  function ResetReply(rows: seq<ResetRow>, email: string, token: string, newPassword: string,
                      now: nat, error: Option<StoreError>): (r: Reply)
    ensures r.Status() == 200 <==> r == PasswordChanged
    ensures r.Status() == 500 <==> r == ServerError
    ensures r == ServerError ==> error == Some(WriteFailed)
    ensures r == PasswordChanged ==>
      NewestMatch(rows, email, token).Some? && now <= NewestMatch(rows, email, token).value.expiresAt
  {
    if !Given(email) || !Given(token) || !Given(newPassword) then MissingFields
    else if error == Some(LookupFailed) then InvalidOrExpired
    else match NewestMatch(rows, email, token)
      case None => InvalidOrExpired
      case Some(request) =>
        if now > request.expiresAt then TokenExpired
        else if error == Some(WriteFailed) then ServerError
        else PasswordChanged
  }

  /** What each `/reset` reply means. With rows as `/forgot` writes them, the
      request is accepted exactly when some row for (email, token) is still
      inside its window, even if older duplicates have expired. */
  lemma ResetReplyCases(rows: seq<ResetRow>, email: string, token: string, newPassword: string,
                        now: nat, error: Option<StoreError>)
    requires WindowKept(rows)
    ensures var r := ResetReply(rows, email, token, newPassword, now, error);
      && (r == MissingFields <==> !Given(email) || !Given(token) || !Given(newPassword))
      && (r == InvalidOrExpired <==>
            && Given(email) && Given(token) && Given(newPassword)
            && (error == Some(LookupFailed) || forall row :: row in rows ==> !IsFor(row, email, token)))
      && (r == TokenExpired <==>
            && Given(email) && Given(token) && Given(newPassword) && error != Some(LookupFailed)
            && (exists row :: row in rows && IsFor(row, email, token))
            && !LiveRow(rows, email, token, now))
      && (r == ServerError <==>
            && Given(email) && Given(token) && Given(newPassword) && error == Some(WriteFailed)
            && LiveRow(rows, email, token, now))
      && (r == PasswordChanged <==>
            && Given(email) && Given(token) && Given(newPassword)
            && error != Some(LookupFailed) && error != Some(WriteFailed)
            && LiveRow(rows, email, token, now))
  {
    NewestDecidesLiveness(rows, email, token, now);
  }

  /** The expiry comparison is strict: a request at the very millisecond
      stored as `expires_at` of the newest row is accepted, one millisecond
      later it is refused. */
  lemma ExpiryIsStrict(rows: seq<ResetRow>, email: string, token: string, newPassword: string,
                       request: ResetRow)
    requires Given(email) && Given(token) && Given(newPassword)
    requires NewestMatch(rows, email, token) == Some(request)
    ensures ResetReply(rows, email, token, newPassword, request.expiresAt, None) == PasswordChanged
    ensures ResetReply(rows, email, token, newPassword, request.expiresAt + 1, None) == TokenExpired
  {
  }

  /** A token is single-use: once a successful `/reset` has deleted the rows
      for (email, token), the same request is refused at any later time,
      whatever the store answers. */
  lemma ResetIsSingleUse(rows: seq<ResetRow>, email: string, token: string, newPassword: string,
                         now: nat, error: Option<StoreError>)
    requires Given(email) && Given(token) && Given(newPassword)
    ensures ResetReply(DeleteMatching(rows, email, token), email, token, newPassword, now, error) == InvalidOrExpired
  {
    DeleteMatchingConsumes(rows, email, token);
  }

  /** On an accepted `/reset` the email's user now holds a hash of the new
      password (the row it was validated against names a registered email),
      and nobody else's record changes. */
  lemma ResetSetsPassword(users: seq<User>, resets: seq<ResetRow>, nextId: nat,
                          email: string, token: string, newPassword: string, salt: nat,
                          now: nat, error: Option<StoreError>)
    requires TablesValid(users, resets, nextId)
    requires ResetReply(resets, email, token, newPassword, now, error) == PasswordChanged
    ensures var updated := SetPassword(users, email, HashPassword(newPassword, salt));
      && FindUser(updated, email).Some?
      && FindUser(updated, email).value.id == FindUser(users, email).value.id
      && Matches(newPassword, FindUser(updated, email).value.password)
      && forall e :: e != email ==> FindUser(updated, e) == FindUser(users, e)
  {
    var request := NewestMatch(resets, email, token).value;
    assert request in resets;
    SetPasswordLookups(users, email, HashPassword(newPassword, salt));
    FindUserAfterSetPassword(users, email, HashPassword(newPassword, salt), email);
  }

  class AuthService {
    /** The `users` table. */
    var users: seq<User>
    /** The `password_resets` table. */
    var resets: seq<ResetRow>
    /** The id the store assigns to the next inserted user. */
    var nextId: nat

    ghost predicate Valid()
      reads this
    {
      TablesValid(users, resets, nextId)
    }

    constructor ()
      ensures Valid()
      ensures users == [] && resets == [] && nextId == 0
    {
      users, resets, nextId := [], [], 0;
    }

    /** `POST /register`. */
    method Register(email: string, password: string, salt: nat, error: Option<StoreError>)
      returns (r: Reply)
      requires Valid()
      modifies this
      ensures Valid()
      ensures r == ServerError <==>
        error == Some(LookupFailed) || (error == Some(WriteFailed) && !Registered(old(users), email))
      ensures r == AccountExists <==> error != Some(LookupFailed) && Registered(old(users), email)
      ensures r == AccountCreated <==>
        error != Some(LookupFailed) && error != Some(WriteFailed) && !Registered(old(users), email)
      ensures r != AccountCreated ==> unchanged(this)
      ensures r == AccountCreated ==>
        && users == old(users) + [User(old(nextId), email, HashPassword(password, salt))]
        && resets == old(resets) && nextId == old(nextId) + 1
      ensures r == AccountCreated ==>
        && FindUser(users, email).Some?
        && Matches(password, FindUser(users, email).value.password)
        && (forall e :: e != email ==> FindUser(users, e) == FindUser(old(users), e))
    {
      if error == Some(LookupFailed) {
        return ServerError;
      }
      var existing := FindUser(users, email);
      if existing.Some? {
        return AccountExists;
      }
      var hashed := HashPassword(password, salt);
      if error == Some(WriteFailed) {
        return ServerError;
      }
      var u := User(nextId, email, hashed);
      AddUserKeepsValid(users, resets, nextId, u);
      forall e ensures FindUser(users + [u], e) == if e == email then Some(u) else FindUser(users, e) {
        FindUserAppend(users, u, e);
      }
      users := users + [u];
      nextId := nextId + 1;
      r := AccountCreated;
    }

    /** `POST /login`. Reads the store and changes nothing. */
    method Login(email: string, password: string, now: nat, error: Option<StoreError>)
      returns (r: Reply)
      requires Valid()
      ensures r == MissingFields <==> !Given(email) || !Given(password)
      ensures r == ServerError <==> Given(email) && Given(password) && error == Some(LookupFailed)
      ensures r == EmailNotRegistered <==>
        Given(email) && Given(password) && error != Some(LookupFailed) && !Registered(users, email)
      ensures r == WrongPassword <==>
        && Given(email) && Given(password) && error != Some(LookupFailed)
        && exists u :: u in users && u.email == email && !Matches(password, u.password)
      ensures r.LoggedIn? <==>
        && Given(email) && Given(password) && error != Some(LookupFailed)
        && exists u :: u in users && u.email == email && Matches(password, u.password)
      ensures r.LoggedIn? ==>
        exists u :: u in users && u.email == email && r.userId == u.id && r.token == IssueSession(u.id, now)
    {
      if !Given(email) || !Given(password) {
        return MissingFields;
      }
      if error == Some(LookupFailed) {
        return ServerError;
      }
      var found := FindUser(users, email);
      if found.None? {
        return EmailNotRegistered;
      }
      var user := found.value;
      forall u | u in users && u.email == email ensures u == user {
        FindUserUnique(users, u);
      }
      if !Matches(password, user.password) {
        return WrongPassword;
      }
      r := LoggedIn(IssueSession(user.id, now), user.id);
    }

    /** `POST /forgot`. `random` is the output of `crypto.randomBytes(32)`,
        `mailDelivered` the outcome of the mail transport. */
    method Forgot(email: string, random: seq<byte>, now: nat, error: Option<StoreError>, mailDelivered: bool)
      returns (r: Reply)
      requires Valid()
      requires |random| == 32
      modifies this
      ensures Valid()
      ensures users == old(users) && nextId == old(nextId)
      ensures r == UserNotFound <==> error == Some(LookupFailed) || !Registered(users, email)
      ensures r == ServerError <==> error == Some(WriteFailed) && Registered(users, email)
      ensures r == MailSent <==>
        error != Some(LookupFailed) && error != Some(WriteFailed) && Registered(users, email) && mailDelivered
      ensures r == MailFailed <==>
        error != Some(LookupFailed) && error != Some(WriteFailed) && Registered(users, email) && !mailDelivered
      ensures r == UserNotFound || r == ServerError ==> resets == old(resets)
      ensures r == MailSent || r == MailFailed ==>
        resets == old(resets) + [ResetRow(email, HexEncode(random), now, now + ResetWindow)]
      ensures r == MailSent || r == MailFailed ==>
        var issued := resets[|resets| - 1];
        |issued.token| == 64 && issued.expiresAt - issued.createdAt == 15 * 60 * 1000
    {
      if error == Some(LookupFailed) || FindUser(users, email).None? {
        return UserNotFound;
      }
      var token := HexEncode(random);
      var expiresAt := now + ResetWindow;
      if error == Some(WriteFailed) {
        return ServerError;
      }
      AddRowKeepsValid(users, resets, nextId, ResetRow(email, token, now, expiresAt));
      resets := resets + [ResetRow(email, token, now, expiresAt)];
      // The row is stored before the mail is attempted and stays whatever
      // the transport answers.
      if mailDelivered {
        r := MailSent;
      } else {
        r := MailFailed;
      }
    }

    /** `POST /reset`. `salt` is the salt bcrypt draws for the new hash. */
    method Reset(email: string, token: string, newPassword: string, salt: nat, now: nat,
                 error: Option<StoreError>)
      returns (r: Reply)
      requires Valid()
      modifies this
      ensures Valid()
      ensures r == ResetReply(old(resets), email, token, newPassword, now, error)
      ensures r != PasswordChanged ==> unchanged(this)
      ensures r == PasswordChanged ==>
        && users == SetPassword(old(users), email, HashPassword(newPassword, salt))
        && resets == (if error == Some(DeleteFailed) then old(resets) else DeleteMatching(old(resets), email, token))
        && nextId == old(nextId)
    {
      if !Given(email) || !Given(token) || !Given(newPassword) {
        return MissingFields;
      }
      if error == Some(LookupFailed) {
        return InvalidOrExpired;
      }
      var request := NewestMatch(resets, email, token);
      if request.None? {
        return InvalidOrExpired;
      }
      if now > request.value.expiresAt {
        return TokenExpired;
      }
      var hashed := HashPassword(newPassword, salt);
      if error == Some(WriteFailed) {
        return ServerError;
      }
      SetPasswordKeepsValid(users, resets, nextId, email, hashed);
      users := SetPassword(users, email, hashed);
      // `/reset` does not check the delete's answer (auth.js:219-223): a
      // failed delete leaves the rows in place and the reply is still 200.
      if error != Some(DeleteFailed) {
        DeleteKeepsValid(users, resets, nextId, email, token);
        resets := DeleteMatching(resets, email, token);
      }
      r := PasswordChanged;
    }
  }

  /** Registration then login on an empty store: the wrong password is
      refused, the right one yields a session for the new user's id. */
  method RegisterThenLogin(t0: nat) returns (replies: seq<Reply>)
    ensures replies == [AccountCreated, WrongPassword, LoggedIn(IssueSession(0, t0), 0), AccountExists]
  {
    var service := new AuthService();
    var created := service.Register("a@x.com", "pw1", 7, None);
    assert service.users == [User(0, "a@x.com", Digest(7, "pw1"))];
    var wrong := service.Login("a@x.com", "pw2", t0, None);
    var right := service.Login("a@x.com", "pw1", t0, None);
    var again := service.Register("a@x.com", "pw2", 8, None);
    replies := [created, wrong, right, again];
  }

  /** The password-reset story: a reset request, the reset itself, then the
      old password refused and the new one accepted. */
  method ResetThenLogin(random: seq<byte>, t0: nat) returns (replies: seq<Reply>)
    requires |random| == 32
    ensures replies == [AccountCreated, MailSent, PasswordChanged, WrongPassword,
                        LoggedIn(IssueSession(0, t0 + 2000), 0)]
  {
    var service := new AuthService();
    var created := service.Register("a@x.com", "pw1", 7, None);
    assert service.users == [User(0, "a@x.com", Digest(7, "pw1"))];
    var asked := service.Forgot("a@x.com", random, t0, None, true);
    var link := HexEncode(random);
    var row := ResetRow("a@x.com", link, t0, t0 + ResetWindow);
    assert service.resets == [row];
    assert NewestMatch([row], "a@x.com", link) == Some(row);
    ghost var before := service.users;
    var reset := service.Reset("a@x.com", link, "pw3", 8, t0 + 1000, None);
    assert SetPassword(before, "a@x.com", Digest(8, "pw3"))[0] == User(0, "a@x.com", Digest(8, "pw3"));
    assert service.users == [User(0, "a@x.com", Digest(8, "pw3"))];
    var stale := service.Login("a@x.com", "pw1", t0 + 2000, None);
    var renewed := service.Login("a@x.com", "pw3", t0 + 2000, None);
    replies := [created, asked, reset, stale, renewed];
  }

  /** The reset row outlives a failed mail send: the token it holds still
      resets the password, up to and including the last millisecond of its
      15-minute window and not one millisecond later. */
  method UndeliveredLink(random: seq<byte>, t0: nat) returns (replies: seq<Reply>)
    requires |random| == 32
    ensures replies == [AccountCreated, MailFailed, TokenExpired, PasswordChanged]
  {
    var service := new AuthService();
    var created := service.Register("b@x.com", "pw1", 1, None);
    assert service.users == [User(0, "b@x.com", Digest(1, "pw1"))];
    var asked := service.Forgot("b@x.com", random, t0, None, false);
    var link := HexEncode(random);
    var row := ResetRow("b@x.com", link, t0, t0 + ResetWindow);
    assert service.resets == [row];
    assert NewestMatch([row], "b@x.com", link) == Some(row);
    var late := service.Reset("b@x.com", link, "pw2", 2, t0 + ResetWindow + 1, None);
    var onTime := service.Reset("b@x.com", link, "pw2", 2, t0 + ResetWindow, None);
    replies := [created, asked, late, onTime];
  }
}
