/**
  The account store behind the auth routes (web/src/app/api/auth/): users by
  email and verification tokens by token string, the shape of request bodies
  and replies, and the token issuance shared by the password-reset and
  email-verification request routes.

  Hashing, UUIDs, the clock and mail are parameters. Times are integer
  milliseconds.
 */
module AuthStore {
  import opened Results
  import opened Text

  datatype User = User(
    id: string, email: string, name: Option<string>,
    passwordHash: string, emailVerified: Option<int>)

  /** A verification token: what it is for, and when it stops being accepted. */
  datatype Token = Token(identifier: string, expires: int)

  datatype Store = Store(users: map<string, User>, tokens: map<string, Token>)

  /** A JSON body field: a string, or some other value with its truthiness. */
  datatype Field = Text(s: string) | Other(truthy: bool)

  /**
    A request body: malformed JSON, the JSON `null`, or the top-level fields
    of anything else (a primitive or an array has none).
   */
  datatype Body = Malformed | NullBody | Json(fields: map<string, Field>)

  datatype ReplyBody =
    | Message(error: string)
    | OkFlag
    | CreatedUser(id: string, email: string, name: Option<string>)
    | Redirect(location: string)
    /** An exception the route does not catch; the framework answers 500. */
    | Crashed

  datatype Reply = Reply(status: int, body: ReplyBody)

  /** A mail handed to the mailer: recipient, subject and the token its link carries. */
  datatype Mail = Mail(to: string, subject: string, token: string)

  /** Tokens live for one hour. */
  const TokenLifetime: int := 1000 * 60 * 60
  /** The shortest password registration and reset accept. */
  const MinPassword: int := 8
  const ResetPrefix: string := "reset:"
  const ResetSubject: string := "Reset your GifHub password"
  const VerifySubject: string := "Verify your GifHub email"

  /** Every user is filed under its own email, so an email names at most one user. */
  ghost predicate Consistent(s: Store) {
    forall e :: e in s.users ==> s.users[e].email == e
  }

  /** `!x || typeof x !== 'string'` fails exactly for these: a non-empty string field. */
  predicate NonEmptyText(f: Option<Field>) {
    f.Some? && f.value.Text? && f.value.s != ""
  }

  /** `const { x } = await req.json()` throws on these two bodies. */
  predicate Unreadable(body: Body) {
    body.Malformed? || body.NullBody?
  }

  function Get(body: Body, key: string): Option<Field>
    requires body.Json?
  {
    if key in body.fields then Some(body.fields[key]) else None
  }

  /** The token is accepted at `now`: the route rejects only `expires < now`. */
  predicate Live(t: Token, now: int) {
    !(t.expires < now)
  }

  /**
    The request routes for a reset or a verification: a missing, empty or
    non-string email is 400; an unknown email answers `{ok:true}` and stores
    nothing; a known one stores a token for `prefix + email` expiring an hour
    from `now` and then mails it. A UUID that collides with a stored token makes
    the insert throw; a mailer that throws (`SMTP not configured`, or a failed
    send) makes the route crash after the token is stored.
   */
  function IssueToken(s: Store, body: Body, prefix: string, subject: string, uuid: string, now: int, mailFails: bool):
    (r: (Store, Reply, Option<Mail>))
    ensures Unreadable(body) ==> r == (s, Reply(500, Crashed), None)
    ensures body.Json? && !NonEmptyText(Get(body, "email")) ==> r == (s, Reply(400, Message("Invalid email")), None)
    ensures r.0 != s ==> body.Json? && NonEmptyText(Get(body, "email")) && Get(body, "email").value.s in s.users && uuid !in s.tokens
    ensures body.Json? && NonEmptyText(Get(body, "email")) && Get(body, "email").value.s !in s.users ==>
      r == (s, Reply(200, OkFlag), None)
    ensures body.Json? && NonEmptyText(Get(body, "email")) && Get(body, "email").value.s in s.users && uuid !in s.tokens ==>
      var email := Get(body, "email").value.s;
      && r.0 == s.(tokens := s.tokens[uuid := Token(prefix + email, now + 3600000)])
      && (!mailFails ==> r.1 == Reply(200, OkFlag) && r.2 == Some(Mail(email, subject, uuid)))
      && (mailFails ==> r.1 == Reply(500, Crashed) && r.2 == None)
    ensures r.0.users == s.users
  {
    if Unreadable(body) then (s, Reply(500, Crashed), None)
    else
      var email := Get(body, "email");
      if !NonEmptyText(email) then (s, Reply(400, Message("Invalid email")), None)
      else if email.value.s !in s.users then (s, Reply(200, OkFlag), None)
      else if uuid in s.tokens then (s, Reply(500, Crashed), None)
      else
        var e := email.value.s;
        var stored := s.(tokens := s.tokens[uuid := Token(prefix + e, now + TokenLifetime)]);
        if mailFails then (stored, Reply(500, Crashed), None)
        else (stored, Reply(200, OkFlag), Some(Mail(e, subject, uuid)))
  }

  /**
    While mail goes out, the request routes do not reveal whether an account
    exists: for two stores with the same tokens, the reply to the same
    well-formed request is the same whether or not the email is registered.
   */
  lemma IssueTokenHidesAccounts(s: Store, body: Body, prefix: string, subject: string, uuid: string, now: int)
    requires body.Json? && NonEmptyText(Get(body, "email")) && uuid !in s.tokens
    ensures var email := Get(body, "email").value.s;
      var known := s.(users := s.users[email := User("", email, None, "", None)]);
      var unknown := s.(users := s.users - {email});
      IssueToken(known, body, prefix, subject, uuid, now, false).1 == IssueToken(unknown, body, prefix, subject, uuid, now, false).1
  {
  }

  /**
    When the mailer throws, the reply does tell the accounts apart: a
    registered email crashes the route, with its token already stored, while
    an unknown one still answers `{ok:true}`.
   */
  lemma MailFailureRevealsAccount(s: Store, body: Body, prefix: string, subject: string, uuid: string, now: int)
    requires body.Json? && NonEmptyText(Get(body, "email")) && uuid !in s.tokens
    ensures var email := Get(body, "email").value.s;
      var known := s.(users := s.users[email := User("", email, None, "", None)]);
      var unknown := s.(users := s.users - {email});
      && IssueToken(known, body, prefix, subject, uuid, now, true).1 == Reply(500, Crashed)
      && uuid in IssueToken(known, body, prefix, subject, uuid, now, true).0.tokens
      && IssueToken(unknown, body, prefix, subject, uuid, now, true).1 == Reply(200, OkFlag)
  {
  }

  /** Issuing a token keeps every user and every other token as it was. */
  lemma IssueTokenKeepsConsistent(s: Store, body: Body, prefix: string, subject: string, uuid: string, now: int, mailFails: bool)
    requires Consistent(s)
    ensures var r := IssueToken(s, body, prefix, subject, uuid, now, mailFails);
      Consistent(r.0) && forall t :: t in s.tokens ==> t in r.0.tokens && r.0.tokens[t] == s.tokens[t]
  {
  }
}
