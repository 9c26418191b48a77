/**
  Password reset (web/src/app/api/auth/password/request/route.ts and
  web/src/app/api/auth/password/reset/route.ts): a reset token is issued for
  `reset:` followed by the email, and redeemed once, within the hour, for a
  new password hash.
 */
module PasswordReset {
  import opened Results
  import opened Text
  import opened AuthStore

  /**
    `POST /api/auth/password/request`. The token is stored before the mail is
    sent, so a failing mailer leaves it stored and crashes the route.
   */
  function RequestReset(s: Store, body: Body, uuid: string, now: int, mailFails: bool): (r: (Store, Reply, Option<Mail>))
    ensures r.0.users == s.users
    ensures r.0 != s ==> && uuid in r.0.tokens && uuid !in s.tokens
                         && StartsWith(r.0.tokens[uuid].identifier, ResetPrefix)
                         && r.0.tokens[uuid].identifier[|ResetPrefix|..] in s.users
                         && r.0.tokens[uuid].expires == now + 3600000
                         && (!mailFails ==> (r.1 == Reply(200, OkFlag)
                                              && r.2 == Some(Mail(r.0.tokens[uuid].identifier[|ResetPrefix|..], ResetSubject, uuid))))
                         && (mailFails ==> r.1 == Reply(500, Crashed) && r.2.None?)
    ensures r.0 == s ==> r.2.None?
    ensures r.1.status == 200 || r.1.status == 400 || r.1 == Reply(500, Crashed)
  {
    IssueToken(s, body, ResetPrefix, ResetSubject, uuid, now, mailFails)
  }

  /**
    The token and new password of a reset body, when the route's input check
    passes; `password.length` counts UTF-16 code units.
   */
  function ResetInput(body: Body): (r: Option<(string, string)>)
    requires body.Json?
    ensures r.Some? <==> (NonEmptyText(Get(body, "token"))
      && Get(body, "password").Some? && Get(body, "password").value.Text?
      && Utf16Length(Get(body, "password").value.s) >= MinPassword)
    ensures r.Some? ==> Get(body, "token") == Some(Text(r.value.0)) && Get(body, "password") == Some(Text(r.value.1))
  {
    var token := Get(body, "token");
    var password := Get(body, "password");
    if !NonEmptyText(token) then None
    else if !(password.Some? && password.value.Text? && Utf16Length(password.value.s) >= MinPassword) then None
    else Some((token.value.s, password.value.s))
  }

  /** The token is stored, live at `now`, and meant for a reset. */
  predicate Redeemable(s: Store, token: string, now: int) {
    token in s.tokens && Live(s.tokens[token], now) && StartsWith(s.tokens[token].identifier, ResetPrefix)
  }

  /** `identifier.replace(/^reset:/, '')` on an identifier that starts with the prefix. */
  function TargetEmail(identifier: string): (email: string)
    requires StartsWith(identifier, ResetPrefix)
    ensures ResetPrefix + email == identifier
  {
    identifier[|ResetPrefix|..]
  }

  /**
    `POST /api/auth/password/reset`: 400 "Invalid input" for a bad token or
    password field, 400 "Invalid token" for a token that is unknown, expired or
    not a reset token, a crash when no user has the target email, and otherwise
    the user's hash replaced and the token deleted.
   */
  function Reset(s: Store, body: Body, hash: string -> string, now: int): (r: (Store, Reply))
    ensures r.1 != Reply(200, OkFlag) ==> r.0 == s
    ensures Unreadable(body) ==> r.1 == Reply(500, Crashed)
    ensures body.Json? && ResetInput(body).None? ==> r.1 == Reply(400, Message("Invalid input"))
    ensures body.Json? && ResetInput(body).Some? && !Redeemable(s, ResetInput(body).value.0, now) ==>
      r.1 == Reply(400, Message("Invalid token"))
    ensures r.1 == Reply(200, OkFlag) <==>
      body.Json? && ResetInput(body).Some? && Redeemable(s, ResetInput(body).value.0, now)
      && TargetEmail(s.tokens[ResetInput(body).value.0].identifier) in s.users
    ensures r.1 == Reply(200, OkFlag) ==>
      var (token, password) := ResetInput(body).value;
      var email := TargetEmail(s.tokens[token].identifier);
      && r.0.users == s.users[email := s.users[email].(passwordHash := hash(password))]
      && r.0.tokens == s.tokens - {token}
  {
    if Unreadable(body) then (s, Reply(500, Crashed))
    else match ResetInput(body)
      case None => (s, Reply(400, Message("Invalid input")))
      case Some((token, password)) =>
        if !Redeemable(s, token, now) then (s, Reply(400, Message("Invalid token")))
        else
          var email := TargetEmail(s.tokens[token].identifier);
          if email !in s.users then (s, Reply(500, Crashed))
          else
            var user := s.users[email].(passwordHash := hash(password));
            (Store(s.users[email := user], s.tokens - {token}), Reply(200, OkFlag))
  }

  /** A reset keeps every user filed under its email and changes no other user. */
  lemma ResetKeepsConsistent(s: Store, body: Body, hash: string -> string, now: int)
    requires Consistent(s)
    ensures var r := Reset(s, body, hash, now);
      Consistent(r.0) && r.0.users.Keys == s.users.Keys
  {
  }

  function ResetBody(token: string, password: string): Body {
    Json(map["token" := Text(token), "password" := Text(password)])
  }

  /**
    The life of a reset token: asked for at `t0` for a registered email, whether
    or not its mail goes out, it
    sets the new password when redeemed up to and including `t0` plus one hour,
    and is then gone, so a second use at any time is "Invalid token"; redeemed
    later than that, it is refused and nothing changes.
   */
  lemma ResetTokenLifecycle(s: Store, email: string, uuid: string, password: string, hash: string -> string, t0: int, t1: int, t2: int, mailFails: bool)
    requires email != "" && email in s.users && uuid != "" && uuid !in s.tokens
    requires Utf16Length(password) >= MinPassword
    ensures var s1 := RequestReset(s, Json(map["email" := Text(email)]), uuid, t0, mailFails).0;
      var r := Reset(s1, ResetBody(uuid, password), hash, t1);
      && (t1 <= t0 + TokenLifetime ==>
            && r.1 == Reply(200, OkFlag)
            && r.0.users[email].passwordHash == hash(password)
            && Reset(r.0, ResetBody(uuid, password), hash, t2) == (r.0, Reply(400, Message("Invalid token"))))
      && (t1 > t0 + TokenLifetime ==> r == (s1, Reply(400, Message("Invalid token"))))
  {
    var body := Json(map["email" := Text(email)]);
    assert Get(body, "email") == Some(Text(email));
    var s1 := RequestReset(s, body, uuid, t0, mailFails).0;
    assert s1.tokens[uuid] == Token(ResetPrefix + email, t0 + TokenLifetime);
    assert StartsWith(ResetPrefix + email, ResetPrefix);
    assert TargetEmail(ResetPrefix + email) == email;
    var rb := ResetBody(uuid, password);
    assert Get(rb, "token") == Some(Text(uuid));
    assert Get(rb, "password") == Some(Text(password));
  }

  /**
    A token issued by the verification request, whose identifier is the bare
    email, is never accepted here unless the email itself begins with `reset:`.
   */
  lemma VerifyTokenCannotReset(s: Store, token: string, password: string, hash: string -> string, now: int)
    requires token != "" && Utf16Length(password) >= MinPassword && token in s.tokens
    requires !StartsWith(s.tokens[token].identifier, ResetPrefix)
    ensures Reset(s, ResetBody(token, password), hash, now) == (s, Reply(400, Message("Invalid token")))
  {
    var rb := ResetBody(token, password);
    assert Get(rb, "token") == Some(Text(token));
    assert Get(rb, "password") == Some(Text(password));
  }

  /**
    Four characters from outside the Basic Multilingual Plane make an
    eight-unit password, which the reset route accepts.
   */
  lemma FourEmojiPasswordAccepted(token: string)
    requires token != ""
    ensures var password := "\U{1F600}\U{1F600}\U{1F600}\U{1F600}";
      |password| == 4 && ResetInput(ResetBody(token, password)) == Some((token, password))
  {
    var password := "\U{1F600}\U{1F600}\U{1F600}\U{1F600}";
    assert forall i :: 0 <= i < |password| ==> Astral(password[i]);
    var rb := ResetBody(token, password);
    assert Get(rb, "token") == Some(Text(token));
    assert Get(rb, "password") == Some(Text(password));
  }
}
