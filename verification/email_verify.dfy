/**
  Email verification (web/src/app/api/auth/verify/request/route.ts and
  web/src/app/api/auth/verify/route.ts): a token is issued for the bare
  email, and following its link within the hour marks the email verified and
  deletes the token.
 */
module EmailVerification {
  import opened Results
  import opened Text
  import opened AuthStore
  import PasswordReset

  /** The two redirect targets, relative to the request's origin. */
  const NotVerified: string := "/login?verified=0"
  const Verified: string := "/login?verified=1"

  /** `NextResponse.redirect` answers with a temporary redirect. */
  const RedirectStatus: int := 307

  /**
    `POST /api/auth/verify/request`. The token is stored before the mail is
    sent, so a failing mailer leaves it stored and crashes the route.
   */
  function RequestVerification(s: Store, body: Body, uuid: string, now: int, mailFails: bool): (r: (Store, Reply, Option<Mail>))
    ensures r.0.users == s.users
    ensures r.0 != s ==> && uuid in r.0.tokens && uuid !in s.tokens
                         && r.0.tokens[uuid].identifier in s.users
                         && r.0.tokens[uuid].expires == now + 3600000
                         && (!mailFails ==> (r.1 == Reply(200, OkFlag)
                                              && r.2 == Some(Mail(r.0.tokens[uuid].identifier, VerifySubject, uuid))))
                         && (mailFails ==> r.1 == Reply(500, Crashed) && r.2.None?)
    ensures r.0 == s ==> r.2.None?
  {
    var r := IssueToken(s, body, "", VerifySubject, uuid, now, mailFails);
    assert r.0 != s ==> r.0.tokens[uuid].identifier == Get(body, "email").value.s by {
      if r.0 != s {
        assert "" + Get(body, "email").value.s == Get(body, "email").value.s;
      }
    }
    r
  }

  /**
    `GET /api/auth/verify?token=…`: a missing or empty token, or one that is
    unknown or expired, redirects with `verified=0` and changes nothing; a
    token naming no user makes the update throw; otherwise the user's
    `emailVerified` becomes `now`, the token is deleted and the redirect
    carries `verified=1`.
   */
  function Verify(s: Store, token: Option<string>, now: int): (r: (Store, Reply))
    ensures r.1 != Reply(RedirectStatus, Redirect(Verified)) ==> r.0 == s
    ensures r.1 == Reply(RedirectStatus, Redirect(Verified)) <==>
      (token.Some? && token.value != "" && token.value in s.tokens && Live(s.tokens[token.value], now)
       && s.tokens[token.value].identifier in s.users)
    ensures (token.None? || token.value == "" || token.value !in s.tokens || !Live(s.tokens[token.value], now)) ==>
      r.1 == Reply(RedirectStatus, Redirect(NotVerified))
    ensures r.1 == Reply(RedirectStatus, Redirect(Verified)) ==>
      var email := s.tokens[token.value].identifier;
      && r.0.users == s.users[email := s.users[email].(emailVerified := Some(now))]
      && r.0.tokens == s.tokens - {token.value}
  {
    if token.None? || token.value == "" then (s, Reply(RedirectStatus, Redirect(NotVerified)))
    else if token.value !in s.tokens || !Live(s.tokens[token.value], now) then
      (s, Reply(RedirectStatus, Redirect(NotVerified)))
    else
      var email := s.tokens[token.value].identifier;
      if email !in s.users then (s, Reply(500, Crashed))
      else
        var user := s.users[email].(emailVerified := Some(now));
        (Store(s.users[email := user], s.tokens - {token.value}), Reply(RedirectStatus, Redirect(Verified)))
  }

  /** Verification keeps every user filed under its email and touches only the verified flag. */
  lemma VerifyKeepsConsistent(s: Store, token: Option<string>, now: int)
    requires Consistent(s)
    ensures var r := Verify(s, token, now);
      && Consistent(r.0) && r.0.users.Keys == s.users.Keys
      && forall e :: e in s.users ==> r.0.users[e].passwordHash == s.users[e].passwordHash
  {
  }

  /**
    The life of a verification token: asked for at `t0` for a registered email,
    whether or not its mail goes out,
    following the link up to and including `t0` plus one hour verifies that
    email at the time of the click, after which the token is gone and a second
    click redirects with `verified=0`; following it later changes nothing.
   */
  lemma VerifyTokenLifecycle(s: Store, email: string, uuid: string, t0: int, t1: int, t2: int, mailFails: bool)
    requires email != "" && email in s.users && uuid != "" && uuid !in s.tokens
    ensures var s1 := RequestVerification(s, Json(map["email" := Text(email)]), uuid, t0, mailFails).0;
      var r := Verify(s1, Some(uuid), t1);
      && (t1 <= t0 + TokenLifetime ==>
            && r.1 == Reply(RedirectStatus, Redirect(Verified))
            && r.0.users[email].emailVerified == Some(t1)
            && Verify(r.0, Some(uuid), t2) == (r.0, Reply(RedirectStatus, Redirect(NotVerified))))
      && (t1 > t0 + TokenLifetime ==> r == (s1, Reply(RedirectStatus, Redirect(NotVerified))))
  {
    var body := Json(map["email" := Text(email)]);
    assert Get(body, "email") == Some(Text(email));
    var s1 := RequestVerification(s, body, uuid, t0, mailFails).0;
    assert "" + email == email;
    assert s1.tokens[uuid] == Token(email, t0 + TokenLifetime);
  }

  /**
    A reset token sent to this route: while no registered email itself begins
    with `reset:`, no user matches its identifier, so a live one makes the
    update throw and an expired one redirects with `verified=0`; either way
    nothing changes.
   */
  lemma ResetTokenCannotVerify(s: Store, body: Body, uuid: string, t0: int, t1: int, mailFails: bool)
    requires forall e :: e in s.users ==> !StartsWith(e, ResetPrefix)
    requires uuid != ""
    requires PasswordReset.RequestReset(s, body, uuid, t0, mailFails).0 != s
    ensures var s1 := PasswordReset.RequestReset(s, body, uuid, t0, mailFails).0;
      && (t1 <= t0 + TokenLifetime ==> Verify(s1, Some(uuid), t1) == (s1, Reply(500, Crashed)))
      && (t1 > t0 + TokenLifetime ==> Verify(s1, Some(uuid), t1) == (s1, Reply(RedirectStatus, Redirect(NotVerified))))
  {
    var s1 := PasswordReset.RequestReset(s, body, uuid, t0, mailFails).0;
    var id := s1.tokens[uuid].identifier;
    assert StartsWith(id, ResetPrefix);
    assert id !in s1.users;
  }
}
