/**
  Account registration (web/src/app/api/auth/register/route.ts): the input
  schema, the duplicate-email check and the creation of the user.

  The schema's email check is the parameter `isEmail`, the password hash is
  `hash`, and the id the database assigns is `newId`.
 */
module Register {
  import opened Results
  import opened Text
  import opened AuthStore

  const MaxName: int := 100

  /** What the schema extracts from a body: unknown keys are dropped. */
  datatype Registration = Registration(email: string, password: string, name: Option<string>)

  /** The schema's `min` and `max` count UTF-16 code units, as JavaScript's `length` does. */
  predicate NameOk(name: Option<string>) {
    name.None? || 1 <= Utf16Length(name.value) <= MaxName
  }

  predicate WellFormed(reg: Registration, isEmail: string -> bool) {
    isEmail(reg.email) && Utf16Length(reg.password) >= MinPassword && NameOk(reg.name)
  }

  /** The body a client sends for a registration. */
  function Fields(reg: Registration): (f: map<string, Field>)
    ensures "email" in f && "password" in f
    ensures "name" in f <==> reg.name.Some?
  {
    var f := map["email" := Text(reg.email), "password" := Text(reg.password)];
    if reg.name.Some? then f["name" := Text(reg.name.value)] else f
  }

  /** The registration schema: an object with a string email and password and an optional string name. */
  function ParseRegistration(body: Body, isEmail: string -> bool): (p: Option<Registration>)
    ensures p.Some? ==> WellFormed(p.value, isEmail) && body.Json?
    ensures p.Some? ==> "email" in body.fields && body.fields["email"] == Text(p.value.email)
    ensures p.Some? ==> "password" in body.fields && body.fields["password"] == Text(p.value.password)
    ensures p.Some? ==> ("name" in body.fields <==> p.value.name.Some?)
    ensures p.Some? && p.value.name.Some? ==> body.fields["name"] == Text(p.value.name.value)
  {
    if !body.Json? then None
    else
      var f := body.fields;
      if !("email" in f && f["email"].Text? && isEmail(f["email"].s)) then None
      else if !("password" in f && f["password"].Text? && Utf16Length(f["password"].s) >= MinPassword) then None
      else if "name" in f && !(f["name"].Text? && 1 <= Utf16Length(f["name"].s) <= MaxName) then None
      else Some(Registration(f["email"].s, f["password"].s, if "name" in f then Some(f["name"].s) else None))
  }

  /**
    The schema reads back every well-formed registration, whatever other keys
    the body carries, and rejects any registration that is not well formed.
   */
  lemma ParseRegistrationRoundTrip(reg: Registration, extra: map<string, Field>, isEmail: string -> bool)
    requires "email" !in extra && "password" !in extra && "name" !in extra
    ensures WellFormed(reg, isEmail) ==> ParseRegistration(Json(Fields(reg) + extra), isEmail) == Some(reg)
    ensures !WellFormed(reg, isEmail) ==> ParseRegistration(Json(Fields(reg) + extra), isEmail).None?
  {
    var f := Fields(reg) + extra;
    assert f["email"] == Text(reg.email);
    assert f["password"] == Text(reg.password);
    assert "name" in f <==> reg.name.Some?;
    if reg.name.Some? {
      assert f["name"] == Text(reg.name.value);
    }
  }

  /** Some user already has this id. */
  predicate IdTaken(s: Store, id: string) {
    exists e | e in s.users :: s.users[e].id == id
  }

  /** No two users share an id. */
  ghost predicate IdsUnique(s: Store) {
    forall a, b :: a in s.users && b in s.users && a != b ==> s.users[a].id != s.users[b].id
  }

  /**
    `POST /api/auth/register`: 500 on an unreadable body, 400 when the schema
    rejects it, 409 for a registered email, and otherwise 201 with a new user
    holding the hash of the password. An id clash makes the insert throw, which
    the route's `catch` turns into 500.
   */
  function Register(s: Store, body: Body, isEmail: string -> bool, hash: string -> string, newId: string):
    (r: (Store, Reply))
    ensures body.Malformed? ==> r == (s, Reply(500, Message("Server error")))
    ensures !body.Malformed? && ParseRegistration(body, isEmail).None? ==> r == (s, Reply(400, Message("Invalid input")))
    ensures ParseRegistration(body, isEmail).Some? && ParseRegistration(body, isEmail).value.email in s.users ==>
      r == (s, Reply(409, Message("Email already in use")))
    ensures r.1.status == 201 <==>
      ParseRegistration(body, isEmail).Some? && ParseRegistration(body, isEmail).value.email !in s.users && !IdTaken(s, newId)
    ensures r.1.status != 201 ==> r.0 == s
    ensures r.1.status == 201 ==> var reg := ParseRegistration(body, isEmail).value;
      && r.0.users == s.users[reg.email := User(newId, reg.email, reg.name, hash(reg.password), None)]
      && r.0.tokens == s.tokens
      && r.1.body == CreatedUser(newId, reg.email, reg.name)
  {
    if body.Malformed? then (s, Reply(500, Message("Server error")))
    else match ParseRegistration(body, isEmail)
      case None => (s, Reply(400, Message("Invalid input")))
      case Some(reg) =>
        if reg.email in s.users then (s, Reply(409, Message("Email already in use")))
        else if IdTaken(s, newId) then (s, Reply(500, Message("Server error")))
        else
          var user := User(newId, reg.email, reg.name, hash(reg.password), None);
          (s.(users := s.users[reg.email := user]), Reply(201, CreatedUser(newId, reg.email, reg.name)))
  }

  /**
    Registration keeps the store consistent: each user stays filed under its
    own email, so emails stay unique, and ids stay unique. A success adds
    exactly one user.
   */
  lemma RegisterKeepsInvariants(s: Store, body: Body, isEmail: string -> bool, hash: string -> string, newId: string)
    requires Consistent(s) && IdsUnique(s)
    ensures var r := Register(s, body, isEmail, hash, newId);
      Consistent(r.0) && IdsUnique(r.0)
    ensures var r := Register(s, body, isEmail, hash, newId);
      r.1.status == 201 ==> |r.0.users| == |s.users| + 1 && s.users.Keys <= r.0.users.Keys
  {
    var r := Register(s, body, isEmail, hash, newId);
    if r.1.status == 201 {
      var reg := ParseRegistration(body, isEmail).value;
      AddUserKeepsInvariants(s, User(newId, reg.email, reg.name, hash(reg.password), None));
    }
  }

  /** Filing a new user under its own, unused email with an unused id keeps both invariants. */
  lemma AddUserKeepsInvariants(s: Store, user: User)
    requires Consistent(s) && IdsUnique(s)
    requires user.email !in s.users && !IdTaken(s, user.id)
    ensures var t := s.(users := s.users[user.email := user]);
      Consistent(t) && IdsUnique(t) && |t.users| == |s.users| + 1 && s.users.Keys <= t.users.Keys
  {
    var t := s.(users := s.users[user.email := user]);
    assert t.users.Keys == s.users.Keys + {user.email};
    forall a, b | a in t.users && b in t.users && a != b
      ensures t.users[a].id != t.users[b].id
    {
      if a == user.email {
        assert s.users[b].id != user.id;
      } else if b == user.email {
        assert s.users[a].id != user.id;
      }
    }
  }

  /** Registering the same email twice: the second attempt is refused and changes nothing. */
  lemma RegisterTwiceConflicts(s: Store, reg: Registration, isEmail: string -> bool, hash: string -> string, id1: string, id2: string)
    requires WellFormed(reg, isEmail)
    requires Register(s, Json(Fields(reg)), isEmail, hash, id1).1.status == 201
    ensures var s1 := Register(s, Json(Fields(reg)), isEmail, hash, id1).0;
      Register(s1, Json(Fields(reg)), isEmail, hash, id2) == (s1, Reply(409, Message("Email already in use")))
  {
    ParseRegistrationRoundTrip(reg, map[], isEmail);
    assert Fields(reg) + map[] == Fields(reg);
  }
}
