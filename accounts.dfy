/** Registration and login (`/api/register`, `/api/login`) over the user table.
    Password hashing and token signing are library calls; the model keeps them symbolic:
    a digest records the salt, the cost and what it was computed from, and only `Matches`
    looks inside it; a token is the claims it was signed over. */
module Accounts {
  import opened Wrappers

  /** The bcrypt cost factor the server passes to `bcrypt.hash`. */
  const HashCost: nat := 10

  /** How long an issued token stays valid (`expiresIn`). */
  const TokenLifetime: string := "7d"

  /** A bcrypt digest. `salt` is the random salt bcrypt draws. */
  datatype Digest = Digest(salt: nat, cost: nat, source: string)

  /** `bcrypt.hash(password, 10)` with the salt it draws. */
  function Hash(password: string, salt: nat): Digest {
    Digest(salt, HashCost, password)
  }

  /** `bcrypt.compare(password, digest)`. Symbolic hashing has no collisions: a digest
      matches exactly the password it was computed from. */
  predicate Matches(password: string, d: Digest) {
    d.source == password
  }

  /** A password always matches its own digest, whatever salt was drawn. */
  lemma HashThenMatch(password: string, salt: nat)
    ensures Matches(password, Hash(password, salt))
  {
  }

  datatype User = User(id: nat, name: string, email: string, phone: string, password: Digest)

  /** The user object every reply carries: no password field. */
  datatype PublicUser = PublicUser(id: nat, name: string, email: string, phone: string)

  /** `jwt.sign({ id, email }, secret, { expiresIn: "7d" })`. */
  datatype Token = Token(id: nat, email: string, expiresIn: string)

  /** A successful register or login reply: `{ ok: true, token, user }`. */
  datatype Session = Session(token: Token, user: PublicUser)

  function Public(u: User): (p: PublicUser)
    ensures p.id == u.id && p.name == u.name && p.email == u.email && p.phone == u.phone
  {
    PublicUser(u.id, u.name, u.email, u.phone)
  }

  function Sign(id: nat, email: string): Token {
    Token(id, email, TokenLifetime)
  }

  /** Two users that differ only in their password hash have the same public view:
      nothing of the hash reaches a reply. */
  lemma PublicHidesPassword(u: User, d: Digest)
    ensures Public(u) == Public(u.(password := d))
  {
  }

  datatype RegisterBody = RegisterBody(name: Option<string>, email: Option<string>,
                                       phone: Option<string>, password: Option<string>)

  datatype LoginBody = LoginBody(email: Option<string>, password: Option<string>)

  /** The first user in table order that `matches` picks out: the lookup behind
      `User.findOne` and `User.findById`. */
  function FindFirst(users: seq<User>, matches: User -> bool): (r: Option<User>)
    ensures r.Some? ==> r.value in users && matches(r.value)
    ensures r.Some? ==> exists k :: 0 <= k < |users| && users[k] == r.value
                                    && forall j :: 0 <= j < k ==> !matches(users[j])
    ensures r.None? <==> forall u :: u in users ==> !matches(u)
  {
    if users == [] then None
    else if matches(users[0]) then Some(users[0])
    else FindFirst(users[1..], matches)
  }

  /** `User.findOne({ email })`: the first user with that exact email. */
  function FindByEmail(users: seq<User>, email: string): (r: Option<User>)
    ensures r.Some? ==> r.value in users && r.value.email == email
    ensures r.None? <==> forall u :: u in users ==> u.email != email
  {
    FindFirst(users, (u: User) => u.email == email)
  }

  /** `User.findById(id)`. */
  function FindById(users: seq<User>, id: nat): (r: Option<User>)
    ensures r.Some? ==> r.value in users && r.value.id == id
    ensures r.None? <==> forall u :: u in users ==> u.id != id
  {
    FindFirst(users, (u: User) => u.id == id)
  }

  /** A user appended after a table where nothing matches is the one found. */
  lemma {:induction false} FindFirstAppend(users: seq<User>, u: User, matches: User -> bool)
    requires FindFirst(users, matches).None? && matches(u)
    ensures FindFirst(users + [u], matches) == Some(u)
  {
    if users != [] {
      assert (users + [u])[1..] == users[1..] + [u];
      FindFirstAppend(users[1..], u, matches);
    }
  }

  ghost predicate EmailsUnique(users: seq<User>) {
    UniqueBy(users, (u: User) => u.email)
  }

  /** A user appended under an email the table does not hold is the one found by it. */
  lemma FindByEmailAppend(users: seq<User>, u: User)
    requires FindByEmail(users, u.email).None?
    ensures FindByEmail(users + [u], u.email) == Some(u)
  {
    FindFirstAppend(users, u, (v: User) => v.email == u.email);
  }

  /** With unique emails, the user found by an email is the only one holding it. */
  lemma {:induction false} FindByEmailUnique(users: seq<User>, u: User)
    requires EmailsUnique(users)
    requires u in users
    ensures FindByEmail(users, u.email) == Some(u)
  {
    if users[0] != u {
      assert u in users[1..];
      assert EmailsUnique(users[1..]) by {
        forall i, j | 0 <= i < j < |users[1..]| ensures users[1..][i].email != users[1..][j].email {
          assert users[1..][i] == users[i + 1] && users[1..][j] == users[j + 1];
        }
      }
      var m :| 0 <= m < |users[1..]| && users[1..][m] == u;
      assert users[m + 1] == u;
      FindByEmailUnique(users[1..], u);
    }
  }

  /** POST `/login`. */
  function Login(users: seq<User>, body: LoginBody): (r: Reply<Session>)
    ensures r.Fail? ==> r.status == 400
    ensures !(Truthy(body.email) && Truthy(body.password)) ==> r == Fail(400, "Email and password required")
    ensures Truthy(body.email) && Truthy(body.password) && r.Fail? ==> r.message == "Invalid credentials"
    ensures r.Ok? ==> r.status == 200
    ensures r.Ok? ==> exists u :: u in users && u.email == body.email.value && Matches(body.password.value, u.password)
                                  && r.body == Session(Sign(u.id, u.email), Public(u))
  {
    if !Truthy(body.email) || !Truthy(body.password) then Fail(400, "Email and password required")
    else match FindByEmail(users, body.email.value)
      case None => Fail(400, "Invalid credentials")
      case Some(u) =>
        if !Matches(body.password.value, u.password) then Fail(400, "Invalid credentials")
        else Ok(200, Session(Sign(u.id, u.email), Public(u)))
  }

  /** Login succeeds exactly when the table holds a user with that email whose digest
      matches the password (emails being unique, as registration keeps them). */
  lemma LoginSucceedsIffCredentialsMatch(users: seq<User>, email: string, password: string)
    requires EmailsUnique(users)
    requires email != "" && password != ""
    ensures Login(users, LoginBody(Some(email), Some(password))).Ok?
            <==> exists u :: u in users && u.email == email && Matches(password, u.password)
  {
    if u :| u in users && u.email == email && Matches(password, u.password) {
      FindByEmailUnique(users, u);
    }
  }

  /** An unknown email and a wrong password get the identical reply, so a caller cannot
      tell which one happened. */
  lemma LoginFailureIsUniform(users: seq<User>, unknown: string, p1: string, known: User, p2: string)
    requires unknown != "" && p1 != "" && p2 != ""
    requires forall u :: u in users ==> u.email != unknown
    requires known in users && known.email != "" && FindByEmail(users, known.email) == Some(known)
    requires !Matches(p2, known.password)
    ensures Login(users, LoginBody(Some(unknown), Some(p1)))
         == Login(users, LoginBody(Some(known.email), Some(p2)))
         == Fail(400, "Invalid credentials")
  {
  }

  /** Logging in right after registering, with the same email and password, succeeds. */
  lemma {:induction false} LoginAfterRegister(users: seq<User>, id: nat, name: string, email: string,
                                              phone: string, password: string, salt: nat)
    requires email != "" && password != ""
    requires FindByEmail(users, email).None?
    ensures var u := User(id, name, email, phone, Hash(password, salt));
      Login(users + [u], LoginBody(Some(email), Some(password)))
        == Ok(200, Session(Sign(id, email), PublicUser(id, name, email, phone)))
  {
    FindByEmailAppend(users, User(id, name, email, phone, Hash(password, salt)));
  }

  /** The user table. */
  class IdentityStore {
    var users: seq<User>
    var nextId: nat

    /** Emails and ids are unique, and every id is below the next one handed out. */
    ghost predicate Valid()
      reads this
    {
      && EmailsUnique(users)
      && UniqueBy(users, (u: User) => u.id)
      && forall k :: 0 <= k < |users| ==> users[k].id < nextId
    }

    constructor ()
      ensures Valid() && users == [] && nextId == 0
    {
      users := [];
      nextId := 0;
    }

    /** POST `/register`. `salt` is the randomness bcrypt draws. */
    method Register(body: RegisterBody, salt: nat) returns (r: Reply<Session>)
      requires Valid()
      modifies this
      ensures Valid()
      ensures var present := Truthy(body.name) && Truthy(body.email) && Truthy(body.phone) && Truthy(body.password);
        && (!present ==> r == Fail(400, "All fields are required"))
        && (present && FindByEmail(old(users), body.email.value).Some? ==> r == Fail(400, "Email already registered"))
        && (r.Ok? <==> present && FindByEmail(old(users), body.email.value).None?)
      ensures r.Fail? ==> users == old(users) && nextId == old(nextId)
      ensures r.Ok? ==>
        var u := User(old(nextId), body.name.value, body.email.value, body.phone.value, Hash(body.password.value, salt));
        && users == old(users) + [u]
        && nextId == old(nextId) + 1
        && r == Ok(200, Session(Sign(u.id, u.email), Public(u)))
    {
      if !Truthy(body.name) || !Truthy(body.email) || !Truthy(body.phone) || !Truthy(body.password) {
        return Fail(400, "All fields are required");
      }
      if FindByEmail(users, body.email.value).Some? {
        return Fail(400, "Email already registered");
      }
      var u := User(nextId, body.name.value, body.email.value, body.phone.value, Hash(body.password.value, salt));
      users := users + [u];
      nextId := nextId + 1;
      r := Ok(200, Session(Sign(u.id, u.email), Public(u)));
    }
  }

  /** Registering the same body twice: the second call is refused with "Email already
      registered" and the table keeps the one user the first call added. */
  method RegisterTwice(store: IdentityStore, body: RegisterBody, salt1: nat, salt2: nat)
    returns (first: Reply<Session>, second: Reply<Session>)
    requires store.Valid()
    requires Truthy(body.name) && Truthy(body.email) && Truthy(body.phone) && Truthy(body.password)
    requires FindByEmail(store.users, body.email.value).None?
    modifies store
    ensures store.Valid()
    ensures first.Ok? && second == Fail(400, "Email already registered")
    ensures |store.users| == |old(store.users)| + 1
  {
    first := store.Register(body, salt1);
    FindByEmailAppend(old(store.users), store.users[|store.users| - 1]);
    second := store.Register(body, salt2);
  }
}
