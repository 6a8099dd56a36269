/** The user registry of backend/controllers/auth.controller.js: `register`
    and `login` against the `users` collection, and the claims `signToken`
    puts in a token.

    The collection is a sequence of users in insertion order. bcrypt and JWT
    are stood in for by values: a hash records its salt and the part of the
    password bcrypt reads (the first 72 characters), and a token records its
    claims and expiry. The salt, the clock and the configured expiry are
    parameters. */
module AuthController {
  import opened Wrappers
  import opened JsValues

  type Fields = map<string, JsValue>

  /** `bcrypt.hash(password, 10)`: cost 10, a salt, and a digest that depends
      only on the salt and the first 72 characters of the password. */
  datatype PasswordHash = PasswordHash(cost: nat, salt: string, digest: string)

  const BcryptLimit: nat := 72

  function Digest(password: string): (d: string)
    ensures |d| == (if |password| <= BcryptLimit then |password| else BcryptLimit)
    ensures d == password[..|d|]
  {
    if |password| <= BcryptLimit then password else password[..BcryptLimit]
  }

  function Hash(password: string, salt: string): PasswordHash {
    PasswordHash(10, salt, Digest(password))
  }

  /** `bcrypt.compare(password, hash)` */
  predicate Compare(password: string, h: PasswordHash) {
    Digest(password) == h.digest
  }

  /** A password matches the hash of another exactly when both agree on their
      first 72 characters; in particular every password matches its own hash. */
  lemma CompareHash(p: string, q: string, salt: string)
    ensures Compare(p, Hash(q, salt)) <==>
      (if |p| <= BcryptLimit then p else p[..BcryptLimit]) == (if |q| <= BcryptLimit then q else q[..BcryptLimit])
    ensures Compare(q, Hash(q, salt))
  {
  }

  /** A stored user. `id` is the generated `_id`. */
  datatype User = User(id: nat, name: JsValue, email: JsValue, password: PasswordHash, createdAt: int)

  /** What a reply exposes of a user: `{ id, name, email }`. */
  datatype PublicUser = PublicUser(id: nat, name: JsValue, email: JsValue)

  function Public(u: User): (p: PublicUser)
    ensures p.id == u.id && p.name == u.name && p.email == u.email
  {
    PublicUser(u.id, u.name, u.email)
  }

  /** A signed token: its claims and its `expiresIn` option. */
  datatype Token = Token(claims: map<string, JsValue>, expiresIn: string)

  /** `process.env.JWT_EXPIRES_IN || "1h"` */
  function ExpiresIn(configured: Option<string>): (e: string)
    ensures configured.None? || configured.value == "" ==> e == "1h"
    ensures configured.Some? && configured.value != "" ==> e == configured.value
  {
    if configured.Some? && configured.value != "" then configured.value else "1h"
  }

  /** `signToken(user)`: the claims are exactly the user's id, email and name;
      the id is the ObjectId `_id`, which goes into the payload as its hex
      text. */
  function SignToken(u: User, configured: Option<string>): (t: Token)
    ensures t.claims.Keys == {"id", "email", "name"}
    ensures t.claims["id"] == Str(ObjectIdText(u.id))
    ensures t.claims["email"] == u.email && t.claims["name"] == u.name
    ensures t.expiresIn == ExpiresIn(configured)
  {
    Token(map["id" := Str(ObjectIdText(u.id)), "email" := u.email, "name" := u.name], ExpiresIn(configured))
  }

  /** Tokens of two different stored users carry different `id` claims. */
  lemma SignTokenTellsUsersApart(u: User, v: User, configured: Option<string>)
    requires u.id != v.id && u.id < Pow16(24) && v.id < Pow16(24)
    ensures SignToken(u, configured).claims["id"] != SignToken(v, configured).claims["id"]
  {
    ObjectIdTextInjective(u.id, v.id);
  }

  /** A reply of `register` or `login`: the token and public user, a 400 with
      its message, or an error passed to `next` (answered 500). */
  datatype AuthReply =
    | Granted(status: int, token: Token, user: PublicUser)
    | Rejected(status: int, message: string)
    | ServerError(message: string)

  const MissingRegisterMessage := "Name, email, and password are required"
  const EmailTakenMessage := "Email already in use"
  const MissingLoginMessage := "Email and password are required"
  const InvalidCredentialsMessage := "Invalid email or password"

  /** `typeof v` */
  function TypeOf(v: JsValue): string {
    match v
    case Undefined => "undefined"
    case Null => "object"
    case Bool(_) => "boolean"
    case Num(_) => "number"
    case Str(_) => "string"
    case Object(_) => "object"
  }

  /** bcryptjs's error for an argument that is not a string. */
  function IllegalArguments(first: JsValue, second: string): string {
    "Illegal arguments: " + TypeOf(first) + ", " + second
  }

  /** `findOne({ email })`: the first user stored with that email. */
  function FindByEmail(users: seq<User>, email: JsValue): (r: Option<User>)
    ensures r.None? <==> forall i :: 0 <= i < |users| ==> users[i].email != email
    ensures r.Some? ==> r.value in users && r.value.email == email
  {
    if users == [] then None
    else if users[0].email == email then Some(users[0])
    else FindByEmail(users[1..], email)
  }

  predicate EmailsUnique(users: seq<User>) {
    forall i, j :: 0 <= i < j < |users| ==> users[i].email != users[j].email
  }

  predicate IdsBelow(users: seq<User>, bound: nat) {
    forall i :: 0 <= i < |users| ==> users[i].id < bound
  }

  /** Appending a user whose email is not yet taken keeps emails unique, and
      that user is then the one found by its email. */
  lemma AppendKeepsEmailsUnique(users: seq<User>, u: User)
    requires EmailsUnique(users) && FindByEmail(users, u.email).None?
    ensures EmailsUnique(users + [u])
    ensures FindByEmail(users + [u], u.email) == Some(u)
  {
    var r := FindByEmail(users + [u], u.email);
    assert (users + [u])[|users|] == u;
    if r.Some? {
      var i :| 0 <= i < |users + [u]| && (users + [u])[i] == r.value;
      assert i == |users|;
    }
  }

  /** With unique emails, the user found for an email is the only one. */
  lemma FindIsUnique(users: seq<User>, i: int)
    requires EmailsUnique(users) && 0 <= i < |users|
    ensures FindByEmail(users, users[i].email) == Some(users[i])
  {
    var r := FindByEmail(users, users[i].email);
    var j :| 0 <= j < |users| && users[j] == r.value;
  }

  class UserStore {
    var users: seq<User>
    var nextId: nat

    ghost predicate Valid()
      reads this
    {
      EmailsUnique(users) && IdsBelow(users, nextId)
    }

    constructor ()
      ensures Valid() && users == [] && nextId == 0
    {
      users := [];
      nextId := 0;
    }

    /** `register`: the three fields must be truthy, the email unused and the
        password a string (bcrypt throws otherwise); the user is stored with
        the hash of the password, and the reply carries a token and the
        public view of the stored user. */
    method Register(body: Fields, salt: string, now: int, expiry: Option<string>) returns (reply: AuthReply)
      requires Valid()
      modifies this
      ensures Valid()
      ensures var name := Get(Object(body), "name");
        var email := Get(Object(body), "email");
        var password := Get(Object(body), "password");
        && (!Truthy(name) || !Truthy(email) || !Truthy(password) ==>
              reply == Rejected(400, MissingRegisterMessage) && users == old(users))
        && (Truthy(name) && Truthy(email) && Truthy(password) && FindByEmail(old(users), email).Some? ==>
              reply == Rejected(400, EmailTakenMessage) && users == old(users))
        && (Truthy(name) && Truthy(email) && Truthy(password) && FindByEmail(old(users), email).None? ==>
              if !password.Str? then
                reply == ServerError(IllegalArguments(password, "number")) && users == old(users)
              else
                var u := User(old(nextId), name, email, Hash(password.s, salt), now);
                && users == old(users) + [u]
                && reply == Granted(201, SignToken(u, expiry), Public(u)))
    {
      var name := Get(Object(body), "name");
      var email := Get(Object(body), "email");
      var password := Get(Object(body), "password");
      if !Truthy(name) || !Truthy(email) || !Truthy(password) {
        return Rejected(400, MissingRegisterMessage);
      }
      var existing := FindByEmail(users, email);
      if existing.Some? {
        return Rejected(400, EmailTakenMessage);
      }
      if !password.Str? {
        return ServerError(IllegalArguments(password, "number"));
      }
      var u := User(nextId, name, email, Hash(password.s, salt), now);
      AppendKeepsEmailsUnique(users, u);
      users := users + [u];
      nextId := nextId + 1;
      return Granted(201, SignToken(u, expiry), Public(u));
    }

    /** `login`: both fields must be truthy; the user is looked up by
        `String(email)`; an unknown email and a wrong password get the same
        400 reply; a password that is not a string makes bcrypt throw. */
    method Login(body: Fields, expiry: Option<string>) returns (reply: AuthReply)
      ensures var email := Get(Object(body), "email");
        var password := Get(Object(body), "password");
        var found := FindByEmail(users, Str(JsString(email)));
        && (!Truthy(email) || !Truthy(password) ==> reply == Rejected(400, MissingLoginMessage))
        && (Truthy(email) && Truthy(password) && found.None? ==>
              reply == Rejected(400, InvalidCredentialsMessage))
        && (Truthy(email) && Truthy(password) && found.Some? && !password.Str? ==>
              reply == ServerError(IllegalArguments(password, "string")))
        && (Truthy(email) && Truthy(password) && found.Some? && password.Str? ==>
              reply == (if Compare(password.s, found.value.password)
                        then Granted(200, SignToken(found.value, expiry), Public(found.value))
                        else Rejected(400, InvalidCredentialsMessage)))
    {
      var email := Get(Object(body), "email");
      var password := Get(Object(body), "password");
      if !Truthy(email) || !Truthy(password) {
        return Rejected(400, MissingLoginMessage);
      }
      var found := FindByEmail(users, Str(JsString(email)));
      if found.None? {
        return Rejected(400, InvalidCredentialsMessage);
      }
      var user := found.value;
      if !password.Str? {
        return ServerError(IllegalArguments(password, "string"));
      }
      if !Compare(password.s, user.password) {
        return Rejected(400, InvalidCredentialsMessage);
      }
      return Granted(200, SignToken(user, expiry), Public(user));
    }
  }

  /** A user registered with a string email and password can log in with
      them, and gets the same public user back. */
  lemma RegisteredUserCanLogIn(users: seq<User>, u: User, email: string, password: string, salt: string)
    requires EmailsUnique(users) && FindByEmail(users, Str(email)).None?
    requires u.email == Str(email) && u.password == Hash(password, salt)
    ensures var found := FindByEmail(users + [u], Str(JsString(Str(email))));
      found == Some(u) && Compare(password, found.value.password)
  {
    AppendKeepsEmailsUnique(users, u);
  }

  /** The login lookup key is always a string, so a user stored with an
      email that is not a string can never be found by `login`. */
  lemma NonStringEmailNeverFound(users: seq<User>, v: JsValue, i: int)
    requires EmailsUnique(users) && 0 <= i < |users| && !users[i].email.Str?
    ensures FindByEmail(users, Str(JsString(v))) != Some(users[i])
  {
  }
}
