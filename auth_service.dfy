/** The authentication service's credential table: registration and login over a
    collection of (username, password hash) records. SHA-256 is the table's `hash`
    parameter; a JWT is represented by the claims it would carry. */
module AuthService {
  import opened Wrappers

  /** A hex digest as `hashlib.sha256(...).hexdigest()` returns it. */
  type Digest = string

  /** A UTC instant in seconds. */
  type Time = int

  datatype Credential = Credential(username: string, passwordHash: Digest, createdAt: Time)

  /** The payload of an issued token. */
  datatype Claims = Claims(username: string, exp: Time)

  datatype Body =
    | ErrorBody(error: string)
    | MessageBody(message: string)
    | TokenBody(token: Claims, username: string)

  datatype Response = Response(status: nat, body: Body)

  const MissingFields := Response(400, ErrorBody("Username and password required"))
  const AlreadyExists := Response(400, ErrorBody("User already exists"))
  const Registered := Response(201, MessageBody("User registered successfully"))
  const BadCredentials := Response(401, ErrorBody("Invalid credentials"))

  /** Python truthiness of an optional string field of the request: present and non-empty. */
  predicate Given(field: Option<string>): (g: bool)
    ensures g <==> field != None && field != Some("")
  {
    field.Some? && field.value != []
  }

  ghost predicate UniqueUsernames(records: seq<Credential>) {
    forall i, j :: 0 <= i < j < |records| ==> records[i].username != records[j].username
  }

  /** `find_one({"username": u})`, as the index of the first match. */
  function FindUser(records: seq<Credential>, u: string): (r: Option<nat>)
    ensures r.Some? ==> r.value < |records| && records[r.value].username == u
    ensures r.Some? ==> forall j :: 0 <= j < r.value ==> records[j].username != u
    ensures r.None? <==> forall i :: 0 <= i < |records| ==> records[i].username != u
  {
    if records == [] then None
    else if records[0].username == u then Some(0)
    else match FindUser(records[1..], u)
      case None => None
      case Some(k) => Some(k + 1)
  }

  /** `find_one({"username": u, "password": h})`, as the index of the first match. */
  function FindCredential(records: seq<Credential>, u: string, h: Digest): (r: Option<nat>)
    ensures r.Some? ==> r.value < |records| && records[r.value].username == u && records[r.value].passwordHash == h
    ensures r.Some? ==> forall j :: 0 <= j < r.value ==> records[j].username != u || records[j].passwordHash != h
    ensures r.None? <==> forall i :: 0 <= i < |records| ==> records[i].username != u || records[i].passwordHash != h
  {
    if records == [] then None
    else if records[0].username == u && records[0].passwordHash == h then Some(0)
    else match FindCredential(records[1..], u, h)
      case None => None
      case Some(k) => Some(k + 1)
  }

  /** Appending a record adds exactly that record's credentials to those that log in. */
  lemma {:induction false} FindCredentialAppend(records: seq<Credential>, c: Credential, u: string, h: Digest)
    ensures FindCredential(records + [c], u, h).Some? <==>
      FindCredential(records, u, h).Some? || (c.username == u && c.passwordHash == h)
  {
    if records != [] {
      FindCredentialAppend(records[1..], c, u, h);
      assert (records + [c])[0] == records[0];
      assert (records + [c])[1..] == records[1..] + [c];
    } else {
      assert records + [c] == [c];
    }
  }

  /** With unique usernames, a user's login succeeds exactly for the hash stored with
      that user. */
  lemma UniqueLogin(records: seq<Credential>, i: nat, h: Digest)
    requires UniqueUsernames(records) && i < |records|
    ensures FindCredential(records, records[i].username, h).Some? <==> records[i].passwordHash == h
  {
  }

  class CredentialStore {
    /** `sha256(password).hexdigest()`. */
    const hash: string -> Digest
    /** `JWT_EXPIRATION_HOURS`. */
    const expirationHours: int
    /** `users_collection`, in insertion order. */
    var records: seq<Credential>

    ghost predicate Valid()
      reads this
    {
      UniqueUsernames(records)
    }

    constructor (hash: string -> Digest, expirationHours: int)
      ensures Valid() && records == []
      ensures this.hash == hash && this.expirationHours == expirationHours
    {
      this.hash := hash;
      this.expirationHours := expirationHours;
      records := [];
    }

    /** `POST /register`. */
    method Register(username: Option<string>, password: Option<string>, now: Time) returns (response: Response)
      requires Valid()
      modifies this`records
      ensures Valid()
      ensures !Given(username) || !Given(password) ==> response == MissingFields && records == old(records)
      ensures Given(username) && Given(password) && FindUser(old(records), username.value).Some? ==>
        response == AlreadyExists && records == old(records)
      ensures Given(username) && Given(password) && FindUser(old(records), username.value).None? ==>
        && response == Registered
        && records == old(records) + [Credential(username.value, hash(password.value), now)]
    {
      if !Given(username) || !Given(password) {
        return MissingFields;
      }
      if FindUser(records, username.value).Some? {
        return AlreadyExists;
      }
      var hashed := hash(password.value);
      records := records + [Credential(username.value, hashed, now)];
      response := Registered;
    }

    /** `POST /login`: succeeds exactly when some record holds this username and the
        hash of this password; never changes the table. */
    method Login(username: Option<string>, password: Option<string>, now: Time) returns (response: Response)
      ensures !Given(username) || !Given(password) ==> response == MissingFields
      ensures Given(username) && Given(password) ==>
        (response.status == 200 <==>
          exists i :: 0 <= i < |records| && records[i].username == username.value
                      && records[i].passwordHash == hash(password.value))
      ensures Given(username) && Given(password) && response.status == 200 ==>
        response.body == TokenBody(Claims(username.value, now + 3600 * expirationHours), username.value)
      ensures Given(username) && Given(password) && response.status != 200 ==> response == BadCredentials
    {
      if !Given(username) || !Given(password) {
        return MissingFields;
      }
      var hashed := hash(password.value);
      var user := FindCredential(records, username.value, hashed);
      if user.None? {
        return BadCredentials;
      }
      var claims := Claims(username.value, now + 3600 * expirationHours);
      response := Response(200, TokenBody(claims, username.value));
    }
  }

  /** A successful registration is followed by a successful login with the same
      username and password. */
  method RegisterThenLogin(store: CredentialStore, u: string, p: string, t1: Time, t2: Time)
    returns (registered: Response, loggedIn: Response)
    requires store.Valid()
    modifies store
    ensures store.Valid()
    ensures registered.status == 201 ==> loggedIn.status == 200
    ensures u != [] && p != [] && FindUser(old(store.records), u).None? ==> registered.status == 201
  {
    registered := store.Register(Some(u), Some(p), t1);
    if registered.status == 201 {
      FindCredentialAppend(old(store.records), Credential(u, store.hash(p), t1), u, store.hash(p));
    }
    loggedIn := store.Login(Some(u), Some(p), t2);
  }
}
