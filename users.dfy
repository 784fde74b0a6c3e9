/**
  The in-memory user directory behind the register, login, list and
  get-by-id routes of routes/users.js.

  The directory is one shared, append-only table of user records. Register
  is the only operation that changes it; login, list and get-by-id read it.
  The field checks whose code lies in the validation library (email
  syntax, ISO 8601 dates) and the password-hashing library are
  parameters of the model: `Validators` and `Bcrypt` carry them as functions.
 */
module Users {

  datatype Option<T> = None | Some(value: T)

  /** Randomness that the hashing library draws for each salt. */
  type Salt = nat

  /** The work factor passed to the hashing library on registration. */
  const CostFactor: nat := 10

  /** The fixed token login hands out instead of a signed credential. */
  const PlaceholderToken: string := "YOUR_JWT_TOKEN_HERE"

  /** The library checks the validation middleware applies to a field. */
  datatype Validators = Validators(isEmail: string -> bool, isIso8601: string -> bool)

  /** The hashing library: `hash` and `compare` give None when they report an error. */
  datatype Bcrypt = Bcrypt(
    hash: (string, nat, Salt) -> Option<string>,
    compare: (string, string) -> Option<bool>)

  /** One stored record; `password` holds the hash, never the password. */
  datatype User = User(
    id: int, fullName: string, email: string, password: string,
    bio: Option<string>, dob: string)

  /** What list and get-by-id expose of a record. */
  datatype PublicView = PublicView(fullName: string, email: string, bio: Option<string>, dob: string)

  /** What register answers with: the public view and the new id. */
  datatype CreatedView = CreatedView(id: int, fullName: string, email: string, bio: Option<string>, dob: string)

  /** A body field is the empty string when the request leaves it out. */
  datatype RegisterRequest = RegisterRequest(
    fullName: string, email: string, password: string,
    bio: Option<string>, dob: string)

  datatype LoginRequest = LoginRequest(email: string, password: string)

  datatype Field = FullName | Email | Password | Dob | UserId

  datatype AuthFailure = UnknownEmail | WrongPassword

  /** The outcome of one request, one constructor per kind of response. */
  datatype Outcome =
    | Created(created: CreatedView)
    | LoggedIn(token: string)
    | Found(user: PublicView)
    | ValidationError(fields: set<Field>)
    | Conflict
    | Unauthorized(reason: AuthFailure)
    | NotFound
    | InternalError

  /** The HTTP status each outcome is sent with. */
  function Status(o: Outcome): (code: int)
    ensures 200 <= code < 300 <==> o.Created? || o.LoggedIn? || o.Found?
    ensures o.Created? ==> code == 201
    ensures o.LoggedIn? || o.Found? ==> code == 200
    ensures code == 400 <==> o.ValidationError? || o.Conflict?
    ensures code == 401 <==> o.Unauthorized?
    ensures code == 404 <==> o.NotFound?
    ensures code == 500 <==> o.InternalError?
  {
    match o
    case Created(_) => 201
    case LoggedIn(_) => 200
    case Found(_) => 200
    case ValidationError(_) => 400
    case Conflict => 400
    case Unauthorized(_) => 401
    case NotFound => 404
    case InternalError => 500
  }

  // ---------------------------------------------------------------------
  // Field validation
  // ---------------------------------------------------------------------

  /** A character of the regular-expression class \w, that is [A-Za-z0-9_]. */
  predicate IsWordChar(c: char) {
    ('A' <= c <= 'Z') || ('a' <= c <= 'z') || ('0' <= c <= '9') || c == '_'
  }

  /** Whether the pattern /[\W]/ finds a match anywhere in `s`. */
  function ContainsNonWordChar(s: string): (found: bool)
    ensures found <==> exists i :: 0 <= i < |s| && !IsWordChar(s[i])
  {
    if s == [] then false
    else if !IsWordChar(s[0]) then true
    else
      var rest := ContainsNonWordChar(s[1..]);
      assert forall i :: 1 <= i < |s| ==> s[i] == s[1..][i - 1];
      rest
  }

  /** The password chain: not empty, at least 8 characters, and a match of /[\W]/. */
  function PasswordAccepted(p: string): (ok: bool)
    ensures ok <==> |p| >= 8 && exists i :: 0 <= i < |p| && !IsWordChar(p[i])
  {
    p != [] && |p| >= 8 && ContainsNonWordChar(p)
  }

  /** The email chain: not empty and accepted by the library's email check. */
  predicate EmailAccepted(v: Validators, e: string) {
    e != [] && v.isEmail(e)
  }

  /**
    The fields the register validator flags. Every chain runs, so the set
    holds every failing field, not only the first; `bio` has no chain.
   */
  function RegisterErrors(v: Validators, req: RegisterRequest): (fields: set<Field>)
    ensures FullName in fields <==> req.fullName == []
    ensures Email in fields <==> !EmailAccepted(v, req.email)
    ensures Password in fields <==> !PasswordAccepted(req.password)
    ensures Dob in fields <==> req.dob == [] || !v.isIso8601(req.dob)
    ensures fields <= {FullName, Email, Password, Dob}
  {
    (if req.fullName == [] then {FullName} else {})
    + (if !EmailAccepted(v, req.email) then {Email} else {})
    + (if !PasswordAccepted(req.password) then {Password} else {})
    + (if req.dob == [] || !v.isIso8601(req.dob) then {Dob} else {})
  }

  /** The fields the login validator flags: the email and password chains of register. */
  function LoginErrors(v: Validators, req: LoginRequest): (fields: set<Field>)
    ensures Email in fields <==> !EmailAccepted(v, req.email)
    ensures Password in fields <==> !PasswordAccepted(req.password)
    ensures fields <= {Email, Password}
  {
    (if !EmailAccepted(v, req.email) then {Email} else {})
    + (if !PasswordAccepted(req.password) then {Password} else {})
  }

  /** The bio is never validated: changing it never changes the verdict. */
  lemma BioNeverValidated(v: Validators, req: RegisterRequest, bio: Option<string>)
    ensures RegisterErrors(v, req.(bio := bio)) == RegisterErrors(v, req)
  {
  }

  /** Register and login apply the same email and password rules. */
  lemma RegisteredCredentialsPassLogin(v: Validators, req: RegisterRequest)
    requires RegisterErrors(v, req) == {}
    ensures LoginErrors(v, LoginRequest(req.email, req.password)) == {}
  {
  }

  // ---------------------------------------------------------------------
  // The table and its lookups
  // ---------------------------------------------------------------------

  /** Emails are pairwise distinct. */
  ghost predicate EmailsDistinct(users: seq<User>) {
    forall i, j :: 0 <= i < j < |users| ==> users[i].email != users[j].email
  }

  /** Every record's id is its position plus one. */
  ghost predicate IdsArePositions(users: seq<User>) {
    forall i :: 0 <= i < |users| ==> users[i].id == i + 1
  }

  /** What a lookup compares a record against. */
  datatype Key = ByEmail(email: string) | ById(id: int)

  predicate Matches(u: User, key: Key) {
    match key
    case ByEmail(e) => u.email == e
    case ById(n) => u.id == n
  }

  /** Position `i` holds the first record that matches `key`. */
  ghost predicate IsFirst(users: seq<User>, i: int, key: Key) {
    0 <= i < |users| && Matches(users[i], key)
    && forall j :: 0 <= j < i ==> !Matches(users[j], key)
  }

  /**
    `Array.prototype.find` as used at routes/users.js:59, 108 and 153: the
    position of the first matching record.
   */
  function Find(users: seq<User>, key: Key): (r: Option<nat>)
    ensures r.None? <==> forall i :: 0 <= i < |users| ==> !Matches(users[i], key)
    ensures r.Some? ==> IsFirst(users, r.value, key)
  {
    if users == [] then None
    else if Matches(users[0], key) then Some(0)
    else
      match Find(users[1..], key)
      case None => None
      case Some(i) => Some(i + 1)
  }

  function Public(u: User): PublicView {
    PublicView(u.fullName, u.email, u.bio, u.dob)
  }

  /** The list route: every record's public view, in table order. */
  function List(users: seq<User>): (views: seq<PublicView>)
    ensures |views| == |users|
    ensures forall i :: 0 <= i < |users| ==> views[i] == PublicView(users[i].fullName, users[i].email, users[i].bio, users[i].dob)
  {
    if users == [] then [] else [Public(users[0])] + List(users[1..])
  }

  /**
    The get-by-id route over an id that has already been parsed (None when
    the parse gave NaN).
   */
  function GetById(users: seq<User>, userId: Option<int>): (r: Outcome)
    ensures r.ValidationError? || r.NotFound? || r.Found?
    ensures r.ValidationError? <==> userId.None?
    ensures r.ValidationError? ==> r.fields == {UserId}
    ensures r == NotFound <==> userId.Some? && forall i :: 0 <= i < |users| ==> users[i].id != userId.value
    ensures r.Found? ==>
      userId.Some? && exists i :: IsFirst(users, i, ById(userId.value)) && r.user == Public(users[i])
  {
    match userId
    case None => ValidationError({UserId})
    case Some(id) =>
      match Find(users, ById(id))
      case None => NotFound
      case Some(i) => Found(Public(users[i]))
  }

  /** The login route: validation, then the first record with the email, then the hash comparison. */
  function Login(v: Validators, b: Bcrypt, users: seq<User>, req: LoginRequest): (r: Outcome)
    ensures r.ValidationError? || r.Unauthorized? || r.LoggedIn?
    ensures r.ValidationError? <==> LoginErrors(v, req) != {}
    ensures r.ValidationError? ==> r.fields == LoginErrors(v, req)
    ensures r == Unauthorized(UnknownEmail) <==>
      LoginErrors(v, req) == {} && forall i :: 0 <= i < |users| ==> users[i].email != req.email
    ensures r.LoggedIn? <==>
      LoginErrors(v, req) == {} &&
      exists i :: IsFirst(users, i, ByEmail(req.email)) && b.compare(req.password, users[i].password) == Some(true)
    ensures r.LoggedIn? ==> r.token == PlaceholderToken
  {
    var errors := LoginErrors(v, req);
    if errors != {} then ValidationError(errors)
    else
      match Find(users, ByEmail(req.email))
      case None => Unauthorized(UnknownEmail)
      case Some(i) =>
        if b.compare(req.password, users[i].password) == Some(true) then LoggedIn(PlaceholderToken)
        else Unauthorized(WrongPassword)
  }

  // ---------------------------------------------------------------------
  // Properties of the table across operations
  // ---------------------------------------------------------------------

  /** Appending a record whose email is new keeps the emails distinct. */
  lemma AppendFreshEmailKeepsDistinct(users: seq<User>, u: User)
    requires EmailsDistinct(users)
    requires forall i :: 0 <= i < |users| ==> users[i].email != u.email
    ensures EmailsDistinct(users + [u])
  {
  }

  /** Appending a record with id |users| + 1 keeps ids equal to positions plus one. */
  lemma AppendNextIdKeepsPositions(users: seq<User>, u: User)
    requires IdsArePositions(users)
    requires u.id == |users| + 1
    ensures IdsArePositions(users + [u])
  {
  }

  /** When ids are positions plus one, id k + 1 finds exactly record k. */
  lemma GetByIdAtPosition(users: seq<User>, k: nat)
    requires IdsArePositions(users)
    requires k < |users|
    ensures GetById(users, Some(k + 1)) == Found(Public(users[k]))
  {
  }

  /** When ids are positions plus one, the id after the last one is not found. */
  lemma GetByIdPastEnd(users: seq<User>)
    requires IdsArePositions(users)
    ensures GetById(users, Some(|users| + 1)) == NotFound
  {
  }

  /**
    With distinct emails the first record with an email is the only one, so
    login's answer is decided by that record's hash.
   */
  lemma LoginWithDistinctEmails(v: Validators, b: Bcrypt, users: seq<User>, req: LoginRequest, k: nat)
    requires EmailsDistinct(users)
    requires k < |users| && users[k].email == req.email
    requires LoginErrors(v, req) == {}
    ensures Login(v, b, users, req) ==
      if b.compare(req.password, users[k].password) == Some(true) then LoggedIn(PlaceholderToken)
      else Unauthorized(WrongPassword)
  {
  }

  /** A record appended after every record that misses `key` is the first match. */
  lemma FindAppended(users: seq<User>, u: User, key: Key)
    requires forall i :: 0 <= i < |users| ==> !Matches(users[i], key)
    requires Matches(u, key)
    ensures Find(users + [u], key) == Some(|users|)
  {
    // Without these steps the lemma's proof runs out of resource in the
    // whole-module verification.
    var t := users + [u];
    assert t[|users|] == u;
    assert forall j :: 0 <= j < |users| ==> t[j] == users[j];
    assert Find(t, key).Some?;
  }

  /** Listing after an append lists the old table, then the new record. */
  lemma ListAppend(users: seq<User>, u: User)
    ensures List(users + [u]) == List(users) + [Public(u)]
  {
  }

  /**
    What appending the record register builds does to the table: the
    invariants carry over, and list, get-by-id and login see the new record.
   */
  lemma AppendRegistered(v: Validators, b: Bcrypt, users: seq<User>, req: RegisterRequest, hash: string)
    requires RegisterErrors(v, req) == {}
    requires forall i :: 0 <= i < |users| ==> users[i].email != req.email
    ensures var t := users + [User(|users| + 1, req.fullName, req.email, hash, req.bio, req.dob)];
      && (EmailsDistinct(users) ==> EmailsDistinct(t))
      && (IdsArePositions(users) ==> IdsArePositions(t))
      && List(t) == List(users) + [PublicView(req.fullName, req.email, req.bio, req.dob)]
      && (IdsArePositions(users) ==> GetById(t, Some(|users| + 1)) == Found(PublicView(req.fullName, req.email, req.bio, req.dob)))
      && (b.compare(req.password, hash) == Some(true) ==>
            Login(v, b, t, LoginRequest(req.email, req.password)) == LoggedIn(PlaceholderToken))
  {
    var u := User(|users| + 1, req.fullName, req.email, hash, req.bio, req.dob);
    var t := users + [u];
    if EmailsDistinct(users) {
      AppendFreshEmailKeepsDistinct(users, u);
    }
    ListAppend(users, u);
    if IdsArePositions(users) {
      AppendNextIdKeepsPositions(users, u);
      GetByIdAtPosition(t, |users|);
    }
    FindAppended(users, u, ByEmail(req.email));
    RegisteredCredentialsPassLogin(v, req);
  }

  // ---------------------------------------------------------------------
  // The shared table
  // ---------------------------------------------------------------------

  /** The USERS array together with the libraries the routes call. */
  class Directory {
    var users: seq<User>
    const validators: Validators
    const bcrypt: Bcrypt

    /** The table starts from records loaded from elsewhere. */
    constructor (initial: seq<User>, validators: Validators, bcrypt: Bcrypt)
      ensures users == initial
      ensures this.validators == validators && this.bcrypt == bcrypt
    {
      users := initial;
      this.validators := validators;
      this.bcrypt := bcrypt;
    }

    /**
      The register route, run as one step: validate, reject a known email,
      hash with the given salt, then append one record with the next id.
     */
    method Register(req: RegisterRequest, salt: Salt) returns (o: Outcome)
      modifies this
      ensures o.Created? || o.ValidationError? || o.Conflict? || o.InternalError?
      ensures o.ValidationError? <==> RegisterErrors(validators, req) != {}
      ensures o.ValidationError? ==> o.fields == RegisterErrors(validators, req)
      ensures o.Conflict? <==>
        RegisterErrors(validators, req) == {} &&
        exists i :: 0 <= i < |old(users)| && old(users)[i].email == req.email
      ensures o.InternalError? <==>
        RegisterErrors(validators, req) == {} &&
        (forall i :: 0 <= i < |old(users)| ==> old(users)[i].email != req.email) &&
        bcrypt.hash(req.password, CostFactor, salt).None?
      ensures !o.Created? ==> users == old(users)
      ensures o.Created? ==>
        var h := bcrypt.hash(req.password, CostFactor, salt);
        h.Some? &&
        users == old(users) + [User(|old(users)| + 1, req.fullName, req.email, h.value, req.bio, req.dob)] &&
        o.created == CreatedView(|old(users)| + 1, req.fullName, req.email, req.bio, req.dob)
      ensures EmailsDistinct(old(users)) ==> EmailsDistinct(users)
      ensures IdsArePositions(old(users)) ==> IdsArePositions(users)
      ensures o.Created? ==> List(users) == List(old(users)) + [PublicView(req.fullName, req.email, req.bio, req.dob)]
      ensures o.Created? && IdsArePositions(old(users)) ==>
        GetById(users, Some(o.created.id)) == Found(PublicView(req.fullName, req.email, req.bio, req.dob))
      ensures o.Created? && bcrypt.compare(req.password, users[|users| - 1].password) == Some(true) ==>
        Login(validators, bcrypt, users, LoginRequest(req.email, req.password)) == LoggedIn(PlaceholderToken)
    {
      var errors := RegisterErrors(validators, req);
      if errors != {} {
        return ValidationError(errors);
      }
      if Find(users, ByEmail(req.email)).Some? {
        return Conflict;
      }
      var id := |users| + 1;
      var hashed := bcrypt.hash(req.password, CostFactor, salt);
      if hashed.None? {
        return InternalError;
      }
      var u := User(id, req.fullName, req.email, hashed.value, req.bio, req.dob);
      ghost var before := users;
      users := users + [u];
      o := Created(CreatedView(id, req.fullName, req.email, req.bio, req.dob));
      AppendRegistered(validators, bcrypt, before, req, hashed.value);
    }
  }
}
