/** The decisions of `POST /register` and `POST /login` over the `users`
    collection: the validation chains and the credential lookup. */
module Accounts {
  import opened Records

  const AllFieldsRequired := "All fields are required"
  const PasswordsDiffer := "Passwords do not match"
  const PasswordTooShort := "Password must be at least 8 characters long"
  const EmailExists := "User with the same email already exists"
  const CredentialsRequired := "Email and password are required"
  const InvalidCredentials := "Invalid email or password"

  /** The shortest password registration accepts. */
  const MinPasswordLength := 8

  /** A registration body field: the `Missing` and `Str` cases of a JSON
      body field `Value` (below), written as an option. Registration is
      modelled on string fields only. */
  type Field = Option<string>

  /** The body value a registration field stands for. */
  function AsValue(f: Field): Value
  {
    if f.Some? then Str(f.value) else Missing
  }

  /** JavaScript's `!field` for a registration field: missing or empty. */
  predicate Blank(f: Field)
  {
    Falsy(AsValue(f))
  }

  datatype RegisterForm = RegisterForm(email: Field, password: Field, repeatPassword: Field, userName: Field)

  predicate Complete(form: RegisterForm)
  {
    !Blank(form.email) && !Blank(form.password) && !Blank(form.repeatPassword) && !Blank(form.userName)
  }

  /** The 400 message registration answers before it looks at the store, or
      `None` when the form passes. The checks run in the source's order:
      missing fields, then differing passwords, then a short password. */
  function RegisterCheck(form: RegisterForm): (r: Option<string>)
    ensures r.None? <==>
      Complete(form) && form.password.value == form.repeatPassword.value
      && |form.password.value| >= MinPasswordLength
    ensures !Complete(form) ==> r == Some(AllFieldsRequired)
    ensures Complete(form) && form.password != form.repeatPassword ==> r == Some(PasswordsDiffer)
    ensures Complete(form) && form.password == form.repeatPassword && |form.password.value| < MinPasswordLength
      ==> r == Some(PasswordTooShort)
  {
    if Blank(form.email) || Blank(form.password) || Blank(form.repeatPassword) || Blank(form.userName) then
      Some(AllFieldsRequired)
    else if form.password.value != form.repeatPassword.value then
      Some(PasswordsDiffer)
    else if |form.password.value| < MinPasswordLength then
      Some(PasswordTooShort)
    else
      None
  }

  /** `findOne({ email })` finds a document. */
  predicate EmailTaken(users: seq<User>, email: string)
  {
    exists i :: 0 <= i < |users| && users[i].email == email
  }

  /** Registration never lets two users share an email. */
  predicate UniqueEmails(users: seq<User>)
  {
    forall i, j :: 0 <= i < j < |users| ==> users[i].email != users[j].email
  }

  /** Appending a user whose email is free keeps emails unique. */
  lemma AppendFreshEmail(users: seq<User>, u: User)
    requires UniqueEmails(users) && !EmailTaken(users, u.email)
    ensures UniqueEmails(users + [u])
  {
    var s := users + [u];
    forall i, j | 0 <= i < j < |s| ensures s[i].email != s[j].email {
      assert s[i] == users[i];
      if j < |users| { assert s[j] == users[j]; }
    }
  }

  /** A login body field as `express.json()` hands it over. `Missing` is an
      absent field or a falsy value that is not a string (`null`, `false`,
      `0`). `NotEqual(s)` is the object `{"$ne": s}`, which `findOne` reads
      as a query operator. `Opaque` is any other truthy value that is not a
      string (`true`, a non-zero number, an array, an object without
      operators); a stored string never equals it. */
  datatype Value = Missing | Str(s: string) | NotEqual(s: string) | Opaque

  /** JavaScript's `!value`. */
  predicate Falsy(v: Value)
  {
    v.Missing? || v == Str("")
  }

  /** How `findOne` compares a query value with a stored string field. */
  predicate Matches(v: Value, stored: string)
  {
    match v
    case Str(s) => stored == s
    case NotEqual(s) => stored != s
    case _ => false
  }

  /** `findOne({ email, password })` as the driver runs it: the first user
      whose two fields the two query values match. */
  function FindMatch(users: seq<User>, email: Value, password: Value): (r: Option<User>)
    ensures r.Some? <==> exists i :: 0 <= i < |users| && Matches(email, users[i].email) && Matches(password, users[i].password)
    ensures r.Some? ==> r.value in users && Matches(email, r.value.email) && Matches(password, r.value.password)
  {
    if users == [] then None
    else if Matches(email, users[0].email) && Matches(password, users[0].password) then Some(users[0])
    else
      var r := FindMatch(users[1..], email, password);
      assert forall i :: 0 < i < |users| ==> users[i] == users[1..][i - 1];
      r
  }

  /** `findOne({ email, password })` with two strings: the first user whose
      stored email and password both equal them exactly. */
  function FindUser(users: seq<User>, email: string, password: string): (r: Option<User>)
    ensures r.Some? <==> exists i :: 0 <= i < |users| && users[i].email == email && users[i].password == password
    ensures r.Some? ==> r.value in users && r.value.email == email && r.value.password == password
  {
    FindMatch(users, Str(email), Str(password))
  }

  /** The answer of `POST /login` as written: 400 when a field is falsy
      (before any lookup), 401 when `findOne` finds nothing, the stored user
      record otherwise. Whatever truthy values the body holds go to
      `findOne` as they are. */
  function LoginAsWritten(users: seq<User>, email: Value, password: Value): (r: Response<User>)
    ensures r.Json? <==>
      !Falsy(email) && !Falsy(password)
      && exists i :: 0 <= i < |users| && Matches(email, users[i].email) && Matches(password, users[i].password)
    ensures r.Json? ==> r.body in users && Matches(email, r.body.email) && Matches(password, r.body.password)
    ensures (Falsy(email) || Falsy(password)) ==> r == Text(400, CredentialsRequired)
    ensures !r.Json? && !Falsy(email) && !Falsy(password) ==> r == Text(401, InvalidCredentials)
  {
    if Falsy(email) || Falsy(password) then Text(400, CredentialsRequired)
    else
      match FindMatch(users, email, password)
      case None => Text(401, InvalidCredentials)
      case Some(u) => Json(u)
  }

  /** As written, the password `{"$ne": ""}` logs in as any registered user
      whose email is known: every stored password is non-empty, so the
      operator matches it, and with unique emails the record found is that
      user's. */
  lemma NotEqualBypassesPassword(users: seq<User>, i: nat)
    requires UniqueEmails(users)
    requires i < |users| && users[i].email != "" && users[i].password != ""
    ensures LoginAsWritten(users, Str(users[i].email), NotEqual("")) == Json(users[i])
  {
    var r := FindMatch(users, Str(users[i].email), NotEqual(""));
    assert Matches(Str(users[i].email), users[i].email) && Matches(NotEqual(""), users[i].password);
    var j :| 0 <= j < |users| && users[j] == r.value;
    assert users[j].email == users[i].email;
  }

  /** A credential the login route should accept: a non-empty string. */
  predicate Credential(v: Value)
  {
    v.Str? && v.s != ""
  }

  /** The answer of `POST /login` with the type check the route lacks: a
      field that is not a non-empty string answers 400 before any lookup, so
      only strings reach `findOne` and a login succeeds only on an exact
      match of both. */
  function LoginDecision(users: seq<User>, email: Value, password: Value): (r: Response<User>)
    ensures r.Json? <==>
      Credential(email) && Credential(password)
      && exists i :: 0 <= i < |users| && users[i].email == email.s && users[i].password == password.s
    ensures r.Json? ==> r.body in users && email == Str(r.body.email) && password == Str(r.body.password)
    ensures !(Credential(email) && Credential(password)) ==> r == Text(400, CredentialsRequired)
    ensures !r.Json? && Credential(email) && Credential(password) ==> r == Text(401, InvalidCredentials)
  {
    if !Credential(email) || !Credential(password) then Text(400, CredentialsRequired)
    else
      match FindUser(users, email.s, password.s)
      case None => Text(401, InvalidCredentials)
      case Some(u) => Json(u)
  }

  /** The correction changes nothing for string fields: on two strings the
      corrected login and the route as written give the same answer. */
  lemma LoginAgreesOnStrings(users: seq<User>, email: string, password: string)
    ensures LoginDecision(users, Str(email), Str(password)) == LoginAsWritten(users, Str(email), Str(password))
  {
  }

  /** An unknown email and a known email with the wrong password get the
      same answer, so the answer does not tell which of the two was wrong. */
  lemma UnknownEmailLooksLikeWrongPassword(users: seq<User>, unknown: string, p1: string, known: string, p2: string)
    requires unknown != "" && p1 != "" && known != "" && p2 != ""
    requires !EmailTaken(users, unknown)
    requires EmailTaken(users, known)
    requires forall i :: 0 <= i < |users| && users[i].email == known ==> users[i].password != p2
    ensures LoginDecision(users, Str(unknown), Str(p1)) == LoginDecision(users, Str(known), Str(p2))
    ensures LoginDecision(users, Str(known), Str(p2)) == Text(401, InvalidCredentials)
  {
  }

  /** A user appended by registration can log in with the credentials it
      registered with, and gets back exactly that record. */
  lemma {:induction false} RegisteredUserCanLogIn(users: seq<User>, u: User)
    requires u.email != "" && u.password != ""
    requires !EmailTaken(users, u.email)
    ensures FindUser(users + [u], u.email, u.password) == Some(u)
    ensures LoginDecision(users + [u], Str(u.email), Str(u.password)) == Json(u)
  {
    if users != [] {
      assert (users + [u])[1..] == users[1..] + [u];
      assert users[0].email != u.email;
      RegisteredUserCanLogIn(users[1..], u);
    }
  }

  /** With unique emails, at most one record can answer a login for a given
      email whatever passwords are tried. */
  lemma LoginIdentifiesUser(users: seq<User>, email: string, p1: string, p2: string)
    requires UniqueEmails(users)
    requires FindUser(users, email, p1).Some? && FindUser(users, email, p2).Some?
    ensures p1 == p2 && FindUser(users, email, p1) == FindUser(users, email, p2)
  {
    var u1 := FindUser(users, email, p1).value;
    var u2 := FindUser(users, email, p2).value;
    var i :| 0 <= i < |users| && users[i] == u1;
    var j :| 0 <= j < |users| && users[j] == u2;
    if i < j {
      assert users[i].email != users[j].email;
    } else if j < i {
      assert users[j].email != users[i].email;
    }
  }
}
