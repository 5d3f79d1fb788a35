/** Registration and sign-in as the authentication handlers decide them:
    the rule tables, the record a registration creates, and the credential
    check, whose failure looks the same for an unknown e-mail and for a
    wrong password. Issuing and revoking tokens changes the store and is
    done by `Blog.Blog.Login` and `Blog.Blog.Logout`. */
module AuthController {
  import opened Types
  import opened Validation

  datatype RegistrationPayload = RegistrationPayload(name: Field, email: Field, password: Field, role: Field)

  /** The validated registration, with the role already defaulted. */
  datatype Registration = Registration(name: string, email: string, password: string, role: Role)

  const NameRules: seq<Rule> := [Required, IsString, Max(255)]

  function EmailRules(emails: set<string>): seq<Rule> {
    [Required, IsString, IsEmail, Max(255), UniqueAmong(emails)]
  }

  const PasswordRules: seq<Rule> := [Required, IsString, Min(6)]

  const RoleRules: seq<Rule> := [Sometimes, OneOf({"admin", "editor"})]

  function NormalizedRegistration(p: RegistrationPayload): RegistrationPayload {
    RegistrationPayload(Normalize(p.name), Normalize(p.email), Normalize(p.password), Normalize(p.role))
  }

  /** The names of the registration fields that fail their rules; `emails`
      are the addresses already taken. */
  function RegistrationErrors(p: RegistrationPayload, emails: set<string>, isEmail: string -> bool): set<string> {
    var n := NormalizedRegistration(p);
    ErrorsOf("name", n.name, NameRules, isEmail)
    + ErrorsOf("email", n.email, EmailRules(emails), isEmail)
    + ErrorsOf("password", n.password, PasswordRules, isEmail)
    + ErrorsOf("role", n.role, RoleRules, isEmail)
  }

  /** A missing role defaults to editor. */
  function RoleOf(f: Field): Role {
    if HasText(f) && f.text == "admin" then Admin else Editor
  }

  /** A role the `in:admin,editor` rule accepts, compared as a string. */
  predicate IsRoleName(f: Field) {
    HasText(f) && (f.text == "admin" || f.text == "editor")
  }

  function ValidateRegistration(p: RegistrationPayload, emails: set<string>, isEmail: string -> bool)
    : (r: Result<Registration, Failure>)
    ensures r.Ok? <==> RegistrationErrors(p, emails, isEmail) == {}
    ensures r.Err? ==> r.error == Invalid(RegistrationErrors(p, emails, isEmail))
    ensures r.Ok? ==> var g := r.value;
              && p.name == Text(g.name) && !IsBlank(g.name) && |g.name| <= 255
              && p.email == Text(g.email) && isEmail(g.email) && |g.email| <= 255 && g.email !in emails
              && p.password == Text(g.password) && |g.password| >= 6
              && (p.role.Absent? || IsRoleName(p.role))
              && (g.role == Admin <==> HasText(p.role) && p.role.text == "admin")
  {
    var errors := RegistrationErrors(p, emails, isEmail);
    if errors != {} then Err(Invalid(errors))
    else
      var n := NormalizedRegistration(p);
      RegistrationErrorsExact(p, emails, isEmail);
      assert !IsTrimmed("admin"[0]);
      Ok(Registration(n.name.text, n.email.text, n.password.text, RoleOf(n.role)))
  }

  /** Which registration field fails, stated on the raw request. */
  lemma RegistrationErrorsExact(p: RegistrationPayload, emails: set<string>, isEmail: string -> bool)
    ensures "name" in RegistrationErrors(p, emails, isEmail) <==>
              !(p.name.Text? && !IsBlank(p.name.text) && |p.name.text| <= 255)
    ensures "email" in RegistrationErrors(p, emails, isEmail) <==>
              !(p.email.Text? && !IsBlank(p.email.text) && isEmail(p.email.text) &&
                |p.email.text| <= 255 && p.email.text !in emails)
    ensures "password" in RegistrationErrors(p, emails, isEmail) <==>
              !(p.password.Text? && !IsBlank(p.password.text) && |p.password.text| >= 6)
    ensures "role" in RegistrationErrors(p, emails, isEmail) <==>
              !(p.role.Absent? || IsRoleName(p.role))
    ensures RegistrationErrors(p, emails, isEmail) <= {"name", "email", "password", "role"}
  {
    var n := NormalizedRegistration(p);
    assert NameRules == [Required, IsString, Max(255)] + [];
    RequiredBoundedText(n.name, 255, [], isEmail);
    EmailPasses(n.email, emails, isEmail);
    PasswordPasses(n.password, isEmail);
    assert !IsTrimmed("admin"[0]) && !IsTrimmed("editor"[0]);
    RolePasses(n.role, isEmail);
  }

  lemma EmailPasses(f: Field, emails: set<string>, isEmail: string -> bool)
    ensures FieldPasses(f, EmailRules(emails), isEmail) <==>
              f.Text? && !IsBlank(f.text) && isEmail(f.text) && |f.text| <= 255 && f.text !in emails
  {
    var rules := EmailRules(emails);
    assert Sometimes !in rules && Nullable !in rules;
    assert Applies(rules[0], f, false);
    if !f.Absent? && !(f.Text? && IsBlank(f.text)) {
      assert Applies(rules[1], f, false) && Applies(rules[2], f, false);
      assert Applies(rules[3], f, false) && Applies(rules[4], f, false);
    }
  }

  lemma PasswordPasses(f: Field, isEmail: string -> bool)
    ensures FieldPasses(f, PasswordRules, isEmail) <==> f.Text? && !IsBlank(f.text) && |f.text| >= 6
  {
    var rules := PasswordRules;
    assert Sometimes !in rules && Nullable !in rules;
    assert Applies(rules[0], f, false);
    if !f.Absent? && !(f.Text? && IsBlank(f.text)) {
      assert Applies(rules[1], f, false) && Applies(rules[2], f, false);
    }
  }

  /** `sometimes|in:admin,editor` after blank strings become null: missing,
      or exactly one of the two role names. */
  lemma RolePasses(f: Field, isEmail: string -> bool)
    requires f.Text? ==> !IsBlank(f.text)
    ensures FieldPasses(f, RoleRules, isEmail) <==> f.Absent? || IsRoleName(f)
  {
    var rules := RoleRules;
    assert Nullable !in rules;
    if !f.Absent? {
      assert Applies(rules[1], f, false);
    }
  }

  /** The row a registration creates: the password is stored only as its
      hash, the sign-up time as creation time. */
  function NewUser(id: nat, g: Registration, hashOf: string -> string, now: int): (u: User)
    ensures u.passwordHash == hashOf(g.password)
    ensures u.name == g.name && u.email == g.email && u.role == g.role
  {
    User(id, g.name, g.email, hashOf(g.password), g.role, now)
  }

  datatype LoginPayload = LoginPayload(email: Field, password: Field)

  const LoginEmailRules: seq<Rule> := [Required, IsEmail]

  const LoginPasswordRules: seq<Rule> := [Required]

  function LoginErrors(p: LoginPayload, isEmail: string -> bool): set<string> {
    ErrorsOf("email", Normalize(p.email), LoginEmailRules, isEmail)
    + ErrorsOf("password", Normalize(p.password), LoginPasswordRules, isEmail)
  }

  lemma LoginErrorsExact(p: LoginPayload, isEmail: string -> bool)
    ensures "email" in LoginErrors(p, isEmail) <==>
              !(p.email.Text? && !IsBlank(p.email.text) && isEmail(p.email.text))
    ensures "password" in LoginErrors(p, isEmail) <==>
              !((p.password.Text? && !IsBlank(p.password.text)) || p.password.Scalar? ||
                (p.password.Structured? && p.password.count > 0))
    ensures LoginErrors(p, isEmail) <= {"email", "password"}
  {
    var e := Normalize(p.email);
    assert Applies(LoginEmailRules[0], e, false);
    if !e.Absent? && !(e.Text? && IsBlank(e.text)) {
      assert Applies(LoginEmailRules[1], e, false);
    }
    assert Applies(LoginPasswordRules[0], Normalize(p.password), false);
  }

  /** The first user with this e-mail address, as `where(...)->first()`. */
  function FindByEmail(users: seq<User>, email: string): (r: Option<User>)
    ensures r.Some? ==> r.value in users && r.value.email == email
    ensures r.None? <==> forall i :: 0 <= i < |users| ==> users[i].email != email
  {
    if |users| == 0 then None
    else if users[0].email == email then Some(users[0])
    else
      var r := FindByEmail(users[1..], email);
      assert forall i :: 1 <= i < |users| ==> users[i] == users[1..][i - 1];
      r
  }

  /** The one answer given for any failed credential check. */
  const BadCredentials: Failure := Invalid({"email"})

  /** `POST /login` up to issuing a token: the rules (422), then the lookup
      and the password check, which fail alike (422 on `email`). A number
      or boolean password is checked as the string it casts to; a non-empty
      array passes `required` but makes the hash check throw, a server
      error, for a known address only. */
  function Login(p: LoginPayload, users: seq<User>, isEmail: string -> bool, hashOf: string -> string)
    : (r: Result<User, Failure>)
    ensures r.Ok? ==> LoginErrors(p, isEmail) == {} && p.email == Text(r.value.email) &&
                      r.value in users && HasText(p.password) && hashOf(p.password.text) == r.value.passwordHash
    ensures LoginErrors(p, isEmail) != {} ==> r == Err(Invalid(LoginErrors(p, isEmail)))
    ensures r == Err(ServerError) <==>
              LoginErrors(p, isEmail) == {} && p.email.Text? && p.password.Structured? &&
              FindByEmail(users, p.email.text).Some?
    ensures LoginErrors(p, isEmail) == {} && p.email.Text? && FindByEmail(users, p.email.text).None? ==>
              r == Err(BadCredentials)
  {
    var errors := LoginErrors(p, isEmail);
    if errors != {} then Err(Invalid(errors))
    else
      LoginErrorsExact(p, isEmail);
      var found := FindByEmail(users, p.email.text);
      if found.None? then Err(BadCredentials)
      else if !HasText(p.password) then Err(ServerError)
      else if hashOf(p.password.text) != found.value.passwordHash then Err(BadCredentials)
      else Ok(found.value)
  }

  /** An unknown address and a wrong password for a known one give the same
      answer, so the reply does not reveal which addresses are registered.
      `password` is a string, or a number or boolean in its string form. */
  lemma UnknownEmailLooksLikeWrongPassword(users: seq<User>, isEmail: string -> bool, hashOf: string -> string,
                                          email: string, password: Field)
    requires HasText(password)
    requires LoginErrors(LoginPayload(Text(email), password), isEmail) == {}
    ensures var r := Login(LoginPayload(Text(email), password), users, isEmail, hashOf);
            r == Err(BadCredentials) <==>
              FindByEmail(users, email).None? || hashOf(password.text) != FindByEmail(users, email).value.passwordHash
    ensures var r := Login(LoginPayload(Text(email), password), users, isEmail, hashOf);
            r.Err? ==> r.error == BadCredentials
  {
  }

  /** A number or boolean password gets the answer its string form would:
      `Hash::check` casts it before comparing (`false` is the empty string,
      which unlike a blank string passes `required`). */
  lemma ScalarPasswordAsText(users: seq<User>, isEmail: string -> bool, hashOf: string -> string,
                             email: string, password: string)
    requires !IsBlank(password)
    ensures Login(LoginPayload(Text(email), Scalar(password)), users, isEmail, hashOf) ==
            Login(LoginPayload(Text(email), Text(password)), users, isEmail, hashOf)
  {
    LoginErrorsExact(LoginPayload(Text(email), Scalar(password)), isEmail);
    LoginErrorsExact(LoginPayload(Text(email), Text(password)), isEmail);
  }

  /** Registering and then signing in with the same password succeeds and
      yields the new user, as long as the address was not taken (which the
      `unique` rule ensures). */
  lemma {:induction false} LoginAfterRegister(users: seq<User>, id: nat, g: Registration, hashOf: string -> string,
                                             now: int, isEmail: string -> bool)
    requires forall i :: 0 <= i < |users| ==> users[i].email != g.email
    requires LoginErrors(LoginPayload(Text(g.email), Text(g.password)), isEmail) == {}
    ensures Login(LoginPayload(Text(g.email), Text(g.password)), users + [NewUser(id, g, hashOf, now)], isEmail, hashOf)
            == Ok(NewUser(id, g, hashOf, now))
  {
    FirstMatchAfter(users, NewUser(id, g, hashOf, now));
  }

  lemma {:induction false} FirstMatchAfter(users: seq<User>, u: User)
    requires forall i :: 0 <= i < |users| ==> users[i].email != u.email
    ensures FindByEmail(users + [u], u.email) == Some(u)
  {
    if |users| > 0 {
      assert (users + [u])[1..] == users[1..] + [u];
      FirstMatchAfter(users[1..], u);
    }
  }
}
