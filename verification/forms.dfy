/** The checks the web forms apply to submitted data before anything is
    stored: the custom uniqueness validators of the registration and
    profile-edit forms, and the length and equality constraints on the
    `about_me`, post body and repeated-password fields. The user table is a
    sequence of rows; a validator either accepts or rejects with the message
    the form displays. */
module Forms {
  import opened Wrappers
  import opened Models

  datatype Verdict = Accept | Reject(message: string)

  /** Some row of the user table carries this username. */
  predicate UsernameTaken(users: seq<User>, name: string) {
    exists u :: u in users && u.username == name
  }

  /** Some row of the user table carries this email address. */
  predicate EmailTaken(users: seq<User>, email: string) {
    exists u :: u in users && u.email == email
  }

  /** The unique index on the username column. */
  predicate UsernamesUnique(users: seq<User>) {
    forall i, j :: 0 <= i < |users| && 0 <= j < |users| && users[i].username == users[j].username ==> i == j
  }

  // ---------------------------------------------------------------------------
  // The single-row lookups

  /** The user row whose username is `name`, or nothing: the first match of a
      scan of the table. */
  function FindByUsername(users: seq<User>, name: string): (r: Option<User>)
    ensures r.Some? ==> r.value in users && r.value.username == name
    ensures r.None? <==> !UsernameTaken(users, name)
  {
    if |users| == 0 then None
    else if users[0].username == name then Some(users[0])
    else
      assert users == [users[0]] + users[1..];
      FindByUsername(users[1..], name)
  }

  /** The user row whose email is `email`, or nothing. */
  function FindByEmail(users: seq<User>, email: string): (r: Option<User>)
    ensures r.Some? ==> r.value in users && r.value.email == email
    ensures r.None? <==> !EmailTaken(users, email)
  {
    if |users| == 0 then None
    else if users[0].email == email then Some(users[0])
    else
      assert users == [users[0]] + users[1..];
      FindByEmail(users[1..], email)
  }

  /** With usernames unique, the lookup finds exactly the user of that name. */
  lemma FindByUsernameUnique(users: seq<User>, u: User)
    requires UsernamesUnique(users)
    requires u in users
    ensures FindByUsername(users, u.username) == Some(u)
    decreases |users|
  {
  }

  // ---------------------------------------------------------------------------
  // Registration form

  const UsernameInUse := "Please user a different username"
  const EmailInUse := "Please use a different email address"

  /** `RegistrationForm.validate_username`. */
  function RegistrationUsername(users: seq<User>, username: string): (v: Verdict)
    ensures v.Reject? <==> UsernameTaken(users, username)
    ensures v.Reject? ==> v.message == UsernameInUse
  {
    if FindByUsername(users, username).Some? then Reject(UsernameInUse) else Accept
  }

  /** `RegistrationForm.validate_email`, as written: the lookup compares the
      submitted address with the USERNAME column. */
  function RegistrationEmail(users: seq<User>, email: string): (v: Verdict)
    ensures v.Reject? <==> UsernameTaken(users, email)
    ensures v.Reject? ==> v.message == EmailInUse
  {
    if FindByUsername(users, email).Some? then Reject(EmailInUse) else Accept
  }

  /** The email column never takes part in the email check: two user tables
      that agree row by row on usernames give the same verdict, whatever
      their emails. */
  lemma EmailCheckIgnoresEmails(users: seq<User>, others: seq<User>, email: string)
    requires |users| == |others|
    requires forall i :: 0 <= i < |users| ==> users[i].username == others[i].username
    ensures RegistrationEmail(users, email) == RegistrationEmail(others, email)
  {
  }

  /** The address of a registered user passes the email check. */
  lemma RegisteredEmailAccepted()
    ensures RegistrationEmail([User(1, "alice", "alice@example.com")], "alice@example.com") == Accept
  {
  }

  /** The email check as its message and documentation describe it: reject an
      address some user already has. */
  function RegistrationEmailByEmail(users: seq<User>, email: string): (v: Verdict)
    ensures v.Reject? <==> EmailTaken(users, email)
    ensures v.Reject? ==> v.message == EmailInUse
  {
    if FindByEmail(users, email).Some? then Reject(EmailInUse) else Accept
  }

  /** On the same table, the corrected check rejects the address the written
      check lets through. */
  lemma ByEmailRejectsRegisteredEmail()
    ensures RegistrationEmailByEmail([User(1, "alice", "alice@example.com")], "alice@example.com").Reject?
  {
  }

  // ---------------------------------------------------------------------------
  // Profile-edit form

  const ProfileUsernameInUse := "Please use a different username"

  /** `EditProfileForm.validate_username`: keeping the current username is
      always accepted; any other name is looked up. */
  function ProfileUsername(users: seq<User>, original: string, username: string): (v: Verdict)
    ensures username == original ==> v == Accept
    ensures username != original ==> (v.Reject? <==> UsernameTaken(users, username))
    ensures v.Reject? ==> v.message == ProfileUsernameInUse
  {
    if username != original then
      if FindByUsername(users, username).Some? then Reject(ProfileUsernameInUse) else Accept
    else Accept
  }

  /** A user keeping their own name passes, although that name is in the table;
      registration would refuse the same name. */
  lemma OwnUsernameKept(users: seq<User>, me: User)
    requires me in users
    ensures ProfileUsername(users, me.username, me.username) == Accept
    ensures RegistrationUsername(users, me.username).Reject?
  {
  }

  /** For a changed name the two username checks agree on the verdict; only
      the wording of their messages differs. */
  lemma ProfileAgreesWithRegistration(users: seq<User>, original: string, username: string)
    requires username != original
    ensures ProfileUsername(users, original, username).Reject? == RegistrationUsername(users, username).Reject?
    ensures ProfileUsername(users, original, username).Reject? ==>
              ProfileUsername(users, original, username).message != RegistrationUsername(users, username).message
  {
  }

  // ---------------------------------------------------------------------------
  // Length and equality constraints

  /** A `Length(min, max)` constraint: the length of the text lies between the
      two bounds, both included. */
  predicate LengthWithin(text: string, min: nat, max: nat) {
    min <= |text| <= max
  }

  /** The post field: between 1 and 140 characters. */
  predicate PostBodyValid(body: string) {
    LengthWithin(body, 1, 140)
  }

  /** The `about_me` field: at most 140 characters, empty allowed. */
  predicate AboutMeValid(aboutMe: string) {
    LengthWithin(aboutMe, 0, 140)
  }

  /** An `EqualTo('password')` constraint on the repeated password, used by both
      the registration and the password-reset forms. */
  predicate PasswordRepeated(password: string, password2: string) {
    password2 == password
  }

  /** The post field admits from 1 to 140 characters: no empty post, nothing
      longer, and whatever it admits fits the post body column. */
  lemma PostLengthLimits(body: string)
    ensures !PostBodyValid("")
    ensures |body| > 140 ==> !PostBodyValid(body)
    ensures 0 < |body| <= 140 ==> PostBodyValid(body)
    ensures PostBodyValid(body) ==> |body| <= BodyWidth
  {
  }

  /** The `about_me` field admits the empty text and anything up to 140
      characters, which fits its column; a valid post body is always a valid
      `about_me` text. */
  lemma AboutMeLengthLimits(aboutMe: string)
    ensures AboutMeValid("")
    ensures AboutMeValid(aboutMe) <==> |aboutMe| <= 140
    ensures AboutMeValid(aboutMe) ==> |aboutMe| <= AboutMeWidth
    ensures PostBodyValid(aboutMe) ==> AboutMeValid(aboutMe)
  {
  }

  /** The registration form as a whole passes its custom checks and its
      `EqualTo` constraint exactly when the name is free, the address is
      nobody's username (the check as written) and the password is repeated
      exactly. */
  function RegistrationAccepts(users: seq<User>, username: string, email: string,
                               password: string, password2: string): (ok: bool)
    ensures ok <==> !UsernameTaken(users, username) && !UsernameTaken(users, email) && password2 == password
  {
    && RegistrationUsername(users, username) == Accept
    && RegistrationEmail(users, email) == Accept
    && PasswordRepeated(password, password2)
  }

  /** The registration form with the corrected email check: it also refuses
      an address some user already has. */
  function RegistrationAcceptsByEmail(users: seq<User>, username: string, email: string,
                                      password: string, password2: string): (ok: bool)
    ensures ok <==> !UsernameTaken(users, username) && !EmailTaken(users, email) && password2 == password
  {
    && RegistrationUsername(users, username) == Accept
    && RegistrationEmailByEmail(users, email) == Accept
    && PasswordRepeated(password, password2)
  }

  /** The whole registration form, as written, lets a second account take an
      address already on file; with the corrected check it refuses it. */
  lemma RegisteredEmailPassesForm()
    ensures RegistrationAccepts([User(1, "alice", "alice@example.com")], "bob", "alice@example.com", "pw", "pw")
    ensures !RegistrationAcceptsByEmail([User(1, "alice", "alice@example.com")], "bob", "alice@example.com", "pw", "pw")
  {
    assert "bob" != "alice";
    assert "alice@example.com" != "alice";
  }

  /** The password-reset form: its only custom constraint is the repeated
      password. */
  function ResetAccepts(password: string, password2: string): (ok: bool) {
    PasswordRepeated(password, password2)
  }

  /** Both forms apply the same password constraint: once the name and
      address pass, registration accepts exactly the password pairs the reset
      form accepts, and a mistyped repeat fails both. */
  lemma SamePasswordConstraint(users: seq<User>, username: string, email: string,
                               password: string, password2: string)
    ensures password2 != password ==>
              !RegistrationAccepts(users, username, email, password, password2) && !ResetAccepts(password, password2)
    ensures RegistrationUsername(users, username) == Accept && RegistrationEmail(users, email) == Accept ==>
              RegistrationAccepts(users, username, email, password, password2) == ResetAccepts(password, password2)
  {
  }
}
