/**
 * The auth service: a users table with unique emails, registration, log-in
 * that rotates the stored refresh token, and log-out that blanks it.
 * Password hashing and token signing are external libraries and appear
 * here only through what the service relies on.
 */
module Auth {
  import opened Wrappers

  /** Row key. The table generates it; here it comes from a counter. */
  type UserId = nat

  /**
   * bcrypt.hash: the stored text made from a password and the salt the call
   * draws (the salt is the randomness of the call).
   */
  type Hasher = (string, nat) -> string

  /** bcrypt.compare: whether a password matches a stored hash. */
  type Matcher = (string, string) -> bool

  /**
   * What the service relies on from the hashing library: a hash matches the
   * password it was made from. Which other passwords it matches is the
   * library's business.
   */
  ghost predicate HashMatchesItsPassword(hash: Hasher, matches: Matcher) {
    forall password, salt :: matches(password, hash(password, salt))
  }

  /** Width of the varchar(255) columns email, name and refresh_token. */
  const ColumnWidth: nat := 255

  /** A value the database accepts in a varchar(255) column (Postgres counts characters). */
  predicate FitsColumn(s: string) {
    |s| <= ColumnWidth
  }

  /** The error Postgres raises for a value wider than its varchar(255) column. */
  const ValueTooLongMessage: string := "value too long for type character varying(255)"

  /** The error Postgres raises for a second row with an email already present. */
  const DuplicateEmailMessage: string := "duplicate key value violates unique constraint \"user_email_unique\""

  /**
   * Assignment to a varchar(255) column: a value that fits is stored as it
   * is; a longer one is cut to 255 characters when everything past the
   * 255th is a space, and is an error (None) otherwise.
   */
  function ToColumn(s: string): (r: Option<string>)
    ensures r.Some? <==> forall i :: ColumnWidth <= i < |s| ==> s[i] == ' '
    ensures r.Some? ==> FitsColumn(r.value) && r.value <= s
    ensures r.Some? ==> forall i :: |r.value| <= i < |s| ==> s[i] == ' '
    ensures FitsColumn(s) ==> r == Some(s)
    ensures !FitsColumn(s) && r.Some? ==> |r.value| == ColumnWidth
  {
    if FitsColumn(s) then Some(s)
    else if forall i :: ColumnWidth <= i < |s| ==> s[i] == ' ' then Some(s[..ColumnWidth])
    else None
  }

  /** Trailing spaces past the width are cut; any other character past it is refused. */
  lemma ToColumnCutsOnlySpaces()
    ensures ToColumn(seq(255, _ => 'a') + " ") == Some(seq(255, _ => 'a'))
    ensures ToColumn(seq(255, _ => 'a') + "x") == None
  {
    var a := seq(255, _ => 'a');
    assert (a + "x")[255] == 'x';
    assert (a + " ")[..255] == a;
  }

  /** A row of the users table (timestamps left out); refreshToken defaults to "". */
  datatype User = User(email: string, password: string, name: string, refreshToken: string)

  /** Every varchar column of the row is within its width. */
  predicate RowFits(u: User) {
    FitsColumn(u.email) && FitsColumn(u.name) && FitsColumn(u.refreshToken)
  }

  /** The JWT payload: `sub` is the user id. */
  datatype Claims = Claims(sub: UserId, email: string)

  /** Signing options: a secret (absent means the module's default secret) and a lifetime. */
  datatype SignOptions = SignOptions(secret: Option<string>, expiresIn: string)

  /** The JWT signer the service is constructed with. */
  type Signer = (Claims, SignOptions) -> string

  const AccessOptions: SignOptions := SignOptions(None, "15m")

  function RefreshOptions(secret: string): SignOptions {
    SignOptions(Some(secret), "7d")
  }

  datatype Tokens = Tokens(accessToken: string, refreshToken: string)

  /** The exceptions the service throws, with their messages. */
  datatype AuthError = Conflict(message: string) | NotFound(message: string) | Failed(message: string)

  const ConflictMessage: string := "Email already exists. Please sign in."
  const BadCredentialsMessage: string := "Email or Password are Not Correct"
  const MissingSecretMessage: string := "JWT_REFRESH_SECRET environment variable is not set"

  /** The message register rethrows every error other than a conflict with. */
  function RegistrationFailed(reason: string): string {
    "Registration failed: " + reason
  }

  /** `!process.env.JWT_REFRESH_SECRET`: unset or empty. */
  predicate SecretMissing(secret: Option<string>) {
    secret.None? || secret.value == ""
  }

  /** generateRefreshToken: fails exactly when the refresh secret is unset or empty. */
  function GenerateRefreshToken(sign: Signer, claims: Claims, secret: Option<string>): (r: Result<string, AuthError>)
    ensures r.Failure? <==> secret.None? || secret.value == []
    ensures r.Failure? ==> r.error == Failed(MissingSecretMessage)
    ensures r.Success? ==> r.value == sign(claims, SignOptions(secret, "7d"))
  {
    if SecretMissing(secret) then Failure(Failed(MissingSecretMessage))
    else Success(sign(claims, RefreshOptions(secret.value)))
  }

  /** generateTokens: an access token (15 minutes) and a refresh token (7 days, refresh secret). */
  function GenerateTokens(sign: Signer, claims: Claims, secret: Option<string>): (r: Result<Tokens, AuthError>)
    ensures r.Failure? <==> secret.None? || secret.value == []
    ensures r.Failure? ==> r.error == Failed(MissingSecretMessage)
    ensures r.Success? ==> r.value.accessToken == sign(claims, SignOptions(None, "15m"))
    ensures r.Success? ==> r.value.refreshToken == sign(claims, SignOptions(secret, "7d"))
  {
    var access := sign(claims, AccessOptions);
    match GenerateRefreshToken(sign, claims, secret)
    case Failure(e) => Failure(e)
    case Success(refresh) => Success(Tokens(access, refresh))
  }

  /** Some row has this email. */
  predicate EmailTaken(users: map<UserId, User>, email: string) {
    exists id :: id in users && users[id].email == email
  }

  /** The `unique` constraint on the email column. */
  ghost predicate UniqueEmails(users: map<UserId, User>) {
    forall a, b :: a in users && b in users && users[a].email == users[b].email ==> a == b
  }

  /** The id of the row with this email (the only one, when emails are unique). */
  ghost function IdOf(users: map<UserId, User>, email: string): (id: UserId)
    requires EmailTaken(users, email)
    ensures id in users && users[id].email == email
  {
    var id :| id in users && users[id].email == email; id
  }

  /** Some row has this email and a stored hash the password matches. */
  ghost predicate CredentialsMatch(users: map<UserId, User>, matches: Matcher, email: string, password: string) {
    exists id :: id in users && users[id].email == email && matches(password, users[id].password)
  }

  /** `UPDATE users SET refresh_token = $token WHERE email = $email`, row by row. */
  function SetTokenWhereEmail(users: map<UserId, User>, email: string, token: string): map<UserId, User> {
    map k | k in users :: if users[k].email == email then users[k].(refreshToken := token) else users[k]
  }

  /** `UPDATE users SET refresh_token = $token WHERE id = $id`, row by row. */
  function SetTokenWhereId(users: map<UserId, User>, id: UserId, token: string): map<UserId, User> {
    map k | k in users :: if k == id then users[k].(refreshToken := token) else users[k]
  }

  /** Inserting a row whose email is not taken keeps emails unique. */
  lemma InsertKeepsEmailsUnique(users: map<UserId, User>, id: UserId, u: User)
    requires UniqueEmails(users) && id !in users && !EmailTaken(users, u.email)
    ensures UniqueEmails(users[id := u])
  {
    var r := users[id := u];
    forall a, b | a in r && b in r && r[a].email == r[b].email ensures a == b {
    }
  }

  /**
   * With unique emails, the update by email changes the refresh token of
   * the one row with that email and nothing else.
   */
  lemma SetTokenWhereEmailIsRowUpdate(users: map<UserId, User>, id: UserId, token: string)
    requires UniqueEmails(users) && id in users
    ensures SetTokenWhereEmail(users, users[id].email, token) == users[id := users[id].(refreshToken := token)]
  {
    var r := SetTokenWhereEmail(users, users[id].email, token);
    var t := users[id := users[id].(refreshToken := token)];
    assert r.Keys == t.Keys;
    forall k | k in r ensures r[k] == t[k] {
    }
  }

  /** The update by an email no row has changes nothing. */
  lemma SetTokenWhereMissingEmailChangesNothing(users: map<UserId, User>, email: string, token: string)
    requires !EmailTaken(users, email)
    ensures SetTokenWhereEmail(users, email, token) == users
  {
    assert SetTokenWhereEmail(users, email, token).Keys == users.Keys;
  }

  /** Setting the token by id changes that row's refresh token, if the row exists, and nothing else. */
  lemma SetTokenWhereIdIsRowUpdate(users: map<UserId, User>, id: UserId, token: string)
    ensures SetTokenWhereId(users, id, token)
      == if id in users then users[id := users[id].(refreshToken := token)] else users
  {
    var r := SetTokenWhereId(users, id, token);
    if id in users {
      assert r.Keys == users[id := users[id].(refreshToken := token)].Keys;
    } else {
      assert r.Keys == users.Keys;
    }
  }

  /** Changing refresh tokens never changes emails, so it keeps them unique. */
  lemma SetTokenKeepsEmailsUnique(users: map<UserId, User>, id: UserId, token: string)
    requires UniqueEmails(users) && id in users
    ensures UniqueEmails(users[id := users[id].(refreshToken := token)])
  {
    var r := users[id := users[id].(refreshToken := token)];
    forall a, b | a in r && b in r && r[a].email == r[b].email ensures a == b {
      assert users[a].email == r[a].email && users[b].email == r[b].email;
    }
  }

  /** What register returns: the row as inserted (refreshToken still "") and the tokens. */
  datatype Registered = Registered(id: UserId, user: User, tokens: Tokens)

  /** What logIn returns: the selected columns of the matching row, and the tokens. */
  datatype LoggedIn = LoggedIn(id: UserId, email: string, password: string, tokens: Tokens)

  class AuthService {
    /** The injected JWT service. */
    const sign: Signer
    /** The hashing library: bcrypt.hash and bcrypt.compare. */
    const hash: Hasher
    const matches: Matcher
    var users: map<UserId, User>
    /** The next id the table hands out. */
    var nextId: UserId

    /**
     * Stored ids were handed out already, every row fits its columns, emails
     * are unique, and a stored hash matches the password it was made from.
     */
    ghost predicate Valid()
      reads this
    {
      && (forall id :: id in users ==> id < nextId && RowFits(users[id]))
      && UniqueEmails(users)
      && HashMatchesItsPassword(hash, matches)
    }

    constructor (sign: Signer, hash: Hasher, matches: Matcher)
      requires HashMatchesItsPassword(hash, matches)
      ensures Valid() && users == map[]
      ensures this.sign == sign && this.hash == hash && this.matches == matches
    {
      this.sign := sign;
      this.hash := hash;
      this.matches := matches;
      users := map[];
      nextId := 0;
    }

    /** IsUserExisting: finds the row with that email, if there is one. */
    method IsUserExisting(email: string) returns (existing: Option<UserId>)
      ensures existing.Some? <==> EmailTaken(users, email)
      ensures existing.Some? ==> existing.value in users && users[existing.value].email == email
    {
      if id :| id in users && users[id].email == email {
        existing := Some(id);
      } else {
        existing := None;
      }
    }

    /**
     * register: an email already present is a conflict and changes nothing.
     * The insert stores email and name as their columns take them; a value
     * the column refuses, or an email that after cutting equals a stored
     * one, makes the insert fail and nothing is inserted. Otherwise a row is
     * inserted with the hash of the password and tokens are signed for it.
     * A missing refresh secret, or a refresh token the column refuses, is
     * rethrown as a registration failure and the new row keeps a blank
     * refresh token. Else the update by the email as given stores the token
     * in that row, or in no row when the email was cut.
     */
    method Register(name: string, email: string, password: string, salt: nat, refreshSecret: Option<string>)
      returns (r: Result<Registered, AuthError>)
      requires Valid()
      modifies this
      ensures Valid()
      ensures EmailTaken(old(users), email) ==> r == Failure(Conflict(ConflictMessage)) && users == old(users)
      ensures !EmailTaken(old(users), email) && (ToColumn(email).None? || ToColumn(name).None?) ==>
        r == Failure(Failed(RegistrationFailed(ValueTooLongMessage))) && users == old(users)
      ensures && !EmailTaken(old(users), email) && ToColumn(email).Some? && ToColumn(name).Some?
              && EmailTaken(old(users), ToColumn(email).value) ==>
        r == Failure(Failed(RegistrationFailed(DuplicateEmailMessage))) && users == old(users)
      ensures && !EmailTaken(old(users), email) && ToColumn(email).Some? && ToColumn(name).Some?
              && !EmailTaken(old(users), ToColumn(email).value) ==>
        var id := old(nextId);
        var row := User(ToColumn(email).value, hash(password, salt), ToColumn(name).value, "");
        && id !in old(users)
        && (SecretMissing(refreshSecret) ==>
              r == Failure(Failed(RegistrationFailed(MissingSecretMessage))) && users == old(users)[id := row])
        && (!SecretMissing(refreshSecret) ==>
              var tokens := GenerateTokens(sign, Claims(id, row.email), refreshSecret).value;
              match ToColumn(tokens.refreshToken)
              case None =>
                r == Failure(Failed(RegistrationFailed(ValueTooLongMessage))) && users == old(users)[id := row]
              case Some(stored) =>
                && r == Success(Registered(id, row, tokens))
                && users == old(users)[id := if row.email == email then row.(refreshToken := stored) else row]
                && CredentialsMatch(users, matches, row.email, password))
    {
      var hashed := hash(password, salt);
      var existing := IsUserExisting(email);
      if existing.Some? {
        return Failure(Conflict(ConflictMessage));
      }
      var storedEmail := ToColumn(email);
      var storedName := ToColumn(name);
      if storedEmail.None? || storedName.None? {
        return Failure(Failed(RegistrationFailed(ValueTooLongMessage)));
      }
      if EmailTaken(users, storedEmail.value) {
        return Failure(Failed(RegistrationFailed(DuplicateEmailMessage)));
      }
      var row := User(storedEmail.value, hashed, storedName.value, "");
      var id := nextId;
      InsertKeepsEmailsUnique(users, id, row);
      users := users[id := row];
      nextId := nextId + 1;
      var tokens := GenerateTokens(sign, Claims(id, row.email), refreshSecret);
      if tokens.Failure? {
        return Failure(Failed(RegistrationFailed(tokens.error.message)));
      }
      var storedToken := ToColumn(tokens.value.refreshToken);
      if storedToken.None? {
        return Failure(Failed(RegistrationFailed(ValueTooLongMessage)));
      }
      if row.email == email {
        SetTokenWhereEmailIsRowUpdate(users, id, storedToken.value);
        SetTokenKeepsEmailsUnique(users, id, storedToken.value);
      } else {
        SetTokenWhereMissingEmailChangesNothing(users, email, storedToken.value);
      }
      users := SetTokenWhereEmail(users, email, storedToken.value);
      assert users[id].email == row.email && matches(password, users[id].password);
      r := Success(Registered(id, row, tokens.value));
    }

    /**
     * logIn: an unknown email and a wrong password give the same NotFound
     * error; a missing refresh secret fails after the password check, and so
     * does a signed refresh token the column refuses; in every failure no
     * row changes. On success only the refresh token of the row with that
     * email changes, to the returned one as the column stores it.
     */
    method LogIn(email: string, password: string, refreshSecret: Option<string>)
      returns (r: Result<LoggedIn, AuthError>)
      requires email != []
      requires Valid()
      modifies this
      ensures Valid()
      ensures !CredentialsMatch(old(users), matches, email, password) ==>
        r == Failure(NotFound(BadCredentialsMessage)) && users == old(users)
      ensures CredentialsMatch(old(users), matches, email, password) && SecretMissing(refreshSecret) ==>
        r == Failure(Failed(MissingSecretMessage)) && users == old(users)
      ensures CredentialsMatch(old(users), matches, email, password) && !SecretMissing(refreshSecret) ==>
        var id := IdOf(old(users), email);
        var tokens := GenerateTokens(sign, Claims(id, email), refreshSecret).value;
        match ToColumn(tokens.refreshToken)
        case None => r == Failure(Failed(ValueTooLongMessage)) && users == old(users)
        case Some(stored) =>
          && r == Success(LoggedIn(id, email, old(users)[id].password, tokens))
          && matches(password, old(users)[id].password)
          && users == old(users)[id := old(users)[id].(refreshToken := stored)]
    {
      var existing := IsUserExisting(email);
      if existing.None? {
        return Failure(NotFound(BadCredentialsMessage));
      }
      var id := existing.value;
      var row := users[id];
      assert id == IdOf(users, email);
      if !matches(password, row.password) {
        return Failure(NotFound(BadCredentialsMessage));
      }
      var tokens := GenerateTokens(sign, Claims(id, row.email), refreshSecret);
      if tokens.Failure? {
        return Failure(tokens.error);
      }
      var storedToken := ToColumn(tokens.value.refreshToken);
      if storedToken.None? {
        return Failure(Failed(ValueTooLongMessage));
      }
      SetTokenWhereEmailIsRowUpdate(users, id, storedToken.value);
      SetTokenKeepsEmailsUnique(users, id, storedToken.value);
      users := SetTokenWhereEmail(users, email, storedToken.value);
      r := Success(LoggedIn(id, row.email, row.password, tokens.value));
    }

    /**
     * A registration that fails for any reason but a taken email, followed
     * by a log-in with the same email, password and refresh secret: the
     * log-in fails too (and, by LogIn's contract, changes nothing).
     */
    method RegisterThenLogIn(name: string, email: string, password: string, salt: nat, refreshSecret: Option<string>)
      returns (registered: Result<Registered, AuthError>, loggedIn: Result<LoggedIn, AuthError>)
      requires email != []
      requires Valid()
      modifies this
      ensures Valid()
      ensures registered.Failure? && !registered.error.Conflict? ==> loggedIn.Failure?
    {
      registered := Register(name, email, password, salt, refreshSecret);
      loggedIn := LogIn(email, password, refreshSecret);
    }

    /** logOut: blanks the refresh token of the row with that id, if any; always reports success. */
    method LogOut(userId: UserId) returns (success: bool)
      requires Valid()
      modifies this
      ensures Valid()
      ensures users == if userId in old(users)
                       then old(users)[userId := old(users)[userId].(refreshToken := "")]
                       else old(users)
      ensures success
    {
      SetTokenWhereIdIsRowUpdate(users, userId, "");
      if userId in users {
        SetTokenKeepsEmailsUnique(users, userId, "");
      }
      users := SetTokenWhereId(users, userId, "");
      success := true;
    }
  }
}
