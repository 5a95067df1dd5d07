/** Password checking and bearer-header validation. */
module Auth {
  import opened Common
  import opened PyStr
  import opened Database

  const BearerPrefix := "Bearer "

  /** The one token the service ever issues or accepts. */
  const StaticToken := "abc123"

  const InvalidToken := HttpError(401, "Invalid or missing token")

  /** The `IndexError` of `split(' ', 1)[1]`, which FastAPI turns into a 500. */
  const InternalError := HttpError(500, "Internal Server Error")

  /**
   * `authenticate_user`: look the email up and compare the digest of the
   * supplied password with the stored digest; the stored full name on a match.
   */
  function AuthenticateUser(users: seq<User>, sha256: Hasher, email: string, password: string): (fullName: Option<string>)
    ensures fullName.Some? ==>
              exists i :: 0 <= i < |users| && users[i] == User(fullName.value, email, sha256(password))
    ensures !EmailTaken(users, email) ==> fullName.None?
  {
    match GetUserByEmail(users, email)
    case Some(user) =>
      assert user == User(user.fullName, email, user.passwordHash);
      if user.passwordHash == sha256(password) then Some(user.fullName) else None
    case None => None
  }

  /** With unique emails: authenticated as `fullName` exactly when that user is stored with this digest. */
  lemma AuthenticateUserIff(users: seq<User>, sha256: Hasher, email: string, password: string, fullName: string)
    requires UniqueEmails(users)
    ensures AuthenticateUser(users, sha256, email, password) == Some(fullName)
            <==> exists i :: 0 <= i < |users| && users[i] == User(fullName, email, sha256(password))
  {
    if i :| 0 <= i < |users| && users[i] == User(fullName, email, sha256(password)) {
      GetUserByEmailFinds(users, i);
    }
  }

  /**
   * With unique emails: the lookup yields a non-empty full name exactly when a
   * user with that email, this digest and a non-empty full name is stored.
   */
  lemma AuthenticatedWithName(users: seq<User>, sha256: Hasher, email: string, password: string)
    requires UniqueEmails(users)
    ensures (AuthenticateUser(users, sha256, email, password).Some? &&
             AuthenticateUser(users, sha256, email, password).value != "")
            <==> exists i :: 0 <= i < |users| && users[i].email == email
                             && users[i].passwordHash == sha256(password) && users[i].fullName != ""
  {
    if i :| 0 <= i < |users| && users[i].email == email
            && users[i].passwordHash == sha256(password) && users[i].fullName != "" {
      GetUserByEmailFinds(users, i);
    }
  }

  /** A known email with a password whose digest differs from the stored one is refused. */
  lemma WrongPasswordRefused(users: seq<User>, sha256: Hasher, email: string, password: string, i: nat)
    requires UniqueEmails(users)
    requires i < |users| && users[i].email == email && users[i].passwordHash != sha256(password)
    ensures AuthenticateUser(users, sha256, email, password).None?
  {
    GetUserByEmailFinds(users, i);
  }

  /** After `add_user` under a fresh email, the same password authenticates as the new user. */
  lemma AuthenticateAfterAddUser(users: seq<User>, sha256: Hasher, fullName: string, email: string, password: string)
    requires !EmailTaken(users, email)
    ensures AuthenticateUser(users + [User(fullName, email, sha256(password))], sha256, email, password)
            == Some(fullName)
  {
    GetUserByEmailAfterAdd(users, User(fullName, email, sha256(password)), email);
  }

  /**
   * `get_current_token`: the header must be present and start with the exact,
   * case-sensitive "Bearer "; the token is what follows the first space and
   * must be the static token.
   */
  function GetCurrentToken(authorization: Option<string>): (r: Result<string>)
    ensures r.Ok? <==> authorization == Some(BearerPrefix + StaticToken)
    ensures r.Ok? ==> r.value == StaticToken
    ensures r.Err? ==> r.error == InvalidToken
  {
    if !Truthy(authorization) || !StartsWith(authorization.value, BearerPrefix) then
      Err(InvalidToken)
    else
      var header := authorization.value;
      var parts := SplitOnce(header, ' ');
      BearerSplit(header);
      if |parts| < 2 then Err(InternalError)
      else if parts[1] != StaticToken then Err(InvalidToken)
      else Ok(parts[1])
  }

  /** Splitting a "Bearer " header at its first space leaves the text after the 7-character prefix. */
  lemma BearerSplit(header: string)
    requires StartsWith(header, BearerPrefix)
    ensures SplitOnce(header, ' ') == ["Bearer", header[|BearerPrefix|..]]
  {
    assert header[6] == ' ';
    assert forall j :: 0 <= j < 6 ==> header[j] == "Bearer"[j];
    var i := Find(header, ' ');
    assert i.Some? && i.value == 6;
    assert header[..6] == "Bearer";
  }

  /** A header of "Bearer " and a token is accepted, giving the token back, exactly for the static token. */
  lemma TokenRoundTrip(token: string)
    ensures GetCurrentToken(Some(BearerPrefix + token)) ==
            if token == StaticToken then Ok(token) else Err(InvalidToken)
  {
    BearerSplit(BearerPrefix + token);
    assert (BearerPrefix + token)[|BearerPrefix|..] == token;
  }
}
