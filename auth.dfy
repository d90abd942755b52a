/**
 * The authentication service: sign-up inserts a user under a unique email, sign-in checks a
 * password against the stored digest, and both answer with a signed session token.
 */
module Auth {
  import opened Wrappers
  import opened Common
  import opened Credentials

  datatype AuthDto = AuthDto(email: string, password: string)
  datatype User = User(id: Id, email: string, passwordHash: Digest)
  datatype AccessToken = AccessToken(accessToken: string)

  const CredentialsTaken: Exception := Forbidden("Credentials taken")
  const CredentialsIncorrect: Exception := Forbidden("Credentials incorrect")
  /** Lifetime of a session token, in the signer's notation. */
  const TokenLifetime: string := "15m"

  /**
   * The user table is keyed by email, so an email names at most one user; every id is below
   * `nextUserId` and no two users share an id.
   */
  ghost predicate UsersWellFormed(users: map<string, User>, nextUserId: nat) {
    && (forall e :: e in users ==> users[e].email == e && users[e].id < nextUserId)
    && (forall e1, e2 :: e1 in users && e2 in users && users[e1].id == users[e2].id ==> e1 == e2)
  }

  /** The exception sign-up throws for a failed insert: only a unique-constraint violation is translated. */
  function SignupError(e: StoreError): (r: Exception)
    ensures IsUniqueViolation(e) ==> r == CredentialsTaken
    ensures !IsUniqueViolation(e) ==> r == Rethrown(e)
  {
    if e.KnownRequestError? && e.code == UniqueConstraintFailed then CredentialsTaken else Rethrown(e)
  }

  class AuthService {
    const hasher: PasswordHasher
    const signer: TokenSigner
    /** The signing secret, read once from the configuration. */
    const jwtSecret: string
    /** The user table, keyed by the unique email. */
    var users: map<string, User>
    var nextUserId: nat

    ghost predicate Valid()
      reads this
    {
      hasher.Sound() && signer.Sound() && UsersWellFormed(users, nextUserId)
    }

    constructor(hasher: PasswordHasher, signer: TokenSigner, jwtSecret: string)
      requires hasher.Sound() && signer.Sound()
      ensures Valid() && users == map[]
      ensures this.hasher == hasher && this.signer == signer && this.jwtSecret == jwtSecret
    {
      this.hasher := hasher;
      this.signer := signer;
      this.jwtSecret := jwtSecret;
      users := map[];
      nextUserId := 0;
    }

    /** The user with that email, if any. */
    function FindUser(email: string): (r: Option<User>)
      reads this
      ensures r.Some? <==> email in users
      ensures r.Some? ==> r.value == users[email]
    {
      if email in users then Some(users[email]) else None
    }

    /**
     * The record store's insert. `fault` is a store failure raised by the environment; without
     * one, the insert fails exactly when the email is already taken.
     */
    method CreateUser(email: string, passwordHash: Digest, fault: Option<StoreError>) returns (r: Result<User, StoreError>)
      requires Valid()
      modifies this
      ensures Valid()
      ensures fault.Some? ==> r == Failure(fault.value)
      ensures fault.None? && email in old(users) ==> r == Failure(KnownRequestError(UniqueConstraintFailed))
      ensures r.Failure? ==> users == old(users) && nextUserId == old(nextUserId)
      ensures r.Success? <==> fault.None? && email !in old(users)
      ensures r.Success? ==> r.value.email == email && r.value.passwordHash == passwordHash
      ensures r.Success? ==> forall e :: e in old(users) ==> old(users)[e].id != r.value.id
      ensures r.Success? ==> users == old(users)[email := r.value]
    {
      if fault.Some? {
        return Failure(fault.value);
      }
      if email in users {
        return Failure(KnownRequestError(UniqueConstraintFailed));
      }
      var user := User(nextUserId, email, passwordHash);
      users := users[email := user];
      nextUserId := nextUserId + 1;
      r := Success(user);
    }

    /** A token whose verified claims are exactly the user's id and email with the 15-minute lifetime. */
    function SignToken(userId: Id, email: string): (r: AccessToken)
      requires signer.Sound()
      ensures signer.verify(r.accessToken, jwtSecret) == Some(Claims(Payload(userId, email), TokenLifetime))
    {
      AccessToken(signer.sign(Payload(userId, email), SignOptions(TokenLifetime, jwtSecret)))
    }

    /**
     * Sign-in reads the table and nothing else. An unknown email and a wrong password give the
     * same exception.
     */
    function Signin(dto: AuthDto): (r: Result<AccessToken, Exception>)
      reads this
      requires Valid()
      ensures r.Failure? ==> r.error == CredentialsIncorrect
      ensures r.Success? <==> dto.email in users && hasher.verify(users[dto.email].passwordHash, dto.password)
      ensures r.Success? ==> signer.verify(r.value.accessToken, jwtSecret) == Some(Claims(Payload(users[dto.email].id, dto.email), TokenLifetime))
    {
      var user := FindUser(dto.email);
      if user.None? then Failure(CredentialsIncorrect)
      else if !hasher.verify(user.value.passwordHash, dto.password) then Failure(CredentialsIncorrect)
      else Success(SignToken(user.value.id, user.value.email))
    }

    /**
     * Sign-up hashes the password with a fresh `salt`, inserts the user and signs a token for it.
     * `fault` is a store failure the environment may raise during the insert.
     */
    method Signup(dto: AuthDto, salt: Salt, fault: Option<StoreError>) returns (r: Result<AccessToken, Exception>)
      requires Valid()
      modifies this
      ensures Valid()
      ensures r.Success? <==> fault.None? && dto.email !in old(users)
      ensures fault.None? && dto.email in old(users) ==> r == Failure(CredentialsTaken)
      ensures fault.Some? ==> r == Failure(SignupError(fault.value))
      ensures r.Failure? ==> users == old(users) && nextUserId == old(nextUserId)
      ensures r.Success? ==>
        && dto.email in users
        && users == old(users)[dto.email := users[dto.email]]
        && users[dto.email].passwordHash == hasher.hash(salt, dto.password)
        && (forall e :: e in old(users) ==> old(users)[e].id != users[dto.email].id)
        && r.value == SignToken(users[dto.email].id, dto.email)
      ensures r.Success? ==> Signin(dto).Success?
      ensures r.Success? ==>
        signer.verify(Signin(dto).value.accessToken, jwtSecret) == signer.verify(r.value.accessToken, jwtSecret)
    {
      var hash := hasher.hash(salt, dto.password);
      var created := CreateUser(dto.email, hash, fault);
      if created.Failure? {
        return Failure(SignupError(created.error));
      }
      var user := created.value;
      r := Success(SignToken(user.id, user.email));
    }
  }

  /** Distinct subjects never receive the same token. */
  lemma TokenIdentifiesSubject(s: AuthService, id1: Id, email1: string, id2: Id, email2: string)
    requires s.signer.Sound()
    requires s.SignToken(id1, email1) == s.SignToken(id2, email2)
    ensures id1 == id2 && email1 == email2
  {
  }
}
