/** The `User` entity: its stored fields, the default role, and the password
    set/verify pair built on a hash function.

    The hash (`User.hashPassword` in `user.entity.ts`: SHA-256, as lower-case
    hex) is a parameter: a deterministic function from strings to strings. What
    the properties need of it is stated where they need it: `NonEmptyDigest`
    (no digest is the empty string, as no 64-character hex digest is) and
    `Injective` (distinct passwords give distinct digests). Injectivity stands
    for collision resistance: SHA-256 has collisions as a mathematical function,
    but none is known, and the password check relies on none being found.
    `AssumptionsSatisfiable` shows that the two can hold together. */
module UserEntity {

  datatype UserRole = Student | Admin

  /** The role a user gets when none is given. */
  const DefaultRole: UserRole := Student

  /** Ids are generated by the store on insert. */
  type UserId = nat

  type Hasher = string -> string

  /** Stands for a password hash that was never set (`undefined` in `user.entity.ts`);
      the empty string is treated the same way, as both are falsy. */
  const NoHash: string := ""

  /** No digest is the empty string, which stands for an unset hash. */
  ghost predicate NonEmptyDigest(hash: Hasher) {
    forall p :: hash(p) != NoHash
  }

  /** Distinct passwords have distinct digests. */
  ghost predicate Injective(hash: Hasher) {
    forall p, q :: hash(p) == hash(q) ==> p == q
  }

  /** Some hash meets both assumptions, so the lemmas that require them are not
      vacuous: prefixing a marker character is one. */
  lemma AssumptionsSatisfiable()
    ensures exists hash: Hasher :: NonEmptyDigest(hash) && Injective(hash)
  {
    var hash: Hasher := p => "#" + p;
    forall p, q | hash(p) == hash(q) ensures p == q {
      assert p == hash(p)[1..] && q == hash(q)[1..];
    }
    assert NonEmptyDigest(hash) by {
      forall p ensures hash(p) != NoHash { assert |hash(p)| > 0; }
    }
  }

  /** A stored user row, as the store keeps it. */
  datatype UserRecord = UserRecord(
    id: UserId,
    email: string,
    displayName: string,
    role: UserRole,
    passwordHash: string)

  /** `verifyPassword` on a stored hash: a missing hash never matches; otherwise
      the hash must equal the digest of the candidate. */
  function PasswordMatches(storedHash: string, plain: string, hash: Hasher): bool {
    storedHash != NoHash && storedHash == hash(plain)
  }

  /** A user whose hash was never set cannot log in with any password. */
  lemma UnsetHashNeverMatches(plain: string, hash: Hasher)
    ensures !PasswordMatches(NoHash, plain, hash)
  {
  }

  /** Storing the digest of a password and then verifying with a candidate
      succeeds exactly for that password. */
  lemma StoredDigestMatchesOnlyItsPassword(password: string, candidate: string, hash: Hasher)
    requires NonEmptyDigest(hash) && Injective(hash)
    ensures PasswordMatches(hash(password), candidate, hash) <==> candidate == password
  {
  }

  class User {
    var id: UserId
    var email: string
    var displayName: string
    var role: UserRole
    var passwordHash: string

    /** `new User()`: the role defaults to STUDENT and no password hash is set.
        Id, email and display name are unset (empty here) until assigned. */
    constructor ()
      ensures role == DefaultRole && passwordHash == NoHash
      ensures id == 0 && email == "" && displayName == ""
    {
      id, email, displayName := 0, "", "";
      role := DefaultRole;
      passwordHash := NoHash;
    }

    /** An entity loaded from a stored row. */
    constructor Load(row: UserRecord)
      ensures Record() == row
    {
      id, email, displayName := row.id, row.email, row.displayName;
      role, passwordHash := row.role, row.passwordHash;
    }

    /** The row this entity is saved as. */
    function Record(): UserRecord
      reads this
    {
      UserRecord(id, email, displayName, role, passwordHash)
    }

    /** `setPassword`: stores the digest of `plain` and touches nothing else.
        Afterwards `plain` verifies (for a hash with non-empty
        digests), and for a collision-free one no other password does. */
    method SetPassword(plain: string, hash: Hasher)
      modifies this`passwordHash
      ensures passwordHash == hash(plain)
      ensures Record() == old(Record()).(passwordHash := hash(plain))
      ensures NonEmptyDigest(hash) ==> VerifyPassword(plain, hash)
      ensures NonEmptyDigest(hash) && Injective(hash) ==>
        forall q :: VerifyPassword(q, hash) <==> q == plain
    {
      passwordHash := hash(plain);
      forall q | NonEmptyDigest(hash) && Injective(hash)
        ensures VerifyPassword(q, hash) <==> q == plain
      {
        StoredDigestMatchesOnlyItsPassword(plain, q, hash);
      }
    }

    /** `verifyPassword`. */
    function VerifyPassword(plain: string, hash: Hasher): bool
      reads this
    {
      PasswordMatches(passwordHash, plain, hash)
    }
  }
}
