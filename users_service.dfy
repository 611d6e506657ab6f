/** The users service: registration, login, role assignment and profile update
    over a store of user rows.

    The store is a table of `UserRecord` rows in insertion order, with ids drawn
    from a counter. A query by a column returns the first matching row; under
    `TableInvariant` at most one row matches (`EmailLookupIsExact`,
    `IdLookupIsExact`), so that row is the one `findOne` returns. `Register`
    creates a new `User` entity and inserts its row; `AssignRole` and
    `UpdateProfile` load a row into a fresh `User`, change it, and write it
    back; `Login` loads a row and only reads it. Failures are
    `Failure` results carrying the exception the service throws; a failing
    operation leaves the store as it was. */
module Users {
  import opened Wrappers
  import opened EmailNormalization
  import opened PasswordRules
  import opened UserEntity
  import opened Chars

  /** A user as returned to callers: the row without its password hash. */
  datatype PublicUser = PublicUser(id: UserId, email: string, displayName: string, role: UserRole)

  /** The exceptions the service raises. */
  datatype ServiceError =
    | Conflict                          // email already registered
    | BadRequest(violations: seq<Rule>) // password requirements not met
    | Unauthorized                      // invalid credentials
    | NotFound                          // user not found

  /** The outcome of the password rules: `valid` and the ordered list of broken rules. */
  datatype PasswordCheck = PasswordCheck(valid: bool, errors: seq<Rule>)

  /** `stripSensitive`: the row without its password hash. */
  function StripSensitive(row: UserRecord): PublicUser {
    PublicUser(row.id, row.email, row.displayName, row.role)
  }

  /** `errors.join(', ')`: the rule names separated by a comma and a space. */
  function JoinNames(rules: seq<Rule>): (r: string)
    ensures r == "" <==> rules == []
  {
    if rules == [] then ""
    else if |rules| == 1 then RuleName(rules[0])
    else RuleName(rules[0]) + ", " + JoinNames(rules[1..])
  }

  /** The message each exception carries. */
  function Message(e: ServiceError): string {
    match e
    case Conflict => "Email already registered"
    case BadRequest(violations) => "Password requirements not met: " + JoinNames(violations)
    case Unauthorized => "Invalid credentials"
    case NotFound => "User not found"
  }

  /** The text carried by a BadRequest for the report minLength, uppercase, digit, specialChar. */
  lemma FourRuleMessage()
    ensures Message(BadRequest([MinLength, Uppercase, Digit, SpecialChar])) ==
      "Password requirements not met: " +
      ("minLength" + (", " + ("uppercase" + (", " + ("digit" + (", " + "specialChar"))))))
  {
    var vs: seq<Rule> := [MinLength, Uppercase, Digit, SpecialChar];
    assert vs[1..] == [Uppercase, Digit, SpecialChar];
    assert vs[1..][1..] == [Digit, SpecialChar];
    assert vs[1..][1..][1..] == [SpecialChar];
  }

  /** The text of the BadRequest that `register` raises for the weak password `short`:
      the rule names in report order, separated by a comma and a space. */
  lemma ShortPasswordMessage()
    ensures Message(BadRequest(Violations("short"))) ==
      "Password requirements not met: " +
      ("minLength" + (", " + ("uppercase" + (", " + ("digit" + (", " + "specialChar"))))))
  {
    ShortExample();
    FourRuleMessage();
  }

  /** Some row has this email. */
  predicate EmailTaken(rows: seq<UserRecord>, email: string) {
    exists k :: 0 <= k < |rows| && rows[k].email == email
  }

  /** Some row has this id. */
  predicate IdExists(rows: seq<UserRecord>, id: UserId) {
    exists k :: 0 <= k < |rows| && rows[k].id == id
  }

  /** `findOne({ where: { email } })`: the position of the first row with this email. */
  function IndexOfEmail(rows: seq<UserRecord>, email: string): (r: Option<nat>)
    ensures r.None? <==> !EmailTaken(rows, email)
    ensures r.Some? ==>
              r.value < |rows| && rows[r.value].email == email &&
              forall k :: 0 <= k < r.value ==> rows[k].email != email
  {
    if rows == [] then None
    else if rows[0].email == email then Some(0)
    else match IndexOfEmail(rows[1..], email)
      case None => None
      case Some(i) => Some(i + 1)
  }

  /** `findOne({ where: { id } })`: the position of the first row with this id. */
  function IndexOfId(rows: seq<UserRecord>, id: UserId): (r: Option<nat>)
    ensures r.None? <==> !IdExists(rows, id)
    ensures r.Some? ==>
              r.value < |rows| && rows[r.value].id == id &&
              forall k :: 0 <= k < r.value ==> rows[k].id != id
  {
    if rows == [] then None
    else if rows[0].id == id then Some(0)
    else match IndexOfId(rows[1..], id)
      case None => None
      case Some(i) => Some(i + 1)
  }

  /** What the store keeps true: ids are below the id counter and unique, emails
      are unique (the column is declared unique) and stored in normal form. */
  ghost predicate TableInvariant(rows: seq<UserRecord>, nextId: UserId) {
    (forall k :: 0 <= k < |rows| ==> rows[k].id < nextId && IsNormalEmail(rows[k].email)) &&
    (forall i, j :: 0 <= i < j < |rows| ==> rows[i].id != rows[j].id && rows[i].email != rows[j].email)
  }

  /** In a well-formed table a lookup by email finds the only row with that email. */
  lemma EmailLookupIsExact(rows: seq<UserRecord>, nextId: UserId, email: string, k: nat)
    requires TableInvariant(rows, nextId)
    requires k < |rows| && rows[k].email == email
    ensures IndexOfEmail(rows, email) == Some(k)
  {
  }

  /** In a well-formed table a lookup by id finds the only row with that id. */
  lemma IdLookupIsExact(rows: seq<UserRecord>, nextId: UserId, id: UserId, k: nat)
    requires TableInvariant(rows, nextId)
    requires k < |rows| && rows[k].id == id
    ensures IndexOfId(rows, id) == Some(k)
  {
  }

  /** Appending a row with a fresh id and a fresh normal-form email keeps the table well formed. */
  lemma AppendKeepsInvariant(rows: seq<UserRecord>, nextId: UserId, row: UserRecord)
    requires TableInvariant(rows, nextId)
    requires row.id == nextId && IsNormalEmail(row.email) && !EmailTaken(rows, row.email)
    ensures TableInvariant(rows + [row], nextId + 1)
  {
    var rows' := rows + [row];
    forall i, j | 0 <= i < j < |rows'|
      ensures rows'[i].id != rows'[j].id && rows'[i].email != rows'[j].email
    {
      if j == |rows| {
        assert rows'[i] == rows[i];
      }
    }
  }

  /** Replacing a row by one with the same id and email keeps the table well formed. */
  lemma ReplaceKeepsInvariant(rows: seq<UserRecord>, nextId: UserId, k: nat, row: UserRecord)
    requires TableInvariant(rows, nextId)
    requires k < |rows| && row.id == rows[k].id && row.email == rows[k].email
    ensures TableInvariant(rows[k := row], nextId)
  {
  }

  /** After a registration appends its row, a lookup by the stored email finds that
      row: a user who just registered is the one a login with that email reaches. */
  lemma {:induction false} RegisteredRowIsFound(rows: seq<UserRecord>, row: UserRecord)
    requires !EmailTaken(rows, row.email)
    ensures IndexOfEmail(rows + [row], row.email) == Some(|rows|)
  {
    if rows != [] {
      assert (rows + [row])[1..] == rows[1..] + [row];
      assert !EmailTaken(rows[1..], row.email) by {
        forall k | 0 <= k < |rows| - 1 ensures rows[1..][k].email != row.email {
          assert rows[1..][k] == rows[k + 1];
        }
      }
      RegisteredRowIsFound(rows[1..], row);
    }
  }

  /** The in-memory user store and the operations of the service over it. */
  class UsersService {
    /** The password hash function (`User.hashPassword`). */
    const hash: Hasher
    /** The user table, in insertion order. */
    var rows: seq<UserRecord>
    /** The id the next inserted row receives. */
    var nextId: UserId

    ghost predicate Valid()
      reads this
    {
      TableInvariant(rows, nextId)
    }

    constructor (hash: Hasher)
      ensures Valid() && this.hash == hash && rows == [] && nextId == 0
    {
      this.hash := hash;
      rows, nextId := [], 0;
    }

    /** `validatePasswordRules`: checks the five rules one after another and
        collects the broken ones; the password is valid exactly when none is broken. */
    method ValidatePasswordRules(password: string) returns (result: PasswordCheck)
      ensures result.errors == Violations(password)
      ensures result.valid <==> IsStrong(password)
      ensures result.valid <==> result.errors == []
    {
      var errors: seq<Rule> := [];
      assert AllRules[..0] == [];
      if Utf16Length(password) < MinPasswordLength { errors := errors + [MinLength]; }
      Checked(password, 0);
      assert errors == ViolatedAmong(AllRules[..1], password);
      if !HasUpper(password) { errors := errors + [Uppercase]; }
      Checked(password, 1);
      assert errors == ViolatedAmong(AllRules[..2], password);
      if !HasLower(password) { errors := errors + [Lowercase]; }
      Checked(password, 2);
      assert errors == ViolatedAmong(AllRules[..3], password);
      if !HasDigit(password) { errors := errors + [Digit]; }
      Checked(password, 3);
      assert errors == ViolatedAmong(AllRules[..4], password);
      if !HasSpecial(password) { errors := errors + [SpecialChar]; }
      Checked(password, 4);
      assert AllRules[..5] == AllRules;
      assert errors == Violations(password);
      NoViolationsIffStrong(password);
      result := PasswordCheck(|errors| == 0, errors);
    }

    /** `ensureEmailIsUnique`: succeeds exactly when no row has the email. */
    method EnsureEmailIsUnique(email: string) returns (outcome: Result<(), ServiceError>)
      ensures outcome.Success? <==> !EmailTaken(rows, email)
      ensures outcome.Failure? ==> outcome.error == Conflict
    {
      var existing := IndexOfEmail(rows, email);
      if existing.Some? {
        return Failure(Conflict);
      }
      return Success(());
    }

    /** `repo.save` of a new entity: the store assigns the next id and appends the row. */
    method Insert(entity: User) returns (saved: UserRecord)
      modifies this, entity
      ensures saved == old(entity.Record()).(id := old(nextId))
      ensures entity.Record() == saved
      ensures rows == old(rows) + [saved] && nextId == old(nextId) + 1
    {
      entity.id := nextId;
      saved := entity.Record();
      rows := rows + [saved];
      nextId := nextId + 1;
    }

    /** `repo.save` of a loaded entity: the row at position `k` is written back. */
    method Update(k: nat, entity: User) returns (saved: UserRecord)
      requires k < |rows|
      modifies this
      ensures saved == entity.Record()
      ensures rows == old(rows)[k := saved] && nextId == old(nextId)
    {
      saved := entity.Record();
      rows := rows[k := saved];
    }

    /** `register`. The email is normalised first; an email already taken fails
        with Conflict before the password is looked at; a weak password fails
        with BadRequest listing the broken rules; otherwise exactly one row is
        appended, holding the normalised email, the trimmed display name, the
        given role or STUDENT, and the digest of the password. */
    method Register(email: string, displayName: string, password: string, role: Option<UserRole>)
      returns (r: Result<PublicUser, ServiceError>)
      requires Valid()
      modifies this
      ensures Valid()
      ensures EmailTaken(old(rows), NormalizeEmail(email)) ==>
        r == Failure(Conflict) && rows == old(rows) && nextId == old(nextId)
      ensures !EmailTaken(old(rows), NormalizeEmail(email)) && !IsStrong(password) ==>
        r == Failure(BadRequest(Violations(password))) && rows == old(rows) && nextId == old(nextId)
      ensures !EmailTaken(old(rows), NormalizeEmail(email)) && IsStrong(password) ==>
        var row := UserRecord(old(nextId), NormalizeEmail(email), Trim(displayName),
                              role.GetOr(DefaultRole), hash(password));
        rows == old(rows) + [row] && nextId == old(nextId) + 1 && r == Success(StripSensitive(row))
    {
      var normalizedEmail := NormalizeEmail(email);
      var unique := EnsureEmailIsUnique(normalizedEmail);
      if unique.Failure? {
        return Failure(unique.error);
      }

      var passwordResult := ValidatePasswordRules(password);
      if !passwordResult.valid {
        return Failure(BadRequest(passwordResult.errors));
      }

      var entity := new User();
      entity.email := normalizedEmail;
      entity.displayName := Trim(displayName);
      entity.role := role.GetOr(DefaultRole);
      entity.SetPassword(password, hash);

      NormalizeEmailSpec(email);
      AppendKeepsInvariant(rows, nextId, entity.Record().(id := nextId));
      var saved := Insert(entity);
      r := Success(StripSensitive(saved));
    }

    /** `create`: the same as `register`. */
    method Create(email: string, displayName: string, password: string, role: Option<UserRole>)
      returns (r: Result<PublicUser, ServiceError>)
      requires Valid()
      modifies this
      ensures Valid()
      ensures EmailTaken(old(rows), NormalizeEmail(email)) ==>
        r == Failure(Conflict) && rows == old(rows) && nextId == old(nextId)
      ensures !EmailTaken(old(rows), NormalizeEmail(email)) && !IsStrong(password) ==>
        r == Failure(BadRequest(Violations(password))) && rows == old(rows) && nextId == old(nextId)
      ensures !EmailTaken(old(rows), NormalizeEmail(email)) && IsStrong(password) ==>
        var row := UserRecord(old(nextId), NormalizeEmail(email), Trim(displayName),
                              role.GetOr(DefaultRole), hash(password));
        rows == old(rows) + [row] && nextId == old(nextId) + 1 && r == Success(StripSensitive(row))
    {
      r := Register(email, displayName, password, role);
    }

    /** `login`. Fails with Unauthorized when no user has the normalised email or
        the password does not verify against the stored hash; otherwise returns
        that user without the hash. The store is only read. */
    method Login(email: string, password: string) returns (r: Result<PublicUser, ServiceError>)
      requires Valid()
      ensures !EmailTaken(rows, NormalizeEmail(email)) ==> r == Failure(Unauthorized)
      ensures forall k :: 0 <= k < |rows| && rows[k].email == NormalizeEmail(email) ==>
        r == if PasswordMatches(rows[k].passwordHash, password, hash)
             then Success(StripSensitive(rows[k])) else Failure(Unauthorized)
    {
      var normalizedEmail := NormalizeEmail(email);
      var found := IndexOfEmail(rows, normalizedEmail);
      if found.None? {
        return Failure(Unauthorized);
      }
      var k := found.value;
      var user := new User.Load(rows[k]);
      if !user.VerifyPassword(password, hash) {
        r := Failure(Unauthorized);
      } else {
        r := Success(StripSensitive(user.Record()));
      }
      forall j | 0 <= j < |rows| && rows[j].email == normalizedEmail ensures j == k {
        EmailLookupIsExact(rows, nextId, normalizedEmail, j);
      }
    }

    /** `assignRole`. Fails with NotFound for an unknown id; otherwise changes
        that user's role and nothing else, and returns the user with the new role. */
    method AssignRole(userId: UserId, role: UserRole) returns (r: Result<PublicUser, ServiceError>)
      requires Valid()
      modifies this
      ensures Valid()
      ensures nextId == old(nextId)
      ensures !IdExists(old(rows), userId) ==> r == Failure(NotFound) && rows == old(rows)
      ensures forall k :: 0 <= k < |old(rows)| && old(rows)[k].id == userId ==>
        rows == old(rows)[k := old(rows)[k].(role := role)] &&
        r == Success(StripSensitive(rows[k])) && r.value.role == role
    {
      var found := IndexOfId(rows, userId);
      if found.None? {
        return Failure(NotFound);
      }
      var k := found.value;
      var user := new User.Load(rows[k]);
      user.role := role;
      ReplaceKeepsInvariant(rows, nextId, k, user.Record());
      ghost var before := rows;
      var saved := Update(k, user);
      r := Success(StripSensitive(saved));
      forall j | 0 <= j < |before| && before[j].id == userId ensures j == k {
        IdLookupIsExact(before, nextId, userId, j);
      }
    }

    /** `updateProfile`. Fails with NotFound for an unknown id. A supplied display
        name is stored trimmed. A supplied non-empty password must pass the rules,
        otherwise the call fails with BadRequest and nothing is saved (not even the
        new display name); a passing one is stored as its digest. Email, role and
        id never change. */
    method UpdateProfile(userId: UserId, displayName: Option<string>, password: Option<string>)
      returns (r: Result<PublicUser, ServiceError>)
      requires Valid()
      modifies this
      ensures Valid()
      ensures nextId == old(nextId)
      ensures !IdExists(old(rows), userId) ==> r == Failure(NotFound) && rows == old(rows)
      ensures forall k :: 0 <= k < |old(rows)| && old(rows)[k].id == userId ==>
        var changesPassword := password.Some? && password.value != "";
        if changesPassword && !IsStrong(password.value) then
          r == Failure(BadRequest(Violations(password.value))) && rows == old(rows)
        else
          var row := old(rows)[k].(
            displayName := if displayName.Some? then Trim(displayName.value) else old(rows)[k].displayName,
            passwordHash := if changesPassword then hash(password.value) else old(rows)[k].passwordHash);
          rows == old(rows)[k := row] && r == Success(StripSensitive(row))
    {
      var found := IndexOfId(rows, userId);
      if found.None? {
        return Failure(NotFound);
      }
      var k := found.value;
      ghost var before := rows;
      forall j | 0 <= j < |before| && before[j].id == userId ensures j == k {
        IdLookupIsExact(before, nextId, userId, j);
      }

      var user := new User.Load(rows[k]);
      if displayName.Some? {
        user.displayName := Trim(displayName.value);
      }
      if password.Some? && password.value != "" {
        var result := ValidatePasswordRules(password.value);
        if !result.valid {
          return Failure(BadRequest(result.errors));
        }
        user.SetPassword(password.value, hash);
      }

      ReplaceKeepsInvariant(rows, nextId, k, user.Record());
      var saved := Update(k, user);
      r := Success(StripSensitive(saved));
    }

    /** `findOne` by id; the hash column is not selected. */
    method FindOne(userId: UserId) returns (r: Option<PublicUser>)
      requires Valid()
      ensures r.None? <==> !IdExists(rows, userId)
      ensures forall k :: 0 <= k < |rows| && rows[k].id == userId ==> r == Some(StripSensitive(rows[k]))
    {
      var found := IndexOfId(rows, userId);
      if found.None? {
        return None;
      }
      r := Some(StripSensitive(rows[found.value]));
      forall j | 0 <= j < |rows| && rows[j].id == userId ensures j == found.value {
        IdLookupIsExact(rows, nextId, userId, j);
      }
    }

    /** `findAll`; the hash column is not selected. */
    method FindAll() returns (users: seq<PublicUser>)
      ensures |users| == |rows|
      ensures forall k :: 0 <= k < |rows| ==> users[k] == StripSensitive(rows[k])
    {
      users := seq(|rows|, k requires 0 <= k < |rows| reads this => StripSensitive(rows[k]));
    }
  }

  /** One step of `validatePasswordRules`: after checking rule `i`, the list holds
      the broken rules among the first `i + 1`. */
  lemma Checked(password: string, i: nat)
    requires i < |AllRules|
    ensures ViolatedAmong(AllRules[..i + 1], password) ==
      ViolatedAmong(AllRules[..i], password) +
      (if Violates(AllRules[i], password) then [AllRules[i]] else [])
  {
    assert AllRules[..i + 1] == AllRules[..i] + [AllRules[i]];
    ViolatedAmongSnoc(AllRules[..i], AllRules[i], password);
  }
}
