/** Sequences of service calls from the users service's tests, stated for all
    inputs of the same shape and proved from the operations' contracts alone. */
module UsersScenarios {
  import opened Wrappers
  import opened EmailNormalization
  import opened PasswordRules
  import opened UserEntity
  import opened Users

  /** A user who registers with a strong password can log in with that password
      under any spelling of the email that normalises to the same address; the
      login returns the registered user, with the default role. */
  method RegisterThenLogin(hash: Hasher, email: string, displayName: string, password: string,
                           loginEmail: string)
    returns (registered: Result<PublicUser, ServiceError>, loggedIn: Result<PublicUser, ServiceError>)
    requires NonEmptyDigest(hash)
    requires IsStrong(password)
    requires NormalizeEmail(loginEmail) == NormalizeEmail(email)
    ensures registered.Success? && loggedIn == registered
    ensures registered.value.email == NormalizeEmail(email)
    ensures registered.value.displayName == Trim(displayName)
    ensures registered.value.role == DefaultRole
  {
    var service := new UsersService(hash);
    registered := service.Register(email, displayName, password, None);
    assert !EmailTaken([], NormalizeEmail(email));
    assert service.rows[0].email == NormalizeEmail(loginEmail);
    loggedIn := service.Login(loginEmail, password);
  }

  /** A second registration under the same normalised email fails with Conflict,
      whatever its password, and stores nothing. */
  method RegisterTwice(hash: Hasher, email: string, password: string, otherEmail: string,
                       otherPassword: string)
    returns (first: Result<PublicUser, ServiceError>, second: Result<PublicUser, ServiceError>,
             count: nat)
    requires IsStrong(password)
    requires NormalizeEmail(otherEmail) == NormalizeEmail(email)
    ensures first.Success? && second == Failure(Conflict) && count == 1
  {
    var service := new UsersService(hash);
    first := service.Register(email, "Demo", password, None);
    assert !EmailTaken([], NormalizeEmail(email));
    assert service.rows[0].email == NormalizeEmail(otherEmail);
    second := service.Register(otherEmail, "Demo", otherPassword, None);
    count := |service.rows|;
  }

  /** With a collision-free hash, a login with any other password than the
      registered one fails with Unauthorized. */
  method LoginWithWrongPassword(hash: Hasher, email: string, password: string, wrong: string)
    returns (loggedIn: Result<PublicUser, ServiceError>)
    requires NonEmptyDigest(hash) && Injective(hash)
    requires IsStrong(password) && wrong != password
    ensures loggedIn == Failure(Unauthorized)
  {
    var service := new UsersService(hash);
    var registered := service.Register(email, "User", password, None);
    assert !EmailTaken([], NormalizeEmail(email));
    assert service.rows[0].email == NormalizeEmail(email);
    StoredDigestMatchesOnlyItsPassword(password, wrong, hash);
    loggedIn := service.Login(email, wrong);
  }

  /** Assigning a role to the registered user changes only the role: the user
      still logs in with the same password and now carries the new role. */
  method AssignRoleThenLogin(hash: Hasher, email: string, password: string, role: UserRole)
    returns (withRole: Result<PublicUser, ServiceError>, loggedIn: Result<PublicUser, ServiceError>)
    requires NonEmptyDigest(hash)
    requires IsStrong(password)
    ensures withRole.Success? && withRole.value.role == role
    ensures loggedIn == withRole
  {
    var service := new UsersService(hash);
    var registered := service.Register(email, "User", password, None);
    assert !EmailTaken([], NormalizeEmail(email));
    assert service.rows[0].id == registered.value.id;
    withRole := service.AssignRole(registered.value.id, role);
    assert service.rows[0].email == NormalizeEmail(email);
    loggedIn := service.Login(email, password);
  }

  /** A profile update whose new password breaks the rules fails with BadRequest
      and leaves the stored user, display name included, as it was. */
  method RejectedProfileUpdate(hash: Hasher, email: string, password: string, weak: string)
    returns (updated: Result<PublicUser, ServiceError>, storeKept: bool)
    requires IsStrong(password)
    requires weak != "" && !IsStrong(weak)
    ensures updated == Failure(BadRequest(Violations(weak)))
    ensures storeKept
  {
    var service := new UsersService(hash);
    var registered := service.Register(email, "Old", password, None);
    assert !EmailTaken([], NormalizeEmail(email));
    assert service.rows[0].id == registered.value.id;
    var before := service.rows;
    updated := service.UpdateProfile(registered.value.id, Some("New Name"), Some(weak));
    storeKept := service.rows == before;
  }
}
