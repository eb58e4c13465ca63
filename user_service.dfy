/** UserService (Shared/Services/UserService.cs): turns one flat UserDto operation into writes
    to the address, phone number, profile, role and user tables, and reads users back as
    flat UserDtos. Each mutating operation is specified by a function of the store before
    the call (CreateUserSpec, UpdateUserSpec, DeleteUserSpec); the lemmas below state what
    those functions do. `fault` stands for the store throwing on every call of the
    operation. */
module UserServices {
  import opened Wrappers
  import opened Entities
  import opened Dtos
  import opened Repositories
  import opened Contexts
  import UserRepositories

  // ---- role names and password digests ----

  function UpperChar(c: char): char
  {
    if 'a' <= c <= 'z' then (c as int - 32) as char else c
  }

  /** `string.ToUpper()` on ASCII letters. */
  function ToUpper(s: string): (r: string)
    ensures |r| == |s|
    ensures forall i :: 0 <= i < |r| ==> !('a' <= r[i] <= 'z')
    ensures forall i :: 0 <= i < |s| && !('a' <= s[i] <= 'z') ==> r[i] == s[i]
    ensures forall i :: 0 <= i < |s| && 'a' <= s[i] <= 'z' ==> r[i] as int == s[i] as int - 32
  {
    seq(|s|, i requires 0 <= i < |s| => UpperChar(s[i]))
  }

  predicate IsBase64Char(c: char)
  {
    'A' <= c <= 'Z' || 'a' <= c <= 'z' || '0' <= c <= '9' || c == '+' || c == '/'
  }

  /** The shape of `Convert.ToBase64String` of a 32-byte HMACSHA256 value: 43 Base64 digits
      and one `=` of padding. */
  predicate IsDigest(h: string)
  {
    |h| == 44 && h[43] == '=' && forall i :: 0 <= i < 43 ==> IsBase64Char(h[i])
  }

  /** Digests exist (43 `A`s and a `=`, say), so a hash can always be produced. */
  lemma DigestExists()
    ensures exists h :: IsDigest(h)
  {
    var h := seq(43, i => 'A') + "=";
    assert IsDigest(h);
  }

  // ---- the read paths ----

  /** CheckIfUserExistsAsync (UserService.cs:165-174). */
  function CheckIfUserExists(db: UserDb, email: string, fault: bool): bool
  {
    Repositories.Exists(db.users, EmailIs(email), fault)
  }

  /** A user is reported to exist exactly when the store answers and a stored user has the
      email. */
  lemma CheckIfUserExistsIff(db: UserDb, email: string, fault: bool)
    ensures CheckIfUserExists(db, email, fault) <==>
      !fault && exists j :: 0 <= j < |db.users.rows| && db.users.rows[j].email == email
  {
    ExistsIff(db.users, EmailIs(email), fault);
  }

  /** The flat view GetAllUsers builds of one hydrated user (UserService.cs:80-90); the
      password is left unset. */
  function UserView(lu: LoadedUser): UserDto
  {
    UserDto(lu.profile.firstName, lu.profile.lastName, lu.user.email, None,
            lu.role.roleName, lu.phoneNumber.phoneNumber, lu.address.streetName,
            lu.address.postalCode, lu.address.city)
  }

  // ---- the write paths, as functions of the store ----

  /** CreateUser (UserService.cs:21-66). `digest` is what GenerateSecurePassword produced. */
  function CreateUserSpec(db: UserDb, dto: UserDto, fault: bool, digest: string): Step<UserDb, bool>
  {
    if CheckIfUserExists(db, dto.email, fault) then Step(db, false)
    else
      var a := CreateStep(AddressSchema, db.addresses, Address(0, dto.streetName, dto.postalCode, dto.city), fault);
      var n := CreateStep(PhoneNumberSchema, db.phoneNumbers, PhoneNumber(0, dto.phoneNumber), fault);
      var p := CreateStep(ProfileSchema, db.profiles, Profile(0, dto.firstName, dto.lastName), fault);
      var r := CreateStep(RoleSchema, db.roles, Role(0, ToUpper(dto.roleName)), fault);
      var db' := db.(addresses := a.state, phoneNumbers := n.state, profiles := p.state, roles := r.state);
      if dto.password.None? then Step(db', false)
      else
        var u := User(0, KeyAfter(ProfileSchema, p.result), KeyAfter(AddressSchema, a.result),
                      KeyAfter(RoleSchema, r.result), KeyAfter(PhoneNumberSchema, n.result), dto.email, digest);
        Step(db'.(users := CreateStep(UserSchema, db.users, u, fault).state), true)
  }

  /** UpdateUser (UserService.cs:100-142). The lookup at line 105 is not awaited, so the
      null check always passes; every update filters on the default key of a freshly built
      entity. */
  function UpdateUserSpec(db: UserDb, dto: UserDto, fault: bool, digest: string): Step<UserDb, bool>
  {
    var a := UpdateStep(AddressSchema, db.addresses, AddressIdIs(0), Address(0, dto.streetName, dto.postalCode, dto.city), fault);
    var n := UpdateStep(PhoneNumberSchema, db.phoneNumbers, PhoneNumberIdIs(0), PhoneNumber(0, dto.phoneNumber), fault);
    var r := UpdateStep(RoleSchema, db.roles, RoleIdIs(0), Role(0, dto.roleName), fault);
    var p := UpdateStep(ProfileSchema, db.profiles, ProfileIdIs(0), Profile(0, dto.firstName, dto.lastName), fault);
    var db' := db.(addresses := a.state, phoneNumbers := n.state, profiles := p.state, roles := r.state);
    if dto.password.None? then Step(db', false)
    else
      var u := User(0, 0, 0, 0, 0, dto.email, digest);
      Step(db'.(users := UpdateStep(UserSchema, db.users, UserIdIs(0), u, fault).state), true)
  }

  /** DeleteUser (UserService.cs:143-164): deletes by the keys read off the fetched user. */
  function DeleteUserSpec(db: UserDb, dto: UserDto, fault: bool): Step<UserDb, bool>
  {
    match UserRepositories.GetOne(db, EmailIs(dto.email), fault)
    case None => Step(db, false)
    case Some(found) =>
      var u := found.user;
      Step(UserDb(DeleteStep(db.addresses, AddressIdIs(u.addressId), fault).state,
                  DeleteStep(db.phoneNumbers, PhoneNumberIdIs(u.phoneNumberId), fault).state,
                  DeleteStep(db.profiles, ProfileIdIs(u.profileId), fault).state,
                  DeleteStep(db.roles, RoleIdIs(u.roleId), fault).state,
                  DeleteStep(db.users, UserIdIs(u.userId), fault).state),
           true)
  }

  // ---- the coordinator object ----

  class UserService {
    const addressRepository: BaseRepository<Address>
    const phoneNumberRepository: BaseRepository<PhoneNumber>
    const profileRepository: BaseRepository<Profile>
    const roleRepository: BaseRepository<Role>
    const userRepository: BaseRepository<User>

    function Db(): UserDb
      reads addressRepository, phoneNumberRepository, profileRepository, roleRepository, userRepository
    {
      UserDb(addressRepository.State(), phoneNumberRepository.State(), profileRepository.State(),
             roleRepository.State(), userRepository.State())
    }

    ghost predicate Valid()
      reads addressRepository, phoneNumberRepository, profileRepository, roleRepository, userRepository
    {
      && addressRepository.schema == AddressSchema
      && phoneNumberRepository.schema == PhoneNumberSchema
      && profileRepository.schema == ProfileSchema
      && roleRepository.schema == RoleSchema
      && userRepository.schema == UserSchema
    }

    constructor (addressRepository: BaseRepository<Address>, phoneNumberRepository: BaseRepository<PhoneNumber>,
                 profileRepository: BaseRepository<Profile>, roleRepository: BaseRepository<Role>,
                 userRepository: BaseRepository<User>)
      requires addressRepository.schema == AddressSchema && phoneNumberRepository.schema == PhoneNumberSchema
      requires profileRepository.schema == ProfileSchema && roleRepository.schema == RoleSchema
      requires userRepository.schema == UserSchema
      ensures Valid()
      ensures this.addressRepository == addressRepository && this.phoneNumberRepository == phoneNumberRepository
      ensures this.profileRepository == profileRepository && this.roleRepository == roleRepository
      ensures this.userRepository == userRepository
    {
      this.addressRepository := addressRepository;
      this.phoneNumberRepository := phoneNumberRepository;
      this.profileRepository := profileRepository;
      this.roleRepository := roleRepository;
      this.userRepository := userRepository;
    }

    /** GenerateSecurePassword (UserService.cs:175-180): HMACSHA256 under a fresh random key,
        so the digest is not a function of the password; a null password throws. */
    method GenerateSecurePassword(password: Option<string>) returns (hash: Option<string>)
      ensures hash.Some? <==> password.Some?
      ensures hash.Some? ==> IsDigest(hash.value)
    {
      if password.None? {
        return None;
      }
      DigestExists();
      var h :| IsDigest(h);
      hash := Some(h);
    }

    method CreateUser(user: UserDto, fault: bool) returns (r: bool)
      requires Valid()
      modifies addressRepository, phoneNumberRepository, profileRepository, roleRepository, userRepository
      ensures exists digest :: IsDigest(digest) && Step(Db(), r) == CreateUserSpec(old(Db()), user, fault, digest)
    {
      ghost var db := Db();
      DigestExists();
      ghost var digest :| IsDigest(digest);
      if CheckIfUserExists(Db(), user.email, fault) {
        r := false;
      } else {
        var addressEntity := Address(0, user.streetName, user.postalCode, user.city);
        var a := addressRepository.Create(addressEntity, fault);
        ghost var addresses := addressRepository.State();
        var phoneNumberEntity := PhoneNumber(0, user.phoneNumber);
        var n := phoneNumberRepository.Create(phoneNumberEntity, fault);
        ghost var phoneNumbers := phoneNumberRepository.State();
        var profileEntity := Profile(0, user.firstName, user.lastName);
        var p := profileRepository.Create(profileEntity, fault);
        ghost var profiles := profileRepository.State();
        var roleEntity := Role(0, ToUpper(user.roleName));
        var ro := roleRepository.Create(roleEntity, fault);
        ghost var db' := db.(addresses := addresses, phoneNumbers := phoneNumbers, profiles := profiles,
                             roles := roleRepository.State());
        assert Db() == db';
        var password := GenerateSecurePassword(user.password);
        if password.None? {
          r := false;
        } else {
          digest := password.value;
          var userEntity := User(0, KeyAfter(ProfileSchema, p), KeyAfter(AddressSchema, a), KeyAfter(RoleSchema, ro),
                                 KeyAfter(PhoneNumberSchema, n), user.email, password.value);
          var created := userRepository.Create(userEntity, fault);
          assert Db() == db'.(users := userRepository.State());
          r := true;
        }
      }
      assert IsDigest(digest);
      assert Step(Db(), r) == CreateUserSpec(db, user, fault, digest);
    }

    /** GetAllUsers (UserService.cs:68-99): one view per joined user, in the order GetAll
        returns them, with the password unset; None exactly when the read fails. The inner
        join attaches all four dependents, so the projection never meets a missing one. */
    method GetAllUsers(fault: bool) returns (r: Option<seq<UserDto>>)
      ensures r.Some? <==> !fault
      ensures r.Some? ==> var loaded := UserRepositories.GetAll(Db(), false).value;
        && |r.value| == |loaded|
        && forall i :: 0 <= i < |r.value| ==> r.value[i] == UserView(loaded[i]) && r.value[i].password.None?
    {
      var result := UserRepositories.GetAll(Db(), fault);
      if result.None? {
        return None;
      }
      var items := result.value;
      var users: seq<UserDto> := [];
      for i := 0 to |items|
        invariant |users| == i
        invariant forall k :: 0 <= k < i ==> users[k] == UserView(items[k])
      {
        users := users + [UserView(items[i])];
      }
      r := Some(users);
    }

    method UpdateUser(user: UserDto, fault: bool) returns (r: bool)
      requires Valid()
      modifies addressRepository, phoneNumberRepository, profileRepository, roleRepository, userRepository
      ensures exists digest :: IsDigest(digest) && Step(Db(), r) == UpdateUserSpec(old(Db()), user, fault, digest)
    {
      ghost var db := Db();
      DigestExists();
      ghost var digest :| IsDigest(digest);
      // the lookup on line 105 is not awaited: the Task it yields is never null, so the test on line 106 always holds
      var addressEntity := Address(0, user.streetName, user.postalCode, user.city);
      var a := addressRepository.Update(AddressIdIs(addressEntity.addressId), addressEntity, fault);
      ghost var addresses := addressRepository.State();
      var phoneNumberEntity := PhoneNumber(0, user.phoneNumber);
      var n := phoneNumberRepository.Update(PhoneNumberIdIs(phoneNumberEntity.phoneNumberId), phoneNumberEntity, fault);
      ghost var phoneNumbers := phoneNumberRepository.State();
      var roleEntity := Role(0, user.roleName);
      var ro := roleRepository.Update(RoleIdIs(roleEntity.roleId), roleEntity, fault);
      ghost var roles := roleRepository.State();
      var profileEntity := Profile(0, user.firstName, user.lastName);
      var p := profileRepository.Update(ProfileIdIs(profileEntity.profileId), profileEntity, fault);
      ghost var db' := db.(addresses := addresses, phoneNumbers := phoneNumbers, profiles := profileRepository.State(),
                           roles := roles);
      assert Db() == db';
      var password := GenerateSecurePassword(user.password);
      if password.None? {
        r := false;
      } else {
        digest := password.value;
        var userEntity := User(0, 0, 0, 0, 0, user.email, password.value);
        var u := userRepository.Update(UserIdIs(userEntity.userId), userEntity, fault);
        assert Db() == db'.(users := userRepository.State());
        r := true;
      }
      assert IsDigest(digest);
      assert Step(Db(), r) == UpdateUserSpec(db, user, fault, digest);
    }

    method DeleteUser(user: UserDto, fault: bool) returns (r: bool)
      requires Valid()
      modifies addressRepository, phoneNumberRepository, profileRepository, roleRepository, userRepository
      ensures Step(Db(), r) == DeleteUserSpec(old(Db()), user, fault)
    {
      ghost var db := Db();
      var found := UserRepositories.GetOne(Db(), EmailIs(user.email), fault);
      if found.None? {
        return false;
      }
      var userEntity := found.value.user;
      var a := addressRepository.Delete(AddressIdIs(userEntity.addressId), fault);
      ghost var addresses := addressRepository.State();
      var n := phoneNumberRepository.Delete(PhoneNumberIdIs(userEntity.phoneNumberId), fault);
      ghost var phoneNumbers := phoneNumberRepository.State();
      var p := profileRepository.Delete(ProfileIdIs(userEntity.profileId), fault);
      ghost var profiles := profileRepository.State();
      var ro := roleRepository.Delete(RoleIdIs(userEntity.roleId), fault);
      ghost var roles := roleRepository.State();
      var u := userRepository.Delete(UserIdIs(userEntity.userId), fault);
      assert Db() == UserDb(addresses, phoneNumbers, profiles, roles, userRepository.State());
      r := true;
    }
  }

  // ---- what the operations do to the store ----

  /** Some stored role already has the name. */
  predicate RoleTaken(db: UserDb, name: string)
  {
    exists j :: 0 <= j < |db.roles.rows| && db.roles.rows[j].roleName == name
  }

  lemma CreateUserKeepsValid(db: UserDb, dto: UserDto, fault: bool, digest: string)
    requires ValidUserDb(db)
    ensures ValidUserDb(CreateUserSpec(db, dto, fault, digest).state)
  {
    if !CheckIfUserExists(db, dto.email, fault) {
      var a := CreateStep(AddressSchema, db.addresses, Address(0, dto.streetName, dto.postalCode, dto.city), fault);
      var n := CreateStep(PhoneNumberSchema, db.phoneNumbers, PhoneNumber(0, dto.phoneNumber), fault);
      var p := CreateStep(ProfileSchema, db.profiles, Profile(0, dto.firstName, dto.lastName), fault);
      var r := CreateStep(RoleSchema, db.roles, Role(0, ToUpper(dto.roleName)), fault);
      CreateKeepsConsistent(AddressSchema, db.addresses, Address(0, dto.streetName, dto.postalCode, dto.city), fault);
      CreateKeepsConsistent(PhoneNumberSchema, db.phoneNumbers, PhoneNumber(0, dto.phoneNumber), fault);
      CreateKeepsConsistent(ProfileSchema, db.profiles, Profile(0, dto.firstName, dto.lastName), fault);
      CreateKeepsConsistent(RoleSchema, db.roles, Role(0, ToUpper(dto.roleName)), fault);
      var u := User(0, KeyAfter(ProfileSchema, p.result), KeyAfter(AddressSchema, a.result),
                    KeyAfter(RoleSchema, r.result), KeyAfter(PhoneNumberSchema, n.result), dto.email, digest);
      CreateKeepsConsistent(UserSchema, db.users, u, fault);
    }
  }

  lemma UpdateUserKeepsValid(db: UserDb, dto: UserDto, fault: bool, digest: string)
    requires ValidUserDb(db)
    ensures ValidUserDb(UpdateUserSpec(db, dto, fault, digest).state)
  {
    UpdateKeepsConsistent(AddressSchema, db.addresses, AddressIdIs(0), Address(0, dto.streetName, dto.postalCode, dto.city), fault);
    UpdateKeepsConsistent(PhoneNumberSchema, db.phoneNumbers, PhoneNumberIdIs(0), PhoneNumber(0, dto.phoneNumber), fault);
    UpdateKeepsConsistent(RoleSchema, db.roles, RoleIdIs(0), Role(0, dto.roleName), fault);
    UpdateKeepsConsistent(ProfileSchema, db.profiles, ProfileIdIs(0), Profile(0, dto.firstName, dto.lastName), fault);
    UpdateKeepsConsistent(UserSchema, db.users, UserIdIs(0), User(0, 0, 0, 0, 0, dto.email, digest), fault);
  }

  lemma DeleteUserKeepsValid(db: UserDb, dto: UserDto, fault: bool)
    requires ValidUserDb(db)
    ensures ValidUserDb(DeleteUserSpec(db, dto, fault).state)
  {
    match UserRepositories.GetOne(db, EmailIs(dto.email), fault)
    case None =>
    case Some(found) =>
      var u := found.user;
      DeleteKeepsConsistent(AddressSchema, db.addresses, AddressIdIs(u.addressId), fault);
      DeleteKeepsConsistent(PhoneNumberSchema, db.phoneNumbers, PhoneNumberIdIs(u.phoneNumberId), fault);
      DeleteKeepsConsistent(ProfileSchema, db.profiles, ProfileIdIs(u.profileId), fault);
      DeleteKeepsConsistent(RoleSchema, db.roles, RoleIdIs(u.roleId), fault);
      DeleteKeepsConsistent(UserSchema, db.users, UserIdIs(u.userId), fault);
  }

  /** CreateUser reports success exactly when no user has the email yet and a password was
      given; a taken email writes nothing (UserService.cs:25-28). */
  lemma CreateUserResult(db: UserDb, dto: UserDto, fault: bool, digest: string)
    ensures CreateUserSpec(db, dto, fault, digest).result <==>
      !CheckIfUserExists(db, dto.email, fault) && dto.password.Some?
    ensures (exists j :: 0 <= j < |db.users.rows| && db.users.rows[j].email == dto.email) && !fault ==>
      CreateUserSpec(db, dto, fault, digest).state == db
  {
    CheckIfUserExistsIff(db, dto.email, fault);
  }

  /** With the store unreachable every write is swallowed: nothing changes, yet CreateUser
      reports success whenever a password was given, because the existence check answers
      false and the ignored Create results are never looked at. */
  lemma CreateUserOffline(db: UserDb, dto: UserDto, digest: string)
    ensures CreateUserSpec(db, dto, true, digest) == Step(db, dto.password.Some?)
  {
  }

  /** On a consistent store with the email free, CreateUser appends one address, phone number
      and profile carrying the DTO's fields under fresh keys, a role with the upper-cased
      name unless that name is taken, and, given a password, a user pointing at them through
      their keys (at role 0 when the role was refused) and carrying the digest. */
  lemma CreateUserAdds(db: UserDb, dto: UserDto, digest: string)
    requires ValidUserDb(db)
    requires !CheckIfUserExists(db, dto.email, false)
    ensures var st := CreateUserSpec(db, dto, false, digest).state;
            var taken := RoleTaken(db, ToUpper(dto.roleName));
      && st.addresses.rows == db.addresses.rows + [Address(db.addresses.nextKey, dto.streetName, dto.postalCode, dto.city)]
      && st.phoneNumbers.rows == db.phoneNumbers.rows + [PhoneNumber(db.phoneNumbers.nextKey, dto.phoneNumber)]
      && st.profiles.rows == db.profiles.rows + [Profile(db.profiles.nextKey, dto.firstName, dto.lastName)]
      && st.roles.rows == db.roles.rows + (if taken then [] else [Role(db.roles.nextKey, ToUpper(dto.roleName))])
      && st.users.rows == db.users.rows +
           (if dto.password.None? then []
            else [User(db.users.nextKey, db.profiles.nextKey, db.addresses.nextKey, if taken then 0 else db.roles.nextKey,
                       db.phoneNumbers.nextKey, dto.email, digest)])
  {
    CheckIfUserExistsIff(db, dto.email, false);
    var name := ToUpper(dto.roleName);
    CreateAppends(AddressSchema, db.addresses, Address(0, dto.streetName, dto.postalCode, dto.city), false);
    CreateAppends(PhoneNumberSchema, db.phoneNumbers, PhoneNumber(0, dto.phoneNumber), false);
    CreateAppends(ProfileSchema, db.profiles, Profile(0, dto.firstName, dto.lastName), false);
    CreateAppends(RoleSchema, db.roles, Role(0, name), false);
    var r := CreateStep(RoleSchema, db.roles, Role(0, name), false);
    assert r.result.None? <==> RoleTaken(db, name);
    if dto.password.Some? {
      var u := User(0, db.profiles.nextKey, db.addresses.nextKey, if RoleTaken(db, name) then 0 else db.roles.nextKey,
                    db.phoneNumbers.nextKey, dto.email, digest);
      CreateAppends(UserSchema, db.users, u, false);
    }
  }

  /** Creating a user and looking it up by email yields the DTO back, with the role name
      upper-cased and the password left unset, when the email and the upper-cased role name
      were free and a password was given. */
  lemma CreateUserRoundTrip(db: UserDb, dto: UserDto, digest: string)
    requires ValidUserDb(db)
    requires !CheckIfUserExists(db, dto.email, false) && !RoleTaken(db, ToUpper(dto.roleName))
    requires dto.password.Some?
    ensures var st := CreateUserSpec(db, dto, false, digest);
            var found := UserRepositories.GetOne(st.state, EmailIs(dto.email), false);
      && st.result
      && found.Some?
      && UserView(found.value) == dto.(password := None, roleName := ToUpper(dto.roleName))
  {
    CreateUserAdds(db, dto, digest);
    CreateUserKeepsValid(db, dto, false, digest);
    var st := CreateUserSpec(db, dto, false, digest).state;
    UserRepositories.GetOneByEmail(st, |db.users.rows|);
    LookupUnique(ProfileSchema, st.profiles, |db.profiles.rows|);
    LookupUnique(AddressSchema, st.addresses, |db.addresses.rows|);
    LookupUnique(RoleSchema, st.roles, |db.roles.rows|);
    LookupUnique(PhoneNumberSchema, st.phoneNumbers, |db.phoneNumbers.rows|);
  }

  /** When the upper-cased role name is already stored, the role insert is refused by the
      unique index and its result ignored: CreateUser still reports success and stores the
      user pointing at role 0, which no row has, so the inner join never returns it: it is
      neither found by email nor listed by GetAll. */
  lemma CreateUserTakenRole(db: UserDb, dto: UserDto, digest: string)
    requires ValidUserDb(db)
    requires !CheckIfUserExists(db, dto.email, false) && RoleTaken(db, ToUpper(dto.roleName))
    requires dto.password.Some?
    ensures var st := CreateUserSpec(db, dto, false, digest);
            var all := UserRepositories.GetAll(st.state, false).value;
      && st.result
      && st.state.roles == db.roles
      && |st.state.users.rows| == |db.users.rows| + 1
      && st.state.users.rows[|db.users.rows|].email == dto.email
      && st.state.users.rows[|db.users.rows|].roleId == 0
      && UserRepositories.GetOne(st.state, EmailIs(dto.email), false).None?
      && forall k :: 0 <= k < |all| ==> all[k].user.email != dto.email
  {
    CreateUserAdds(db, dto, digest);
    CreateUserKeepsValid(db, dto, false, digest);
    var st := CreateUserSpec(db, dto, false, digest).state;
    var n := |db.users.rows|;
    var u := st.users.rows[n];
    LookupFinds(RoleSchema, st.roles, Some(0));
    assert UserRepositories.Load(st, u).None?;
    UserRepositories.GetOneByEmail(st, n);
    var all := UserRepositories.GetAll(st, false).value;
    assert all == UserRepositories.JoinAll(st, st.users.rows);
    UserRepositories.JoinAllSound(st, st.users.rows);
  }

  /** Every update filters on key 0, which no stored row has, so on a consistent store
      UpdateUser writes nothing and reports success whenever a password was given. */
  lemma UpdateUserWritesNothing(db: UserDb, dto: UserDto, fault: bool, digest: string)
    requires ValidUserDb(db)
    ensures UpdateUserSpec(db, dto, fault, digest) == Step(db, dto.password.Some?)
  {
    UpdateOverwritesFirst(AddressSchema, db.addresses, AddressIdIs(0), Address(0, dto.streetName, dto.postalCode, dto.city), fault);
    UpdateOverwritesFirst(PhoneNumberSchema, db.phoneNumbers, PhoneNumberIdIs(0), PhoneNumber(0, dto.phoneNumber), fault);
    UpdateOverwritesFirst(RoleSchema, db.roles, RoleIdIs(0), Role(0, dto.roleName), fault);
    UpdateOverwritesFirst(ProfileSchema, db.profiles, ProfileIdIs(0), Profile(0, dto.firstName, dto.lastName), fault);
    UpdateOverwritesFirst(UserSchema, db.users, UserIdIs(0), User(0, 0, 0, 0, 0, dto.email, digest), fault);
  }

  /** DeleteUser writes nothing and reports failure when the store throws or no user with
      the email survives the inner join: none has it, or the one that has it names a row
      that does not exist (UserService.cs:149-150). */
  lemma DeleteUserMiss(db: UserDb, dto: UserDto, fault: bool)
    requires fault || forall j :: 0 <= j < |db.users.rows| && db.users.rows[j].email == dto.email ==>
                                   UserRepositories.Load(db, db.users.rows[j]).None?
    ensures DeleteUserSpec(db, dto, fault) == Step(db, false)
  {
    UserRepositories.GetOneHydrates(db, EmailIs(dto.email), fault);
    forall j | 0 <= j < |db.users.rows| ensures
      UserRepositories.Load(db, db.users.rows[j]).Some? <==> UserRepositories.Resolves(db, db.users.rows[j]) {
      UserRepositories.LoadHydrates(db, db.users.rows[j]);
    }
  }

  /** Deleting a stored user whose four references name stored rows (the users GetOne can
      return; DeleteUserMiss covers the rest) removes exactly the rows carrying its user,
      address, phone number, profile and role keys (the role even when other users share it),
      keeps every other row, and leaves no user with the email. */
  lemma DeleteUserRemovesAggregate(db: UserDb, dto: UserDto, i: nat)
    requires ValidUserDb(db) && i < |db.users.rows| && db.users.rows[i].email == dto.email
    requires UserRepositories.Load(db, db.users.rows[i]).Some?
    ensures var u := db.users.rows[i];
            var st := DeleteUserSpec(db, dto, false);
      && st.result
      && (forall x :: x in st.state.addresses.rows <==> x in db.addresses.rows && x.addressId != u.addressId)
      && (forall x :: x in st.state.phoneNumbers.rows <==> x in db.phoneNumbers.rows && x.phoneNumberId != u.phoneNumberId)
      && (forall x :: x in st.state.profiles.rows <==> x in db.profiles.rows && x.profileId != u.profileId)
      && (forall x :: x in st.state.roles.rows <==> x in db.roles.rows && x.roleId != u.roleId)
      && (forall x :: x in st.state.users.rows <==> x in db.users.rows && x.userId != u.userId)
      && !CheckIfUserExists(st.state, dto.email, false)
  {
    var u := db.users.rows[i];
    UserRepositories.GetOneByEmail(db, i);
    DeleteByKey(AddressSchema, db.addresses, AddressIdIs(u.addressId), u.addressId);
    DeleteByKey(PhoneNumberSchema, db.phoneNumbers, PhoneNumberIdIs(u.phoneNumberId), u.phoneNumberId);
    DeleteByKey(ProfileSchema, db.profiles, ProfileIdIs(u.profileId), u.profileId);
    DeleteByKey(RoleSchema, db.roles, RoleIdIs(u.roleId), u.roleId);
    DeleteByKey(UserSchema, db.users, UserIdIs(u.userId), u.userId);
    var st := DeleteUserSpec(db, dto, false).state;
    forall j | 0 <= j < |st.users.rows| ensures st.users.rows[j].email != dto.email {
      var x := st.users.rows[j];
      assert x in db.users.rows && x.userId != u.userId;
      var k :| 0 <= k < |db.users.rows| && db.users.rows[k] == x;
      assert k != i;
    }
    CheckIfUserExistsIff(st, dto.email, false);
  }
}
