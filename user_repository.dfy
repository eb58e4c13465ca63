/** UserRepository (Shared/Repositories/UserRepository.cs): the base repository over the user
    table (Create, Update, Delete and Exists are inherited unchanged) whose GetAll and GetOne
    attach Profile, Address, Role and PhoneNumber to every user they return. The four
    references are required `int`s (Shared/Entities/UserEntity.cs:14-32), so each `Include`
    is an inner join: a user one of whose references names no row is not returned at all. */
module UserRepositories {
  import opened Wrappers
  import opened Entities
  import opened Repositories
  import opened Contexts

  /** The inner join `Include` performs for one user row: the user with the four rows its
      references name, or None when one of them names no row. */
  function Load(db: UserDb, u: User): (r: Option<LoadedUser>)
    ensures r.Some? ==> r.value.user == u
  {
    var p := Lookup(ProfileSchema, db.profiles, Some(u.profileId));
    var a := Lookup(AddressSchema, db.addresses, Some(u.addressId));
    var r := Lookup(RoleSchema, db.roles, Some(u.roleId));
    var n := Lookup(PhoneNumberSchema, db.phoneNumbers, Some(u.phoneNumberId));
    if p.Some? && a.Some? && r.Some? && n.Some? then Some(LoadedUser(u, p.value, a.value, r.value, n.value))
    else None
  }

  /** Every reference of the user names a stored row. */
  ghost predicate Resolves(db: UserDb, u: User)
  {
    && (exists j :: 0 <= j < |db.profiles.rows| && db.profiles.rows[j].profileId == u.profileId)
    && (exists j :: 0 <= j < |db.addresses.rows| && db.addresses.rows[j].addressId == u.addressId)
    && (exists j :: 0 <= j < |db.roles.rows| && db.roles.rows[j].roleId == u.roleId)
    && (exists j :: 0 <= j < |db.phoneNumbers.rows| && db.phoneNumbers.rows[j].phoneNumberId == u.phoneNumberId)
  }

  /** Each attached dependent is a stored row whose key is the user's reference. */
  ghost predicate Hydrated(db: UserDb, lu: LoadedUser)
  {
    && lu.profile in db.profiles.rows && lu.profile.profileId == lu.user.profileId
    && lu.address in db.addresses.rows && lu.address.addressId == lu.user.addressId
    && lu.role in db.roles.rows && lu.role.roleId == lu.user.roleId
    && lu.phoneNumber in db.phoneNumbers.rows && lu.phoneNumber.phoneNumberId == lu.user.phoneNumberId
  }

  /** The join keeps a user exactly when all four of its references name stored rows, and
      then attaches those rows. */
  lemma LoadHydrates(db: UserDb, u: User)
    ensures Load(db, u).Some? <==> Resolves(db, u)
    ensures Load(db, u).Some? ==> Load(db, u).value.user == u && Hydrated(db, Load(db, u).value)
  {
    LookupFinds(ProfileSchema, db.profiles, Some(u.profileId));
    LookupFinds(AddressSchema, db.addresses, Some(u.addressId));
    LookupFinds(RoleSchema, db.roles, Some(u.roleId));
    LookupFinds(PhoneNumberSchema, db.phoneNumbers, Some(u.phoneNumberId));
  }

  /** The users the inner join keeps, loaded, in store order. */
  function JoinAll(db: UserDb, rows: seq<User>): (r: seq<LoadedUser>)
    ensures |r| <= |rows|
    decreases |rows|
  {
    if |rows| == 0 then []
    else (if Load(db, rows[0]).Some? then [Load(db, rows[0]).value] else []) + JoinAll(db, rows[1..])
  }

  /** Every joined user is one of the rows, loaded. */
  lemma {:induction false} JoinAllSound(db: UserDb, rows: seq<User>)
    ensures forall k :: 0 <= k < |JoinAll(db, rows)| ==>
      JoinAll(db, rows)[k].user in rows && Load(db, JoinAll(db, rows)[k].user) == Some(JoinAll(db, rows)[k])
    decreases |rows|
  {
    if |rows| > 0 {
      JoinAllSound(db, rows[1..]);
      var head := if Load(db, rows[0]).Some? then [Load(db, rows[0]).value] else [];
      var tail := JoinAll(db, rows[1..]);
      var r := JoinAll(db, rows);
      assert r == head + tail;
      forall k | 0 <= k < |r| ensures r[k].user in rows && Load(db, r[k].user) == Some(r[k]) {
        if k < |head| {
          assert r[k] == Load(db, rows[0]).value;
        } else {
          assert r[k] == tail[k - |head|];
          assert r[k].user in rows[1..];
          var j :| 0 <= j < |rows[1..]| && rows[1..][j] == r[k].user;
          assert rows[j + 1] == r[k].user;
        }
      }
    }
  }

  /** Some user the join returns is `u`. */
  ghost predicate Joined(db: UserDb, rows: seq<User>, u: User)
  {
    exists k :: 0 <= k < |JoinAll(db, rows)| && JoinAll(db, rows)[k].user == u
  }

  /** Every row whose references resolve is joined. */
  lemma {:induction false} JoinAllComplete(db: UserDb, rows: seq<User>)
    ensures forall j :: 0 <= j < |rows| && Load(db, rows[j]).Some? ==> Joined(db, rows, rows[j])
    decreases |rows|
  {
    if |rows| > 0 {
      JoinAllComplete(db, rows[1..]);
      var head := if Load(db, rows[0]).Some? then [Load(db, rows[0]).value] else [];
      var tail := JoinAll(db, rows[1..]);
      var r := JoinAll(db, rows);
      assert r == head + tail;
      forall j | 0 <= j < |rows| && Load(db, rows[j]).Some? ensures Joined(db, rows, rows[j]) {
        if j == 0 {
          assert r[0] == Load(db, rows[0]).value;
        } else {
          assert rows[1..][j - 1] == rows[j];
          assert Joined(db, rows[1..], rows[1..][j - 1]);
          var k :| 0 <= k < |tail| && tail[k].user == rows[j];
          assert r[k + |head|] == tail[k];
        }
      }
    }
  }

  /** The join keeps store order: a user appended to the table is appended to the join
      exactly when its references resolve. */
  lemma {:induction false} JoinAllAppend(db: UserDb, rows: seq<User>, u: User)
    ensures JoinAll(db, rows + [u]) == JoinAll(db, rows) + (if Load(db, u).Some? then [Load(db, u).value] else [])
    decreases |rows|
  {
    if |rows| == 0 {
      assert rows + [u] == [u];
      assert [u][1..] == [];
    } else {
      assert (rows + [u])[0] == rows[0];
      assert (rows + [u])[1..] == rows[1..] + [u];
      JoinAllAppend(db, rows[1..], u);
    }
  }

  /** GetAll (UserRepository.cs:13-30): the joined users (GetAllHydrates); None exactly when
      the store throws. */
  function GetAll(db: UserDb, fault: bool): (r: Option<seq<LoadedUser>>)
    ensures r.Some? <==> !fault
  {
    if fault then None else Some(JoinAll(db, db.users.rows))
  }

  /** Every user GetAll returns is a stored user with its four dependents attached, and a
      stored user is returned exactly when all four of its references resolve. */
  lemma GetAllHydrates(db: UserDb)
    ensures var all := GetAll(db, false).value;
      && (forall k :: 0 <= k < |all| ==> all[k].user in db.users.rows && Hydrated(db, all[k]))
      && (forall u :: u in db.users.rows ==> (Resolves(db, u) <==> exists k :: 0 <= k < |all| && all[k].user == u))
  {
    var all := GetAll(db, false).value;
    assert all == JoinAll(db, db.users.rows);
    JoinAllSound(db, db.users.rows);
    JoinAllComplete(db, db.users.rows);
    forall u | u in db.users.rows && Resolves(db, u) ensures exists k :: 0 <= k < |all| && all[k].user == u {
      LoadHydrates(db, u);
      var j :| 0 <= j < |db.users.rows| && db.users.rows[j] == u;
      assert Joined(db, db.users.rows, db.users.rows[j]);
    }
    forall u: User ensures (Load(db, u).Some? <==> Resolves(db, u)) &&
                           (Load(db, u).Some? ==> Load(db, u).value.user == u && Hydrated(db, Load(db, u).value)) {
      LoadHydrates(db, u);
    }
    forall k | 0 <= k < |all| ensures all[k].user in db.users.rows && Hydrated(db, all[k]) {
      var r := JoinAll(db, db.users.rows);
      assert r[k].user in db.users.rows && Load(db, r[k].user) == Some(r[k]);
      LoadHydrates(db, all[k].user);
    }
  }

  /** GetOne (UserRepository.cs:32-49): the first joined user satisfying `p`; None when no
      joined user does or the store throws (GetOneHydrates). */
  function GetOne(db: UserDb, p: User -> bool, fault: bool): Option<LoadedUser>
  {
    if fault then None
    else match FirstIndex(db.users.rows, (u: User) => Load(db, u).Some? && p(u))
      case None => None
      case Some(i) => Load(db, db.users.rows[i])
  }

  lemma GetOneHydrates(db: UserDb, p: User -> bool, fault: bool)
    ensures var r := GetOne(db, p, fault);
      && (r.None? <==> fault || forall j :: 0 <= j < |db.users.rows| ==> !(Resolves(db, db.users.rows[j]) && p(db.users.rows[j])))
      && (r.Some? ==> Hydrated(db, r.value) && p(r.value.user))
      && (r.Some? ==>
            exists i :: 0 <= i < |db.users.rows| && db.users.rows[i] == r.value.user &&
                        forall j :: 0 <= j < i ==> !(Resolves(db, db.users.rows[j]) && p(db.users.rows[j])))
  {
    FirstIndexSpec(db.users.rows, (u: User) => Load(db, u).Some? && p(u));
    forall u: User ensures (Load(db, u).Some? <==> Resolves(db, u)) &&
                           (Load(db, u).Some? ==> Load(db, u).value.user == u && Hydrated(db, Load(db, u).value)) {
      LoadHydrates(db, u);
    }
  }

  /** GetOne by a stored user's email finds that user, loaded, when its references resolve,
      and nothing otherwise: the email index being unique, no other row has the email
      (UserRepository_test.cs:78-99). */
  lemma GetOneByEmail(db: UserDb, i: nat)
    requires ValidUserDb(db) && i < |db.users.rows|
    ensures GetOne(db, EmailIs(db.users.rows[i].email), false) == Load(db, db.users.rows[i])
  {
    var u := db.users.rows[i];
    var q := (x: User) => Load(db, x).Some? && EmailIs(u.email)(x);
    FirstIndexSpec(db.users.rows, q);
    match FirstIndex(db.users.rows, q)
    case None =>
      assert !q(u);
    case Some(k) =>
      assert q(db.users.rows[k]);
      assert EmailIs(u.email)(db.users.rows[k]);
      assert UserSchema.clash(db.users.rows[k], u);
  }
}
