/** The user-account facade of src/server/user.rs over an in-memory user
    directory. The user manager and password manager behind it are not part
    of this model: the directory is a map from id to record, a password is an
    opaque entry, and the outcomes of the two steps of account creation are
    parameters. */
module UserService {
  import opened Common

  /** A user record as the directory stores it. */
  datatype User = User(id: UserId, name: string, email: string, verified: bool, inactive: bool)

  /** The stored credential of a user; how it is hashed is not modelled. */
  datatype PasswordEntry = PasswordEntry(secret: string)

  /** The changes `edit_user` applies: `Some` replaces a field, `None` keeps it. */
  datatype UserMetadata = UserMetadata(name: Option<string>, email: Option<string>)

  /** The two lookups by string: by name and by email. */
  datatype Key = ByName(name: string) | ByEmail(email: string)

  predicate Identifies(key: Key, u: User) {
    match key
    case ByName(name) => u.name == name
    case ByEmail(email) => u.email == email
  }

  /** The directory after setting the inactive flag of `id` to `flag`. */
  function WithInactive(users: map<UserId, User>, id: UserId, flag: bool): (r: map<UserId, User>)
    ensures r.Keys == users.Keys
    ensures forall k :: k in users && k != id ==> r[k] == users[k]
    ensures id in users ==> r[id].inactive == flag && r[id].(inactive := users[id].inactive) == users[id]
  {
    if id in users then users[id := users[id].(inactive := flag)] else users
  }

  /** The directory after marking `id` as verified. */
  function WithVerified(users: map<UserId, User>, id: UserId): (r: map<UserId, User>)
    ensures r.Keys == users.Keys
    ensures forall k :: k in users && k != id ==> r[k] == users[k]
    ensures id in users ==> r[id].verified && r[id].(verified := users[id].verified) == users[id]
  {
    if id in users then users[id := users[id].(verified := true)] else users
  }

  /** The directory after applying `changes` to `id`. */
  function WithEdits(users: map<UserId, User>, id: UserId, changes: UserMetadata): (r: map<UserId, User>)
    ensures r.Keys == users.Keys
    ensures forall k :: k in users && k != id ==> r[k] == users[k]
    ensures id in users ==>
              && (changes.name.Some? ==> r[id].name == changes.name.value)
              && (changes.name.None? ==> r[id].name == users[id].name)
              && (changes.email.Some? ==> r[id].email == changes.email.value)
              && (changes.email.None? ==> r[id].email == users[id].email)
              && r[id].(name := users[id].name, email := users[id].email) == users[id]
  {
    if id in users then
      var u := users[id];
      var name := if changes.name.Some? then changes.name.value else u.name;
      var email := if changes.email.Some? then changes.email.value else u.email;
      users[id := u.(name := name, email := email)]
    else users
  }

  /** Deactivating and then reactivating a user gives the directory with that user active. */
  lemma InactiveThenActive(users: map<UserId, User>, id: UserId)
    ensures WithInactive(WithInactive(users, id, true), id, false) == WithInactive(users, id, false)
  {
    var a := WithInactive(WithInactive(users, id, true), id, false);
    var b := WithInactive(users, id, false);
    assert forall k :: k in a <==> k in b;
    assert forall k :: k in a ==> a[k] == b[k];
  }

  /** Hence a user that was active is restored exactly. */
  lemma InactiveThenActiveRestores(users: map<UserId, User>, id: UserId)
    requires id in users ==> !users[id].inactive
    ensures WithInactive(WithInactive(users, id, true), id, false) == users
  {
    InactiveThenActive(users, id);
    var b := WithInactive(users, id, false);
    assert forall k :: k in b ==> b[k] == users[k];
  }

  /** Setting the inactive flag to a value it already has changes nothing, so
      marking twice is marking once. */
  lemma WithInactiveIdempotent(users: map<UserId, User>, id: UserId, flag: bool)
    ensures WithInactive(WithInactive(users, id, flag), id, flag) == WithInactive(users, id, flag)
  {
    var a := WithInactive(WithInactive(users, id, flag), id, flag);
    var b := WithInactive(users, id, flag);
    assert forall k :: k in a ==> a[k] == b[k];
  }

  /** Verifying twice is verifying once. */
  lemma WithVerifiedIdempotent(users: map<UserId, User>, id: UserId)
    ensures WithVerified(WithVerified(users, id), id) == WithVerified(users, id)
  {
    var a := WithVerified(WithVerified(users, id), id);
    var b := WithVerified(users, id);
    assert forall k :: k in a ==> a[k] == b[k];
  }

  /** The lowest id in [from, bound) whose user `key` identifies, if there is one. */
  function FindFrom(users: map<UserId, User>, key: Key, from: nat, bound: nat): (r: Option<UserId>)
    decreases bound - from
    ensures r.Some? ==> from <= r.value < bound && r.value in users && Identifies(key, users[r.value])
    ensures r.Some? ==> forall k :: from <= k < r.value && k in users ==> !Identifies(key, users[k])
    ensures r.None? ==> forall k :: from <= k < bound && k in users ==> !Identifies(key, users[k])
  {
    if from >= bound then None
    else if from in users && Identifies(key, users[from]) then Some(from)
    else FindFrom(users, key, from + 1, bound)
  }

  class Server {
    /** The user directory. */
    var users: map<UserId, User>
    /** The password entries, by user. */
    var passwords: map<UserId, PasswordEntry>
    /** The next value of the users table's id sequence. */
    var nextUserId: UserId

    /** Every user has a password and every password a user (creation is
        atomic); each record carries its own key; no key has been handed out
        past `nextUserId`. */
    ghost predicate Valid()
      reads this
    {
      && users.Keys == passwords.Keys
      && (forall id :: id in users ==> id < nextUserId && users[id].id == id)
    }

    constructor ()
      ensures Valid()
      ensures users == map[] && passwords == map[] && nextUserId == 1
    {
      users := map[];
      passwords := map[];
      nextUserId := 1;
    }

    /** Creates a user and its password in one transaction. `createStep` and
        `passwordStep` are the outcomes of the user manager's insert and the
        password manager's store; if either fails, neither change persists and
        that step's error is returned. The id sequence is not rolled back, so an
        id is never handed out twice. */
    method CreateUser(name: string, email: string, password: string,
                      createStep: Outcome, passwordStep: Outcome)
      returns (r: Result<UserId>)
      requires Valid()
      modifies this
      ensures Valid()
      ensures r.Ok? <==> createStep.Pass? && passwordStep.Pass?
      ensures r.Ok? ==> && r.value !in old(users) && r.value >= old(nextUserId)
                        && users == old(users)[r.value := User(r.value, name, email, false, false)]
                        && passwords == old(passwords)[r.value := PasswordEntry(password)]
      ensures r.Err? ==> users == old(users) && passwords == old(passwords)
      ensures r.Err? ==> r.error == if createStep.Fail? then createStep.error else passwordStep.error
      ensures nextUserId >= old(nextUserId)
    {
      var savedUsers, savedPasswords := users, passwords;
      if createStep.Fail? {
        return Err(createStep.error);
      }
      var id := nextUserId;
      nextUserId := nextUserId + 1;
      users := users[id := User(id, name, email, false, false)];
      if passwordStep.Fail? {
        users, passwords := savedUsers, savedPasswords;
        return Err(passwordStep.error);
      }
      passwords := passwords[id := PasswordEntry(password)];
      r := Ok(id);
    }

    /** Applies `changes` to user `id`; an unknown id changes nothing. */
    method EditUser(id: UserId, changes: UserMetadata)
      requires Valid()
      modifies this
      ensures Valid()
      ensures users == WithEdits(old(users), id, changes)
      ensures passwords == old(passwords) && nextUserId == old(nextUserId)
    {
      users := WithEdits(users, id, changes);
    }

    /** The user with id `id`, or `UserNotFound` exactly when there is none. */
    function GetUserFromId(id: UserId): (r: Result<User>)
      reads this
      ensures r.Ok? <==> id in users
      ensures r.Ok? ==> r.value == users[id]
      ensures r.Err? ==> r.error == UserNotFound
      ensures Valid() && r.Ok? ==> r.value.id == id
    {
      if id in users then Ok(users[id]) else Err(UserNotFound)
    }

    /** One entry per id, in the order of `ids`: the user, or `None` for a missing one. */
    function GetUsersFromIds(ids: seq<UserId>): (r: seq<Option<User>>)
      reads this
      ensures |r| == |ids|
      ensures forall i :: 0 <= i < |ids| ==> (r[i].None? <==> ids[i] !in users)
      ensures forall i :: 0 <= i < |ids| && r[i].Some? ==> r[i].value == users[ids[i]]
      ensures forall i :: 0 <= i < |ids| ==> r[i] == GetUserFromId(ids[i]).ToOption()
    {
      if ids == [] then []
      else [GetUserFromId(ids[0]).ToOption()] + GetUsersFromIds(ids[1..])
    }

    /** The user `key` identifies (the one with the lowest id if several do),
        or `None`, which is not an error, when no user matches. */
    function Find(key: Key): (r: Option<User>)
      reads this
      requires Valid()
      ensures r.Some? ==> r.value.id in users && users[r.value.id] == r.value && Identifies(key, r.value)
      ensures r.None? <==> forall k :: k in users ==> !Identifies(key, users[k])
    {
      var found := FindFrom(users, key, 0, nextUserId);
      if found.Some? then Some(users[found.value]) else None
    }

    /** The user named `name`, or `None` when there is none. */
    function GetUserFromName(name: string): (r: Option<User>)
      reads this
      requires Valid()
      ensures r.Some? ==> r.value.id in users && users[r.value.id] == r.value && r.value.name == name
      ensures r.None? <==> forall k :: k in users ==> users[k].name != name
    {
      Find(ByName(name))
    }

    /** The user with email `email`, or `None` when there is none. */
    function GetUserFromEmail(email: string): (r: Option<User>)
      reads this
      requires Valid()
      ensures r.Some? ==> r.value.id in users && users[r.value.id] == r.value && r.value.email == email
      ensures r.None? <==> forall k :: k in users ==> users[k].email != email
    {
      Find(ByEmail(email))
    }

    /** Marks user `id` as verified; an unknown id changes nothing. */
    method VerifyUser(id: UserId)
      requires Valid()
      modifies this
      ensures Valid()
      ensures users == WithVerified(old(users), id)
      ensures passwords == old(passwords) && nextUserId == old(nextUserId)
    {
      users := WithVerified(users, id);
    }

    /** Marks user `id` as inactive, the soft form of deletion. */
    method MarkUserInactive(id: UserId)
      requires Valid()
      modifies this
      ensures Valid()
      ensures users == WithInactive(old(users), id, true)
      ensures passwords == old(passwords) && nextUserId == old(nextUserId)
    {
      users := WithInactive(users, id, true);
    }

    /** Marks user `id` as active again. */
    method MarkUserActive(id: UserId)
      requires Valid()
      modifies this
      ensures Valid()
      ensures users == WithInactive(old(users), id, false)
      ensures passwords == old(passwords) && nextUserId == old(nextUserId)
    {
      users := WithInactive(users, id, false);
    }
  }
}
