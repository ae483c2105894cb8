/** Account administration (server/controllers/userController.js): listing
    without passwords, field-wise update with self-protection and email
    uniqueness, and deletion that refuses to delete the caller. */
module UserController {
  import opened Outcomes
  import opened Models
  import opened Store
  import opened Sequences

  /** getUsers: every account, each once, newest first, without its password. */
  method GetUsers(db: Database) returns (r: seq<(UserId, PublicUser)>)
    ensures forall i, j :: 0 <= i < j < |r| ==> r[i].0 != r[j].0
    ensures forall k :: k in db.users <==> exists i :: 0 <= i < |r| && r[i].0 == k
    ensures forall i :: 0 <= i < |r| ==> r[i].0 in db.users && r[i].1 == Public(db.users[r[i].0])
    ensures forall i, j :: 0 <= i < j < |r| ==> r[i].1.createdAt >= r[j].1.createdAt
  {
    var users := db.users;
    var ids := SortedKeys(users, (u: User) => true, (u: User) => -u.createdAt);
    r := seq(|ids|, i requires 0 <= i < |ids| => (ids[i], Public(users[ids[i]])));
    assert forall i :: 0 <= i < |r| ==> r[i].0 == ids[i];
    forall k | k in db.users ensures exists i :: 0 <= i < |r| && r[i].0 == k {
      var i :| 0 <= i < |ids| && ids[i] == k;
      assert r[i].0 == k;
    }
  }

  /** getUser: one account without its password, or NotFound. */
  function GetUser(users: map<UserId, User>, id: UserId): (r: Result<PublicUser>)
    ensures r.Ok? <==> id in users
    ensures id !in users <==> r == Err(NotFound)
    ensures r.Ok? ==> && r.value.name == users[id].name && r.value.email == users[id].email
                      && r.value.role == users[id].role && r.value.createdAt == users[id].createdAt
  {
    if id in users then Ok(Public(users[id])) else Err(NotFound)
  }

  /** The body of an updateUser request; empty strings and None mean the
      field was not supplied. The password arrives already hashed: bcrypt is
      outside this model. */
  datatype UserPatch = UserPatch(
    name: string,
    email: string,
    role: string,
    passwordHash: Option<string>)

  /** updateUser, called by the account `caller` on account `id`. */
  method UpdateUser(db: Database, caller: UserId, id: UserId, p: UserPatch) returns (r: Result<PublicUser>)
    requires db.Valid()
    modifies db
    ensures db.Valid()
    ensures db.books == old(db.books) && db.issues == old(db.issues)
    ensures r.Err? ==> unchanged(db)
    ensures id !in old(db.users) ==> r == Err(NotFound)
    ensures id in old(db.users) ==>
      var u := old(db.users)[id];
      if caller == id && p.role != "" && p.role != RoleName(u.role) then r == Err(Invalid)
      else if p.email != "" && p.email != u.email && EmailTaken(old(db.users), p.email) then r == Err(Duplicate)
      else
        var nu := User(
          if p.name != "" then p.name else u.name,
          if p.email != "" then p.email else u.email,
          if ParseRole(p.role).Some? then ParseRole(p.role).value else u.role,
          if p.passwordHash.Some? then p.passwordHash.value else u.passwordHash,
          u.createdAt);
        r == Ok(Public(nu)) && db.users == old(db.users)[id := nu]
  {
    if id !in db.users {
      return Err(NotFound);
    }
    var user := db.users[id];
    if caller == id && p.role != "" && p.role != RoleName(user.role) {
      return Err(Invalid);
    }
    if p.name != "" {
      user := user.(name := p.name);
    }
    if p.email != "" && p.email != user.email {
      if EmailTaken(db.users, p.email) {
        // returns before `save`: the new name is not stored either
        return Err(Duplicate);
      }
      user := user.(email := p.email);
    }
    var role := ParseRole(p.role);
    if role.Some? {
      user := user.(role := role.value);
    }
    if p.passwordHash.Some? {
      user := user.(passwordHash := p.passwordHash.value);
    }
    ReplaceUserKeepsUnique(db.users, id, user);
    db.users := db.users[id := user];
    r := Ok(Public(user));
  }

  /** deleteUser, called by the account `caller` on account `id`. Deleting
      oneself is refused before the account is looked up. */
  method DeleteUser(db: Database, caller: UserId, id: UserId) returns (r: Outcome)
    requires db.Valid()
    modifies db
    ensures db.Valid()
    ensures db.books == old(db.books) && db.issues == old(db.issues)
    ensures r.Fail? ==> unchanged(db)
    ensures caller == id ==> r == Fail(Invalid)
    ensures caller != id && id !in old(db.users) ==> r == Fail(NotFound)
    ensures caller != id && id in old(db.users) ==> r == Done && db.users == old(db.users) - {id}
  {
    if caller == id {
      return Fail(Invalid);
    }
    if id !in db.users {
      return Fail(NotFound);
    }
    db.users := db.users - {id};
    r := Done;
  }
}
