/** `UserServiceImpl`: the user table, whose e-mail addresses are unique. */
module UserService {
  import opened Common
  import opened Model
  import opened Tables

  /** `addUser`: an e-mail already in use is a Conflict; otherwise one user
      is inserted under the sequence's next id. */
  method AddUser(db: Db, name: string, email: string) returns (r: Result<User>)
    requires db.Valid()
    modifies db`users, db`userSeq
    ensures db.Valid()
    ensures r.Err? <==> EmailTaken(old(db.users), email)
    ensures r.Err? ==>
      && r.error == Conflict
      && db.users == old(db.users) && db.userSeq == old(db.userSeq)
    ensures r.Ok? ==>
      && r.value == User(old(db.userSeq), name, email)
      && r.value.id !in old(db.users)
      && db.users == old(db.users)[r.value.id := r.value]
      && db.userSeq == old(db.userSeq) + 1
  {
    if EmailTaken(db.users, email) {
      return Err(Conflict);
    }
    var user := User(db.userSeq, name, email);
    db.users := db.users[user.id := user];
    db.userSeq := db.userSeq + 1;
    return Ok(user);
  }

  /** `removeUser`: delete by id and nothing else. */
  method RemoveUser(db: Db, userId: int)
    requires db.Valid()
    modifies db`users
    ensures db.Valid()
    ensures db.users == old(db.users) - {userId}
  {
    db.users := db.users - {userId};
  }

  /** `getUsers` without paging: no ids (null or empty) selects every user,
      otherwise exactly the users whose id is listed. */
  function GetUsers(db: Db, ids: Option<seq<int>>): (r: set<User>)
    reads db
    requires db.Valid()
    ensures ids.None? || |ids.value| == 0 ==> r == db.users.Values
    ensures r <= db.users.Values
    ensures ids.Some? && |ids.value| > 0 ==>
      forall k :: k in db.users ==> (db.users[k] in r <==> k in ids.value)
  {
    if ids.None? || |ids.value| == 0 then db.users.Values
    else set u | u in db.users.Values && u.id in ids.value
  }
}
