/** The user table: lookups by id, username, email or either of the last two; insertion; deletion. */
module AuthRepository {
  import opened Wrappers
  import opened Table
  import opened Store

  /** getAll: every user, in table order. */
  function GetAll(users: seq<User>): (r: seq<User>)
    ensures |r| == |users| && forall u :: u in r <==> u in users
  {
    users
  }

  /** getById: the user with that id, if any. */
  function GetById(users: seq<User>, id: Id): (r: Option<User>)
    ensures r.Some? ==> r.value in users && r.value.id == id
    ensures r.None? <==> forall u :: u in users ==> u.id != id
  {
    FindFirst(users, (u: User) => u.id == id)
  }

  /** getUniqueByUsername: the user with that username, if any. */
  function GetUniqueByUsername(users: seq<User>, username: string): (r: Option<User>)
    ensures r.Some? ==> r.value in users && r.value.username == username
    ensures r.None? <==> forall u :: u in users ==> u.username != username
  {
    FindFirst(users, (u: User) => u.username == username)
  }

  /** getUniqueByEmail: the user with that email, if any. */
  function GetUniqueByEmail(users: seq<User>, email: string): (r: Option<User>)
    ensures r.Some? ==> r.value in users && r.value.email == email
    ensures r.None? <==> forall u :: u in users ==> u.email != email
  {
    FindFirst(users, (u: User) => u.email == email)
  }

  /** getFirstByIdentifier: the first user, in table order, whose email or username is the identifier. */
  function GetFirstByIdentifier(users: seq<User>, identifier: string): (r: Option<User>)
    ensures r.None? <==> forall u :: u in users ==> u.email != identifier && u.username != identifier
    ensures r.Some? ==> exists i :: 0 <= i < |users| && users[i] == r.value &&
                                   (r.value.email == identifier || r.value.username == identifier) &&
                                   forall j :: 0 <= j < i ==> users[j].email != identifier && users[j].username != identifier
  {
    FindFirst(users, (u: User) => u.email == identifier || u.username == identifier)
  }

  /** create: inserts the user, unless the database refuses it because its id, username or email is taken. */
  method Create(db: Database, id: Id, name: string, email: string, username: string, password: string)
    returns (r: Option<User>)
    requires db.Valid()
    modifies db`users
    ensures db.Valid()
    ensures r.Some? <==> forall u :: u in old(db.users) ==> u.id != id && u.username != username && u.email != email
    ensures r.Some? ==> r.value == User(id, name, email, username, password) && db.users == old(db.users) + [r.value]
    ensures r.None? ==> db.users == old(db.users)
  {
    if GetById(db.users, id).None? && GetUniqueByUsername(db.users, username).None? && GetUniqueByEmail(db.users, email).None? {
      var user := User(id, name, email, username, password);
      AppendKeepsUniqueKeys(db.users, user, UserId);
      AppendKeepsUniqueKeys(db.users, user, UserUsername);
      AppendKeepsUniqueKeys(db.users, user, UserEmail);
      db.users := db.users + [user];
      r := Some(user);
    } else {
      r := None;
    }
  }

  /** delete: removes the user with that id and returns it; nothing to delete is a failure. */
  method Delete(db: Database, id: Id) returns (r: Option<User>)
    requires db.Valid()
    modifies db`users
    ensures db.Valid()
    ensures r == GetById(old(db.users), id)
    ensures r.Some? ==> db.users == Filter(old(db.users), UserIdIsNot(id))
    ensures r.None? ==> db.users == old(db.users)
  {
    r := GetById(db.users, id);
    if r.Some? {
      FilterKeepsUniqueKeys(db.users, UserIdIsNot(id), UserId);
      FilterKeepsUniqueKeys(db.users, UserIdIsNot(id), UserUsername);
      FilterKeepsUniqueKeys(db.users, UserIdIsNot(id), UserEmail);
      db.users := Filter(db.users, UserIdIsNot(id));
    }
  }

  /** Deleting a user just created, by its id, gives back the table as it was. */
  lemma DeleteUndoesCreate(users: seq<User>, user: User)
    requires forall u :: u in users ==> u.id != user.id
    ensures Filter(users + [user], UserIdIsNot(user.id)) == users
  {
    DeleteUndoesInsert(users, user, UserIdIsNot(user.id));
  }
}
