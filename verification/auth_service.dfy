/** Registration, login, listing and deletion of users. */
module AuthService {
  import opened Wrappers
  import opened Errors
  import opened Schemas
  import opened Store
  import Table
  import AuthRepository

  /** What registration answers: the token and the stored user. */
  datatype Registration = Registration(token: string, user: User)

  /** The user as login reports it: id, username and email only. */
  datatype PublicUser = PublicUser(id: Id, username: string, email: string)

  /** What login answers: the token and the public part of the user. */
  datatype Login = Login(token: string, user: PublicUser)

  /** The message a `null` dereference throws in registerUser when the insert yields no record. */
  const NullIdError: Thrown := Plain("TypeError", "Cannot read properties of null (reading 'id')")

  class AuthService {
    const db: Database
    /** bcrypt's hash of a password (cost 10), left uninterpreted. */
    const hashPass: string -> string
    /** bcrypt's comparison of a password with a stored hash, left uninterpreted. */
    const validatePass: (string, string) -> bool
    /** A signed token naming a user id, valid for 24 hours, left uninterpreted. */
    const generateToken: Id -> string

    constructor (db: Database, hashPass: string -> string, validatePass: (string, string) -> bool,
                 generateToken: Id -> string)
      ensures this.db == db && this.hashPass == hashPass
      ensures this.validatePass == validatePass && this.generateToken == generateToken
    {
      this.db := db;
      this.hashPass := hashPass;
      this.validatePass := validatePass;
      this.generateToken := generateToken;
    }

    /** validateInput: the validated value, or an InvalidError carrying the schema's message. */
    method ValidateInput(data: UserInput) returns (r: Result<ValidUser, Thrown>)
      ensures r.Ok? <==> && data.name.Some? && Accepts(NameField, data.name.value)
                         && data.email.Some? && Accepts(EmailField, data.email.value)
                         && data.username.Some? && Accepts(UsernameField, data.username.value)
                         && data.password.Some? && Accepts(PasswordField, data.password.value)
      ensures r.Ok? ==> r.value == ValidUser(data.name.value, data.email.value, data.username.value, data.password.value)
      ensures r.Err? ==> r.error.Raised? && r.error.err.kind == Invalid && r.error.err.StatusCode() == 418
      ensures r.Err? ==> r.error.Message() == Message(Validate(data).error)
    {
      var v := Validate(data);
      if v.Err? {
        return Err(Raise(Invalid, Message(v.error)));
      }
      return Ok(v.value);
    }

    /** findAllUsers: every user, or NotFound when there is none. */
    method FindAllUsers() returns (r: Result<seq<User>, Thrown>)
      ensures r.Err? <==> |db.users| == 0
      ensures r.Err? ==> r.error == Raise(NotFound, "No users found.")
      ensures r.Ok? ==> |r.value| > 0 && forall u :: u in r.value <==> u in db.users
    {
      var users := AuthRepository.GetAll(db.users);
      if |users| == 0 {
        return Err(Raise(NotFound, "No users found."));
      }
      return Ok(users);
    }

    /** registerUser: refuses a taken username, then a taken email; otherwise stores the user with the hashed
      * password and answers a token for the new id. */
    method RegisterUser(name: string, email: string, username: string, password: string, newId: Id)
      returns (r: Result<Registration, Thrown>)
      requires db.Valid()
      modifies db`users
      ensures db.Valid()
      ensures var usernameTaken := exists u :: u in old(db.users) && u.username == username;
              var emailTaken := exists u :: u in old(db.users) && u.email == email;
              var idTaken := exists u :: u in old(db.users) && u.id == newId;
              && (usernameTaken ==> r == Err(Raise(Conflict, "Username already registered.")))
              && (!usernameTaken && emailTaken ==> r == Err(Raise(Conflict, "Email already registered.")))
              && (!usernameTaken && !emailTaken && idTaken ==> r == Err(NullIdError))
              && (!usernameTaken && !emailTaken && !idTaken ==>
                    r == Ok(Registration(generateToken(newId), User(newId, name, email, username, hashPass(password)))))
      ensures r.Ok? ==> db.users == old(db.users) + [r.value.user]
      ensures r.Err? ==> db.users == old(db.users)
    {
      var findUsername := AuthRepository.GetUniqueByUsername(db.users, username);
      var findEmail := AuthRepository.GetUniqueByEmail(db.users, email);
      if findUsername.Some? {
        return Err(Raise(Conflict, "Username already registered."));
      }
      if findEmail.Some? {
        return Err(Raise(Conflict, "Email already registered."));
      }
      var hashedPassword := hashPass(password);
      var user := AuthRepository.Create(db, newId, name, email, username, hashedPassword);
      if user.None? {
        return Err(NullIdError);
      }
      var token := generateToken(user.value.id);
      return Ok(Registration(token, user.value));
    }

    /** loginUser: looks the user up by email, or by username when the email is empty, and checks the
      * password; both failures are InvalidErrors. */
    method LoginUser(email: string, username: string, password: string) returns (r: Result<Login, Thrown>)
      ensures var identifier := if email != "" then email else username;
              match AuthRepository.GetFirstByIdentifier(db.users, identifier)
              case None => r == Err(Raise(Invalid, "Invalid username or password."))
              case Some(u) =>
                if validatePass(password, u.password) then
                  r == Ok(Login(generateToken(u.id), PublicUser(u.id, u.username, u.email)))
                else
                  r == Err(Raise(Invalid, "Invalid username of password."))
    {
      var identifier := if email != "" then email else username;
      var user := AuthRepository.GetFirstByIdentifier(db.users, identifier);
      if user.None? {
        return Err(Raise(Invalid, "Invalid username or password."));
      }
      var isPasswordValid := validatePass(password, user.value.password);
      if !isPasswordValid {
        return Err(Raise(Invalid, "Invalid username of password."));
      }
      var token := generateToken(user.value.id);
      return Ok(Login(token, PublicUser(user.value.id, user.value.username, user.value.email)));
    }

    /** deleteUser: NotFound for an absent id; otherwise removes that user and answers the record as it was. */
    method DeleteUser(id: Id) returns (r: Result<User, Thrown>)
      requires db.Valid()
      modifies db`users
      ensures db.Valid()
      ensures (forall u :: u in old(db.users) ==> u.id != id) <==> r.Err?
      ensures r.Err? ==> r.error == Raise(NotFound, "User not found!") && db.users == old(db.users)
      ensures r.Ok? ==> r.value in old(db.users) && r.value.id == id
      ensures r.Ok? ==> db.users == Table.Filter(old(db.users), UserIdIsNot(id))
    {
      var toDelete := AuthRepository.GetById(db.users, id);
      if toDelete.None? {
        return Err(Raise(NotFound, "User not found!"));
      }
      var _ := AuthRepository.Delete(db, id);
      return Ok(toDelete.value);
    }
  }

  /** An unknown identifier and a wrong password are both InvalidErrors with status 418; only the wording of
    * the message tells them apart. */
  lemma LoginFailuresDifferOnlyInWording()
    ensures Raise(Invalid, "Invalid username or password.").Name() == Raise(Invalid, "Invalid username of password.").Name()
    ensures Raise(Invalid, "Invalid username or password.").err.StatusCode() == 418
    ensures Raise(Invalid, "Invalid username of password.").err.StatusCode() == 418
    ensures Raise(Invalid, "Invalid username or password.").Message() != Raise(Invalid, "Invalid username of password.").Message()
  {
    assert "Invalid username or password."[18] != "Invalid username of password."[18];
  }
}
