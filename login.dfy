/**
 * The login decision: a request body carrying an email and a password is
 * checked for both fields, then the users table is searched for a row whose
 * email and password both equal the given ones, and the first such row's
 * id, email and role are handed back.
 */
module Login {
  import opened Wrappers

  /** A row of the users table, with the columns the login query touches. */
  datatype User = User(id: int, email: string, password: string, role: string)

  /** The columns the login query selects. */
  datatype Identity = Identity(id: int, email: string, role: string)

  /** Status 400, status 401, or status 200 with the selected row. */
  datatype LoginOutcome = MissingFields | InvalidCredentials | LoggedIn(user: Identity)

  /** A body field is truthy when it is present and not the empty string. */
  predicate Present(field: Option<string>) {
    field.Some? && field.value != ""
  }

  /** The WHERE clause of the login query. */
  predicate Matches(u: User, email: string, password: string) {
    u.email == email && u.password == password
  }

  function Selected(u: User): Identity {
    Identity(u.id, u.email, u.role)
  }

  /** The position of the first row that matches, in table order. */
  function FirstMatch(users: seq<User>, email: string, password: string): (r: Option<nat>)
    ensures r.None? <==> forall j | 0 <= j < |users| :: !Matches(users[j], email, password)
    ensures r.Some? ==> r.value < |users| && Matches(users[r.value], email, password)
    ensures r.Some? ==> forall j | 0 <= j < r.value :: !Matches(users[j], email, password)
  {
    if users == [] then None
    else if Matches(users[0], email, password) then Some(0)
    else
      match FirstMatch(users[1..], email, password)
      case None => None
      case Some(k) => Some(k + 1)
  }

  /**
   * The outcome of a login request against the users table: missing fields
   * are refused before the table is consulted, no matching row is invalid
   * credentials, and otherwise the first matching row is returned.
   */
  function Login(users: seq<User>, email: Option<string>, password: Option<string>): (r: LoginOutcome)
    ensures r == MissingFields <==> !Present(email) || !Present(password)
    ensures Present(email) && Present(password) ==>
      (r == InvalidCredentials <==>
        forall j | 0 <= j < |users| :: !Matches(users[j], email.value, password.value))
    ensures r.LoggedIn? ==>
      && Present(email) && Present(password)
      && exists i | 0 <= i < |users| ::
        && Matches(users[i], email.value, password.value)
        && (forall j | 0 <= j < i :: !Matches(users[j], email.value, password.value))
        && r.user == Selected(users[i])
  {
    if !Present(email) || !Present(password) then MissingFields
    else
      match FirstMatch(users, email.value, password.value)
      case None => InvalidCredentials
      case Some(i) => LoggedIn(Selected(users[i]))
  }

  /** A successful login echoes the email it was given, and its row holds the given password. */
  lemma LoggedInEchoesCredentials(users: seq<User>, email: Option<string>, password: Option<string>)
    requires Login(users, email, password).LoggedIn?
    ensures Login(users, email, password).user.email == email.value
    ensures exists u | u in users :: Selected(u) == Login(users, email, password).user && u.password == password.value
  {
    var i := FirstMatch(users, email.value, password.value).value;
    assert users[i] in users;
  }

  /** Rows added after a matching row do not change who logs in. */
  lemma {:induction false} LaterRowsIrrelevant(users: seq<User>, more: seq<User>, email: string, password: string)
    requires FirstMatch(users, email, password).Some?
    ensures FirstMatch(users + more, email, password) == FirstMatch(users, email, password)
  {
    if !Matches(users[0], email, password) {
      assert (users + more)[1..] == users[1..] + more;
      LaterRowsIrrelevant(users[1..], more, email, password);
    }
  }
}
