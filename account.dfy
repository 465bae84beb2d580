/** The account page's demo login form: five state cells (email, password,
    error, isLoggedIn, currentUser) checked against a fixed list of demo users.
    It keeps its own session and does not touch the state provider. */
module Account {
  import opened Wrappers
  import opened Text

  datatype DemoUser = DemoUser(name: string, email: string, password: string)

  const DemoUsers: seq<DemoUser> := [
    DemoUser("Emma Parker", "emma@demo.com", "Emma123!"),
    DemoUser("James Carter", "james@demo.com", "Carter#45")
  ]

  const MissingFieldsError := "Please enter your email and password."
  const InvalidCredentialsError := "Invalid credentials. Try a demo user."

  /** Whether the credentials are those of `u`: the email as already trimmed, the password as typed. */
  predicate Matches(u: DemoUser, email: string, password: string) {
    u.email == email && u.password == password
  }

  /** `users[i]` matches and no earlier user does. */
  predicate FirstMatch(users: seq<DemoUser>, i: int, email: string, password: string) {
    && 0 <= i < |users| && Matches(users[i], email, password)
    && forall j :: 0 <= j < i ==> !Matches(users[j], email, password)
  }

  /** `users.find(...)`: the first user the credentials match. */
  function FindUser(users: seq<DemoUser>, email: string, password: string): (r: Option<DemoUser>)
    ensures r.None? <==> forall i :: 0 <= i < |users| ==> !Matches(users[i], email, password)
    ensures r.Some? ==> exists i :: FirstMatch(users, i, email, password) && users[i] == r.value
  {
    if users == [] then None
    else if Matches(users[0], email, password) then
      assert FirstMatch(users, 0, email, password);
      Some(users[0])
    else
      var r := FindUser(users[1..], email, password);
      assert forall i :: 0 < i < |users| ==> users[i] == users[1..][i - 1];
      if r.Some? then
        var i :| FirstMatch(users[1..], i, email, password) && users[1..][i] == r.value;
        assert FirstMatch(users, i + 1, email, password);
        r
      else r
  }

  /** The state cells of the form. */
  class LoginForm {
    var email: string
    var password: string
    var error: string
    var isLoggedIn: bool
    var currentUser: string

    constructor ()
      ensures email == "" && password == "" && error == "" && !isLoggedIn && currentUser == ""
    {
      email := "";
      password := "";
      error := "";
      isLoggedIn := false;
      currentUser := "";
    }

    /** Typing into the email field. */
    method SetEmail(value: string)
      modifies this
      ensures email == value
      ensures password == old(password) && error == old(error)
      ensures isLoggedIn == old(isLoggedIn) && currentUser == old(currentUser)
    {
      email := value;
    }

    /** Typing into the password field. */
    method SetPassword(value: string)
      modifies this
      ensures password == value
      ensures email == old(email) && error == old(error)
      ensures isLoggedIn == old(isLoggedIn) && currentUser == old(currentUser)
    {
      password := value;
    }

    /** `handleSubmit`: clear the error; refuse empty fields; refuse unknown
        credentials; otherwise log in as the first matching demo user. */
    method HandleSubmit()
      modifies this
      ensures email == old(email) && password == old(password)
      ensures old(email) == "" || old(password) == "" ==>
        error == MissingFieldsError && isLoggedIn == old(isLoggedIn) && currentUser == old(currentUser)
      ensures old(email) != "" && old(password) != "" && FindUser(DemoUsers, Trim(old(email)), old(password)).None? ==>
        error == InvalidCredentialsError && isLoggedIn == old(isLoggedIn) && currentUser == old(currentUser)
      ensures old(email) != "" && old(password) != "" && FindUser(DemoUsers, Trim(old(email)), old(password)).Some? ==>
        error == "" && isLoggedIn && currentUser == FindUser(DemoUsers, Trim(old(email)), old(password)).value.name
    {
      error := "";
      if email == "" || password == "" {
        error := MissingFieldsError;
        return;
      }
      var found := FindUser(DemoUsers, Trim(email), password);
      if found.None? {
        error := InvalidCredentialsError;
        return;
      }
      currentUser := found.value.name;
      isLoggedIn := true;
    }

    /** `handleLogout`: the error is left as it is. */
    method HandleLogout()
      modifies this
      ensures !isLoggedIn && email == "" && password == "" && currentUser == ""
      ensures error == old(error)
    {
      isLoggedIn := false;
      email := "";
      password := "";
      currentUser := "";
    }
  }

  /** The first demo user's credentials log in as Emma Parker. */
  lemma EmmaLogsIn()
    ensures FindUser(DemoUsers, "emma@demo.com", "Emma123!") == Some(DemoUsers[0])
  {
  }

  /** The password is compared exactly: a different case is refused. */
  lemma WrongPasswordRefused()
    ensures FindUser(DemoUsers, "emma@demo.com", "emma123!").None?
  {
  }
}
