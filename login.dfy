/** The login form: an early-return chain over the two fields and the user lookup, then
    routing by role. */
module Login {
  import opened Js
  import opened Storage

  /** The fields of a `/users` row that login reads. */
  datatype UserRow = UserRow(name: Value, role: Value)

  datatype LoginOutcome =
    | EmailMissing                   // email message shown, nothing else checked
    | PasswordMissing                // password message shown, no lookup
    | ServerError                    // the lookup threw: alert
    | NoMatch                        // "login error" shown, nothing stored
    | CustomerHome(userName: string) // userName stored, redirected to the customer home
    | AdminHome                      // redirected to the admin page, nothing stored

  /** The submit handler's decision. The email is trimmed and the password is not;
      `users` is the answer to the lookup by email and password. */
  function Login(emailInput: string, password: string, users: Reply<UserRow>): (r: LoginOutcome)
    ensures Trim(emailInput) == "" ==> r == EmailMissing
    ensures Trim(emailInput) != "" && password == "" ==> r == PasswordMissing
    ensures r.CustomerHome? || r.AdminHome? ==>
              Trim(emailInput) != "" && password != "" && users.Rows? && |users.rows| > 0
    ensures r == NoMatch <==> Trim(emailInput) != "" && password != "" && users == Rows([])
    ensures r.CustomerHome? <==> r != EmailMissing && r != PasswordMissing && users.Rows? &&
                                 |users.rows| > 0 && users.rows[0].role == Str("user")
    ensures r.CustomerHome? ==> r.userName == ToStr(users.rows[0].name)
    ensures Trim(emailInput) != "" && password != "" && users.Failed? ==> r == ServerError
    ensures Trim(emailInput) != "" && password != "" && users.Rows? && |users.rows| > 0 ==>
              r == (if users.rows[0].role == Str("user") then CustomerHome(ToStr(users.rows[0].name))
                    else AdminHome)
  {
    var email := Trim(emailInput);
    if email == "" then EmailMissing
    else if password == "" then PasswordMissing
    else
      match users
      case Failed => ServerError
      case Rows(rows) =>
        if |rows| == 0 then NoMatch
        else
          var user := rows[0];
          if user.role == Str("user") then CustomerHome(ToStr(user.name)) else AdminHome
  }

  /** When several users match, only the first one decides. */
  lemma FirstMatchDecides(emailInput: string, password: string, first: UserRow, others: seq<UserRow>)
    ensures Login(emailInput, password, Rows([first] + others)) == Login(emailInput, password, Rows([first]))
  {
  }

  /** A missing field stops the handler before any lookup, so the answer is irrelevant. */
  lemma MissingFieldSkipsLookup(emailInput: string, password: string, a: Reply<UserRow>, b: Reply<UserRow>)
    requires Trim(emailInput) == "" || password == ""
    ensures Login(emailInput, password, a) == Login(emailInput, password, b)
  {
  }

  /** The handler with its one storage write: only a customer's login stores userName. */
  method SubmitLogin(store: LocalStore, emailInput: string, password: string, users: Reply<UserRow>)
    returns (outcome: LoginOutcome)
    modifies store`userName
    ensures outcome == Login(emailInput, password, users)
    ensures store.userName == if outcome.CustomerHome? then Some(outcome.userName) else old(store.userName)
  {
    outcome := Login(emailInput, password, users);
    if outcome.CustomerHome? {
      store.userName := Some(outcome.userName);
    }
  }
}
