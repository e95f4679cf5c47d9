/** The registration form: four field checks that all run, then a lookup of the email,
    then the creation of the user. */
module Register {
  import opened Js
  import opened Storage

  /** Which of the four error messages are shown. */
  datatype FieldErrors = FieldErrors(name: bool, email: bool, password: bool, confirm: bool)

  /** The form passes the field checks: a name that is not blank, an email with an `@`,
      a password of at least 6 characters, and a matching confirmation. */
  predicate FieldsAccepted(nameInput: string, emailInput: string, password: string, confirmPassword: string)
  {
    Trim(nameInput) != "" && '@' in Trim(emailInput) && |password| >= 6 && password == confirmPassword
  }

  /** The checks of the submit handler. Name and email are trimmed, the password is not;
      each check clears `valid` on its own, so every failing check shows its message. */
  method CheckFields(nameInput: string, emailInput: string, password: string, confirmPassword: string)
    returns (valid: bool, errors: FieldErrors)
    ensures errors.name <==> Trim(nameInput) == ""
    ensures errors.email <==> '@' !in Trim(emailInput)
    ensures errors.password <==> |password| < 6
    ensures errors.confirm <==> password != confirmPassword
    ensures valid <==> FieldsAccepted(nameInput, emailInput, password, confirmPassword)
    ensures valid <==> errors == FieldErrors(false, false, false, false)
  {
    var name := Trim(nameInput);
    var email := Trim(emailInput);
    valid := true;
    errors := FieldErrors(false, false, false, false);
    if name == "" {
      errors := errors.(name := true);
      valid := false;
    }
    IncludesChar(email, '@');
    if email == "" || !Includes(email, "@") {
      errors := errors.(email := true);
      valid := false;
    }
    if |password| < 6 {
      errors := errors.(password := true);
      valid := false;
    }
    if password != confirmPassword {
      errors := errors.(confirm := true);
      valid := false;
    }
  }

  /** The record posted to `/users`. */
  datatype NewUser = NewUser(name: string, email: string, password: string, role: string)

  datatype RegisterOutcome =
    | Invalid(errors: FieldErrors)   // field messages shown, nothing sent
    | EmailTaken                     // "email exists" shown, nothing created
    | CheckFailed                    // the lookup threw: alert, nothing created
    | CreateFailed(user: NewUser)    // the post threw or was not ok: alert
    | Registered(user: NewUser)      // userName stored, redirected to the customer home

  /** The submit handler. `existing` is the answer to the lookup of the trimmed email and
      `created` whether the post came back ok. */
  method Register(store: LocalStore, nameInput: string, emailInput: string, password: string,
                  confirmPassword: string, existing: Reply<Value>, created: bool)
    returns (outcome: RegisterOutcome)
    modifies store`userName
    ensures !FieldsAccepted(nameInput, emailInput, password, confirmPassword) <==> outcome.Invalid?
    ensures outcome.Invalid? ==>
      outcome.errors == FieldErrors(Trim(nameInput) == "", '@' !in Trim(emailInput),
                                    |password| < 6, password != confirmPassword)
    ensures FieldsAccepted(nameInput, emailInput, password, confirmPassword) ==>
      outcome == (match existing
                  case Failed => CheckFailed
                  case Rows(rows) =>
                    if |rows| > 0 then EmailTaken
                    else
                      var user := NewUser(Trim(nameInput), Trim(emailInput), password, "user");
                      if created then Registered(user) else CreateFailed(user))
    ensures store.userName == if outcome.Registered? then Some(Trim(nameInput)) else old(store.userName)
  {
    var valid, errors := CheckFields(nameInput, emailInput, password, confirmPassword);
    if !valid {
      return Invalid(errors);
    }
    match existing {
      case Failed =>
        return CheckFailed;
      case Rows(rows) =>
        if |rows| > 0 {
          return EmailTaken;
        }
    }
    var user := NewUser(Trim(nameInput), Trim(emailInput), password, "user");
    if !created {
      return CreateFailed(user);
    }
    store.userName := Some(user.name);
    outcome := Registered(user);
  }
}
