/** `screens/register_screen.py`: the registration form, its four input
    rules in the order they are checked, and the dialogs that follow. */
module RegisterScreen {
  import opened Wrappers
  import Store
  import EmailRule
  import opened App

  const ShortUsername := "Имя пользователя должно содержать минимум 3 символа"
  const BadEmail := "Неверный формат email"
  const ShortPassword := "Пароль должен содержать минимум 6 символов"
  const Registered := "Регистрация успешна! Теперь вы можете войти."

  /** `validate_input`: the first rule broken, in the order the code
      checks them, names the message; `None` when all hold. Lengths count
      characters, as `len` of a `str` does. */
  function Validate(username: string, email: string, password: string): (r: Option<string>)
    ensures r == Some(FillAllFields) <==> username == "" || email == "" || password == ""
    ensures r == Some(ShortUsername) <==>
              username != "" && email != "" && password != "" && |username| < 3
    ensures r == Some(BadEmail) <==>
              username != "" && email != "" && password != "" && |username| >= 3
              && !EmailRule.Matches(email)
    ensures r == Some(ShortPassword) <==>
              username != "" && email != "" && password != "" && |username| >= 3
              && EmailRule.Matches(email) && |password| < 6
    ensures r.None? <==>
              |username| >= 3 && EmailRule.Matches(email) && |password| >= 6
  {
    EmailRule.ScanIsMatch(email);
    if username == "" || email == "" || password == "" then Some(FillAllFields)
    else if |username| < 3 then Some(ShortUsername)
    else if !EmailRule.Scan(email) then Some(BadEmail)
    else if |password| < 6 then Some(ShortPassword)
    else None
  }

  /** `register`: a form that passes validation goes to `register_user`;
      its refusal is shown as an error, its success as the success
      dialog. The screen and the session stay as they are. */
  function Submit(a: App, username: string, email: string, password: string): (r: App)
    ensures r.screen == a.screen && r.session == a.session
    ensures Validate(username, email, password).Some? ==>
              r == a.(dialog := ErrorDialog(Validate(username, email, password).value))
    ensures r.dialog == SuccessDialog(Registered) <==>
              Validate(username, email, password).None? && !Store.Clashes(a.db, username, email)
    ensures r.dialog == SuccessDialog(Registered) ==> r.db == Store.Insert(a.db, username, email, password)
    ensures r.dialog != SuccessDialog(Registered) ==> r.db == a.db
    ensures Validate(username, email, password).None? && Store.Clashes(a.db, username, email) ==>
              r.dialog == ErrorDialog(Store.DuplicateUser)
  {
    match Validate(username, email, password)
    case Some(msg) => a.(dialog := ErrorDialog(msg))
    case None =>
      var (db', outcome) := Store.Register(a.db, username, email, password);
      match outcome
      case Done => a.(db := db', dialog := SuccessDialog(Registered))
      case Refused(msg) => a.(db := db', dialog := ErrorDialog(msg))
  }

  /** `handle_success_dialog`: closes the dialog and opens the login
      screen. */
  function ConfirmSuccess(a: App): (r: App)
    ensures r.screen == LoginScreen && r.dialog == NoDialog
    ensures r.session == a.session && r.db == a.db
  {
    Show(a.(dialog := NoDialog), LoginScreen)
  }

  /** `goto_login`. */
  function GotoLogin(a: App): (r: App)
    ensures r.screen == LoginScreen && r.session == a.session && r.db == a.db
  {
    Show(a, LoginScreen)
  }
}
