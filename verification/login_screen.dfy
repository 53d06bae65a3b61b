/** `screens/login_screen.py`: the two-field login form. */
module LoginScreen {
  import opened Wrappers
  import Store
  import opened App

  const BadCredentials := "Неверный email или пароль"

  /** `validate_input`: both fields must be non-empty. */
  function Validate(email: string, password: string): (r: Option<string>)
    ensures r.None? <==> |email| > 0 && |password| > 0
    ensures r.Some? ==> r.value == FillAllFields
  {
    if email == "" || password == "" then Some(FillAllFields) else None
  }

  /** `login`: after validation, a matching row becomes `current_user` and
      the chat screen opens; otherwise an error dialog. The database is
      only read. */
  function Login(a: App, email: string, password: string): (r: App)
    ensures r.db == a.db
    ensures Validate(email, password).Some? ==> r == a.(dialog := ErrorDialog(FillAllFields))
    ensures Validate(email, password).None? && !Store.Known(a.db, email, password) ==>
              r == a.(dialog := ErrorDialog(BadCredentials))
    ensures Validate(email, password).None? && Store.Known(a.db, email, password) ==>
              && r.screen == ChatScreen && r.dialog == a.dialog
              && r.session.LoggedIn?
              && exists i :: 0 <= i < |a.db.users| && a.db.users[i].email == email
                             && a.db.users[i].password == password
                             && r.session.user == Store.ProfileOf(a.db.users[i])
  {
    match Validate(email, password)
    case Some(msg) => a.(dialog := ErrorDialog(msg))
    case None =>
      match Store.Login(a.db, email, password)
      case Some(user) => a.(session := LoggedIn(user), screen := ChatScreen)
      case None => a.(dialog := ErrorDialog(BadCredentials))
  }

  /** `goto_register`. */
  function GotoRegister(a: App): (r: App)
    ensures r.screen == RegisterScreen && r.session == a.session && r.db == a.db
  {
    Show(a, RegisterScreen)
  }
}
