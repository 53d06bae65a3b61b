/** The client application of `main.py` as the four screens see it: which
    screen is current, the `current_user` attribute, the database, and the
    dialog last opened. Each screen handler is a function from one such
    state to the next. A Python exception that escapes a handler ends it
    with a `Crash` instead of a new state. */
module App {
  import opened Wrappers
  import Store

  datatype ScreenName = LoginScreen | RegisterScreen | ChatScreen | ProfileScreen

  /** The attribute `app.current_user`: `Absent` after `delattr` (so
      `hasattr` is false), `NoneVal` for the `None` set at start-up, and
      the user dict once logged in. */
  datatype Session = Absent | NoneVal | LoggedIn(user: Store.Profile)

  datatype Dialog = NoDialog | ErrorDialog(text: string) | SuccessDialog(text: string)

  datatype PyError = AttributeError | TypeError | ValueError

  datatype Step<T> = Ok(value: T) | Crash(error: PyError)

  datatype App = App(screen: ScreenName, session: Session, db: Store.Store, dialog: Dialog)

  const FillAllFields := "Пожалуйста, заполните все поля"

  /** The application as `ChatApp.__init__` and `build` leave it: the
      login screen first, `current_user` set to `None`. */
  function Start(db: Store.Store): (a: App)
    ensures a.screen == LoginScreen && a.session == NoneVal && a.dialog == NoDialog
  {
    App(LoginScreen, NoneVal, db, NoDialog)
  }

  /** `hasattr(app, 'current_user')`. */
  predicate HasUser(s: Session) {
    !s.Absent?
  }

  /** `app.current_user`, read to subscript it: a missing attribute raises
      `AttributeError`, subscripting `None` raises `TypeError`. */
  function CurrentUser(s: Session): (r: Step<Store.Profile>)
    ensures r.Ok? <==> s.LoggedIn?
    ensures r.Ok? ==> r.value == s.user
    ensures r == Crash(AttributeError) <==> s.Absent?
    ensures r == Crash(TypeError) <==> s.NoneVal?
  {
    match s
    case Absent => Crash(AttributeError)
    case NoneVal => Crash(TypeError)
    case LoggedIn(u) => Ok(u)
  }

  /** `self.manager.current = name`. */
  function Show(a: App, name: ScreenName): App {
    a.(screen := name)
  }
}
