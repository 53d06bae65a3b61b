/** The four screens of `main.py` under one screen manager: a user action
    reaches the handler of the screen it belongs to, and when the current
    screen changes Kivy runs the new screen's `on_enter`. Over this the
    model proves that the session guards of the chat and profile screens
    never let a handler read a missing or `None` `current_user`, for the
    program as written; with the two profile handlers corrected, the
    session also keeps agreeing with the database. */
module Client {
  import opened Wrappers
  import Clock
  import Text
  import Paths
  import Store
  import opened App
  import LoginScreen
  import RegisterScreen
  import ChatScreen
  import ProfileScreen

  /** The application with the data-holding widgets of the screens that
      keep some between visits. */
  datatype Ui = Ui(app: App, chat: ChatScreen.ChatView, profile: ProfileScreen.ProfileView)

  /** Which `on_enter` and `save_profile` of the profile screen the
      manager runs: the program's own, or the corrected ones of the
      README's findings. Every other handler is the same in both. */
  datatype Edition = AsWritten | Corrected

  /** What a user can do. `SendMessage` carries the text the store's
      `CURRENT_TIMESTAMP` gives the message. */
  datatype Action =
    | SignIn(email: string, password: string)
    | OpenRegister
    | SignUp(username: string, email: string, password: string)
    | ConfirmRegistered
    | OpenLogin
    | TypeMessage(text: string)
    | SendMessage(now: string)
    | Tick
    | LogOut
    | OpenProfile
    | ChooseAvatar(selection: seq<string>, copyError: Option<string>)
    | EditProfile(username: string, bio: string)
    | SaveProfile
    | ChangePassword(oldPassword: string, newPassword: string, confirm: string)
    | Back

  /** The application right after `build`. */
  function Boot(db: Store.Store): Ui {
    Ui(Start(db), ChatScreen.Blank, ProfileScreen.Initial)
  }

  /** The action's handler, when the screen it belongs to is current (and,
      for the button of the registration dialog, when that dialog is
      shown); otherwise nothing happens. */
  function Act(e: Edition, u: Ui, act: Action, fileExists: string -> bool): (r: Step<Ui>)
    requires Store.Valid(u.app.db)
    ensures r.Ok? ==> Store.Valid(r.value.app.db)
  {
    var a := u.app;
    match act
    case SignIn(email, password) =>
      if a.screen != LoginScreen then Ok(u) else Ok(u.(app := LoginScreen.Login(a, email, password)))
    case OpenRegister =>
      if a.screen != LoginScreen then Ok(u) else Ok(u.(app := LoginScreen.GotoRegister(a)))
    case SignUp(username, email, password) =>
      if a.screen != RegisterScreen then Ok(u) else Ok(OnSignUp(u, username, email, password))
    case ConfirmRegistered =>
      if a.screen != RegisterScreen || a.dialog != SuccessDialog(RegisterScreen.Registered) then Ok(u)
      else Ok(u.(app := RegisterScreen.ConfirmSuccess(a)))
    case OpenLogin =>
      if a.screen != RegisterScreen then Ok(u) else Ok(u.(app := RegisterScreen.GotoLogin(a)))
    case TypeMessage(text) =>
      if a.screen != ChatScreen then Ok(u) else Ok(u.(chat := u.chat.(input := text)))
    case SendMessage(now) =>
      if a.screen != ChatScreen then Ok(u) else OnSend(u, now, fileExists)
    case Tick =>
      if a.screen != ChatScreen then Ok(u) else OnTick(u, fileExists)
    case LogOut =>
      if a.screen != ChatScreen then Ok(u) else Ok(u.(app := ChatScreen.Logout(a)))
    case OpenProfile =>
      if a.screen != ChatScreen then Ok(u) else Ok(u.(app := ChatScreen.GotoProfile(a)))
    case ChooseAvatar(selection, copyError) =>
      if a.screen != ProfileScreen then Ok(u) else OnChooseAvatar(u, selection, copyError)
    case EditProfile(username, bio) =>
      if a.screen != ProfileScreen then Ok(u)
      else Ok(u.(profile := u.profile.(username := username, bio := bio)))
    case SaveProfile =>
      if a.screen != ProfileScreen then Ok(u) else OnSaveProfile(e, u)
    case ChangePassword(oldPassword, newPassword, confirm) =>
      if a.screen != ProfileScreen then Ok(u) else OnChangePassword(u, oldPassword, newPassword, confirm)
    case Back =>
      if a.screen != ProfileScreen then Ok(u) else Ok(u.(app := ProfileScreen.GoBack(a)))
  }

  // The handlers that write to the database, each keeping its constraints.

  function OnSignUp(u: Ui, username: string, email: string, password: string): (r: Ui)
    requires Store.Valid(u.app.db)
    ensures Store.Valid(r.app.db)
  {
    var next := RegisterScreen.Submit(u.app, username, email, password);
    if next.dialog == SuccessDialog(RegisterScreen.Registered) then
      Store.RegisterKeepsValid(u.app.db, username, email, password);
      u.(app := next)
    else u.(app := next)
  }

  function OnSend(u: Ui, now: string, fileExists: string -> bool): (r: Step<Ui>)
    requires Store.Valid(u.app.db)
    ensures r.Ok? ==> Store.Valid(r.value.app.db)
  {
    var a := u.app;
    match ChatScreen.Send(a, u.chat, now, fileExists)
    case Crash(e) => Crash(e)
    case Ok((next, view)) =>
      if a.session.LoggedIn? then
        Store.SaveKeepsValid(a.db, Some(a.session.user.id), a.session.user.username,
                             Text.Strip(u.chat.input), now);
        Ok(Ui(next, view, u.profile))
      else Ok(Ui(next, view, u.profile))
  }

  function OnTick(u: Ui, fileExists: string -> bool): (r: Step<Ui>)
    ensures r.Ok? ==> r.value.app.db == u.app.db
  {
    match ChatScreen.Refresh(u.app, u.chat, fileExists)
    case Crash(e) => Crash(e)
    case Ok((next, view)) => Ok(Ui(next, view, u.profile))
  }

  function OnChooseAvatar(u: Ui, selection: seq<string>, copyError: Option<string>): (r: Step<Ui>)
    requires Store.Valid(u.app.db)
    ensures r.Ok? ==> Store.Valid(r.value.app.db)
  {
    var a := u.app;
    match ProfileScreen.PickAvatar(a, u.profile, selection, copyError)
    case Crash(e) => Crash(e)
    case Ok((next, view)) =>
      if next.db != a.db then
        var ext := Text.Lower(Paths.Extension(selection[0]));
        Store.UpdateProfileKeepsValid(a.db, a.session.user.id, None, None,
                                      Some(Paths.AvatarTarget(a.session.user.id, ext)));
        Ok(Ui(next, u.chat, view))
      else Ok(Ui(next, u.chat, view))
  }

  /** `save_profile` of the edition. */
  function SaveOf(e: Edition, a: App, v: ProfileScreen.ProfileView): Step<App> {
    if e == AsWritten then ProfileScreen.SaveProfileAsWritten(a, v) else ProfileScreen.SaveProfile(a, v)
  }

  /** `on_enter` of the profile screen in the edition. */
  function ProfileEnterOf(e: Edition, a: App, v: ProfileScreen.ProfileView): Step<(App, ProfileScreen.ProfileView)> {
    if e == AsWritten then ProfileScreen.OnEnterAsWritten(a, v) else ProfileScreen.OnEnter(a, v)
  }

  function OnSaveProfile(e: Edition, u: Ui): (r: Step<Ui>)
    requires Store.Valid(u.app.db)
    ensures r.Ok? ==> Store.Valid(r.value.app.db)
  {
    var a := u.app;
    match SaveOf(e, a, u.profile)
    case Crash(err) => Crash(err)
    case Ok(next) =>
      var p := u.profile;
      Store.UpdateProfileKeepsValid(a.db, a.session.user.id, Some(p.username), Some(p.bio),
                                    Some(p.avatarSource));
      Ok(u.(app := next))
  }

  function OnChangePassword(u: Ui, oldPassword: string, newPassword: string, confirm: string): (r: Step<Ui>)
    requires Store.Valid(u.app.db)
    ensures r.Ok? ==> Store.Valid(r.value.app.db)
  {
    var a := u.app;
    match ProfileScreen.ChangePassword(a, oldPassword, newPassword, confirm)
    case Crash(e) => Crash(e)
    case Ok((next, _)) =>
      if a.session.LoggedIn? then
        Store.ChangePasswordKeepsValid(a.db, a.session.user.id, oldPassword, newPassword);
        Ok(u.(app := next))
      else Ok(u.(app := next))
  }

  /** `on_enter` of the screen that became current, if it has one. */
  function Enter(e: Edition, before: ScreenName, u: Ui, fileExists: string -> bool): (r: Step<Ui>)
    ensures r.Ok? ==> r.value.app.db == u.app.db && r.value.app.session == u.app.session
  {
    if u.app.screen == before then Ok(u)
    else
      match u.app.screen
      case ChatScreen =>
        (match ChatScreen.OnEnter(u.app, u.chat, fileExists)
         case Crash(e) => Crash(e)
         case Ok((next, view)) => Ok(Ui(next, view, u.profile)))
      case ProfileScreen =>
        (match ProfileEnterOf(e, u.app, u.profile)
         case Crash(err) => Crash(err)
         case Ok((next, view)) => Ok(Ui(next, u.chat, view)))
      case _ => Ok(u)
  }

  /** One user action and the screen change it causes. */
  function Handle(e: Edition, u: Ui, act: Action, fileExists: string -> bool): (r: Step<Ui>)
    requires Store.Valid(u.app.db)
    ensures r.Ok? ==> Store.Valid(r.value.app.db)
  {
    match Act(e, u, act, fileExists)
    case Crash(err) => Crash(err)
    case Ok(next) => Enter(e, u.app.screen, next, fileExists)
  }

  /** A sequence of actions, up to the first one that raises. */
  function Run(e: Edition, u: Ui, acts: seq<Action>, fileExists: string -> bool): (r: Step<Ui>)
    requires Store.Valid(u.app.db)
    ensures r.Ok? ==> Store.Valid(r.value.app.db)
    decreases |acts|
  {
    if |acts| == 0 then Ok(u)
    else
      match Handle(e, u, acts[0], fileExists)
      case Crash(err) => Crash(err)
      case Ok(next) => Run(e, next, acts[1..], fileExists)
  }

  // ---------------------------------------------------------------------
  // What every reachable state satisfies
  // ---------------------------------------------------------------------

  /** Every stored timestamp has the form `%Y-%m-%d %H:%M:%S`. */
  ghost predicate Stamped(db: Store.Store) {
    forall k :: 0 <= k < |db.messages| ==> Clock.Parse(db.messages[k].timestamp).Some?
  }

  /** The chat and profile screens are only current with a logged-in
      user; in the corrected edition that user's session also agrees with
      the database. */
  ghost predicate Guarded(e: Edition, u: Ui) {
    && Store.Valid(u.app.db)
    && (u.app.screen == ChatScreen || u.app.screen == ProfileScreen ==> u.app.session.LoggedIn?)
    && (e == Corrected ==> ProfileScreen.InSync(u.app))
  }

  /** A message stamp the store's clock can produce. */
  predicate Stamps(act: Action) {
    act.SendMessage? ==> Clock.Parse(act.now).Some?
  }

  lemma StampedViews(db: Store.Store, fileExists: string -> bool)
    requires Stamped(db)
    ensures ChatScreen.AllParse(Store.GetMessages(db, fileExists))
  {
    var views := Store.GetMessages(db, fileExists);
    var picked := Store.RecentMessages(db);
    forall i | 0 <= i < |views| ensures Clock.Parse(views[i].timestamp).Some? {
      assert views[i] == Store.View(db, picked[i], fileExists);
      assert picked[i] in multiset(picked);
      assert picked[i] in multiset(db.messages);
      var k :| 0 <= k < |db.messages| && db.messages[k] == picked[i];
    }
  }

  lemma SaveKeepsStamped(db: Store.Store, userId: Option<int>, username: string, text: string, now: string)
    requires Stamped(db) && Clock.Parse(now).Some?
    ensures Stamped(Store.SaveMessage(db, userId, username, text, now))
  {
  }

  /** `r`, the outcome of `act` in `u`, raises nothing but `ValueError`,
      stays guarded, and raises nothing once all timestamps are well
      formed. */
  ghost predicate Keeps(e: Edition, u: Ui, act: Action, r: Step<Ui>) {
    && (r.Crash? ==> r.error == ValueError)
    && (r.Ok? ==> Guarded(e, r.value))
    && (Stamped(u.app.db) && Stamps(act) ==> r.Ok? && Stamped(r.value.app.db))
  }

  /** Entering the chat or profile screen in a guarded state reads a
      logged-in session and changes nothing but the screen's widgets. */
  lemma EnterKeepsGuard(e: Edition, before: ScreenName, u: Ui, act: Action, fileExists: string -> bool)
    requires Guarded(e, u)
    ensures Keeps(e, u, act, Enter(e, before, u, fileExists))
    ensures Enter(e, before, u, fileExists).Ok? ==> Enter(e, before, u, fileExists).value.app == u.app
  {
    if Stamped(u.app.db) {
      StampedViews(u.app.db, fileExists);
    }
  }

  // Each handler that writes to the database keeps the guard ...

  lemma SignUpKeepsGuard(e: Edition, u: Ui, username: string, email: string, password: string)
    requires Guarded(e, u) && u.app.screen == RegisterScreen
    ensures Keeps(e, u, SignUp(username, email, password), Ok(OnSignUp(u, username, email, password)))
  {
    var a := u.app;
    var r := OnSignUp(u, username, email, password);
    if e == Corrected && r.app.db != a.db && a.session.LoggedIn? {
      var i :| 0 <= i < |a.db.users| && a.db.users[i].id == a.session.user.id
               && a.db.users[i].username == a.session.user.username;
      assert r.app.db.users[i] == a.db.users[i];
    }
  }

  /** A logged-in send of a non-blank line saves the message, keeps every
      other part of the application, and raises only on a bad stamp. */
  lemma SendOutcome(u: Ui, now: string, fileExists: string -> bool)
    requires Store.Valid(u.app.db) && u.app.session.LoggedIn? && !Text.AllSpace(u.chat.input)
    ensures var db := Store.SaveMessage(u.app.db, Some(u.app.session.user.id), u.app.session.user.username,
                                        Text.Strip(u.chat.input), now);
            var r := OnSend(u, now, fileExists);
            && (r.Crash? ==> r.error == ValueError)
            && (r.Ok? ==> r.value.app == u.app.(db := db))
            && (ChatScreen.AllParse(Store.GetMessages(db, fileExists)) ==> r.Ok?)
  {
  }

  /** A send raises at most `ValueError` and stays guarded ... */
  lemma SendStaysGuarded(e: Edition, u: Ui, now: string, fileExists: string -> bool)
    requires Guarded(e, u) && u.app.screen == ChatScreen && !Text.AllSpace(u.chat.input)
    ensures var r := OnSend(u, now, fileExists);
            (r.Crash? ==> r.error == ValueError) && (r.Ok? ==> Guarded(e, r.value))
  {
    var a := u.app;
    SendOutcome(u, now, fileExists);
    Store.SaveKeepsValid(a.db, Some(a.session.user.id), a.session.user.username, Text.Strip(u.chat.input), now);
  }

  /** ... and with well-formed stamps it raises nothing and stores a
      well-formed stamp. */
  lemma SendStaysStamped(u: Ui, now: string, fileExists: string -> bool)
    requires Store.Valid(u.app.db) && u.app.session.LoggedIn? && !Text.AllSpace(u.chat.input)
    requires Stamped(u.app.db) && Clock.Parse(now).Some?
    ensures var r := OnSend(u, now, fileExists);
            r.Ok? && Stamped(r.value.app.db)
  {
    var a := u.app;
    var db := Store.SaveMessage(a.db, Some(a.session.user.id), a.session.user.username,
                                Text.Strip(u.chat.input), now);
    SendOutcome(u, now, fileExists);
    SaveKeepsStamped(a.db, Some(a.session.user.id), a.session.user.username, Text.Strip(u.chat.input), now);
    StampedViews(db, fileExists);
  }

  lemma SendKeepsGuard(e: Edition, u: Ui, now: string, fileExists: string -> bool)
    requires Guarded(e, u) && u.app.screen == ChatScreen
    ensures Keeps(e, u, SendMessage(now), OnSend(u, now, fileExists))
  {
    if !Text.AllSpace(u.chat.input) {
      SendStaysGuarded(e, u, now, fileExists);
      if Stamped(u.app.db) && Clock.Parse(now).Some? {
        SendStaysStamped(u, now, fileExists);
      }
    }
  }

  lemma TickKeepsGuard(e: Edition, u: Ui, fileExists: string -> bool)
    requires Guarded(e, u) && u.app.screen == ChatScreen
    ensures Keeps(e, u, Tick, OnTick(u, fileExists))
  {
    if Stamped(u.app.db) {
      StampedViews(u.app.db, fileExists);
    }
  }

  lemma AvatarKeepsGuard(e: Edition, u: Ui, selection: seq<string>, copyError: Option<string>)
    requires Guarded(e, u) && u.app.screen == ProfileScreen
    ensures Keeps(e, u, ChooseAvatar(selection, copyError), OnChooseAvatar(u, selection, copyError))
  {
    var a := u.app;
    var r := OnChooseAvatar(u, selection, copyError);
    if e == Corrected && r.Ok? && r.value.app.db != a.db {
      var i :| 0 <= i < |a.db.users| && a.db.users[i].id == a.session.user.id
               && a.db.users[i].username == a.session.user.username;
      assert r.value.app.db.users[i].id == a.db.users[i].id;
      assert r.value.app.db.users[i].username == a.db.users[i].username;
    }
  }

  lemma PasswordKeepsGuard(e: Edition, u: Ui, oldPassword: string, newPassword: string, confirm: string)
    requires Guarded(e, u) && u.app.screen == ProfileScreen
    ensures Keeps(e, u, ChangePassword(oldPassword, newPassword, confirm),
                  OnChangePassword(u, oldPassword, newPassword, confirm))
  {
    var a := u.app;
    var r := OnChangePassword(u, oldPassword, newPassword, confirm);
    if e == Corrected && r.Ok? && r.value.app.db != a.db {
      var i :| 0 <= i < |a.db.users| && a.db.users[i].id == a.session.user.id
               && a.db.users[i].username == a.session.user.username;
      assert r.value.app.db.users[i].id == a.db.users[i].id;
      assert r.value.app.db.users[i].username == a.db.users[i].username;
    }
  }

  // ... and so does `Act`, which calls it only on its own screen.

  lemma ActSignUp(e: Edition, u: Ui, act: Action, fileExists: string -> bool)
    requires Guarded(e, u) && act.SignUp?
    ensures Keeps(e, u, act, Act(e, u, act, fileExists))
  {
    if u.app.screen == RegisterScreen {
      SignUpKeepsGuard(e, u, act.username, act.email, act.password);
    }
  }

  lemma ActSend(e: Edition, u: Ui, act: Action, fileExists: string -> bool)
    requires Guarded(e, u) && act.SendMessage?
    ensures Keeps(e, u, act, Act(e, u, act, fileExists))
  {
    if u.app.screen == ChatScreen {
      SendKeepsGuard(e, u, act.now, fileExists);
    }
  }

  lemma ActTick(e: Edition, u: Ui, act: Action, fileExists: string -> bool)
    requires Guarded(e, u) && act.Tick?
    ensures Keeps(e, u, act, Act(e, u, act, fileExists))
  {
    if u.app.screen == ChatScreen {
      TickKeepsGuard(e, u, fileExists);
    }
  }

  lemma ActAvatar(e: Edition, u: Ui, act: Action, fileExists: string -> bool)
    requires Guarded(e, u) && act.ChooseAvatar?
    ensures Keeps(e, u, act, Act(e, u, act, fileExists))
  {
    if u.app.screen == ProfileScreen {
      AvatarKeepsGuard(e, u, act.selection, act.copyError);
    }
  }

  lemma ActPassword(e: Edition, u: Ui, act: Action, fileExists: string -> bool)
    requires Guarded(e, u) && act.ChangePassword?
    ensures Keeps(e, u, act, Act(e, u, act, fileExists))
  {
    if u.app.screen == ProfileScreen {
      PasswordKeepsGuard(e, u, act.oldPassword, act.newPassword, act.confirm);
    }
  }

  /** The same for the handler of any action. */
  lemma ActKeepsGuard(e: Edition, u: Ui, act: Action, fileExists: string -> bool)
    requires Guarded(e, u)
    ensures Keeps(e, u, act, Act(e, u, act, fileExists))
  {
    if act.SignUp? {
      ActSignUp(e, u, act, fileExists);
    } else if act.SendMessage? {
      ActSend(e, u, act, fileExists);
    } else if act.Tick? {
      ActTick(e, u, act, fileExists);
    } else if act.ChooseAvatar? {
      ActAvatar(e, u, act, fileExists);
    } else if act.ChangePassword? {
      ActPassword(e, u, act, fileExists);
    } else if act.SignIn? || act.OpenRegister? || act.ConfirmRegistered? || act.OpenLogin? {
      EntryKeepsGuard(e, u, act, fileExists);
    } else {
      InsideKeepsGuard(e, u, act, fileExists);
    }
  }

  /** The actions of the login and registration screens. */
  lemma EntryKeepsGuard(e: Edition, u: Ui, act: Action, fileExists: string -> bool)
    requires Guarded(e, u)
    requires act.SignIn? || act.OpenRegister? || act.ConfirmRegistered? || act.OpenLogin?
    ensures Keeps(e, u, act, Act(e, u, act, fileExists))
  {
  }

  /** The actions of the chat and profile screens that do not write
      messages, avatars or passwords. */
  lemma InsideKeepsGuard(e: Edition, u: Ui, act: Action, fileExists: string -> bool)
    requires Guarded(e, u)
    requires act.TypeMessage? || act.LogOut? || act.OpenProfile? || act.EditProfile? || act.SaveProfile? || act.Back?
    ensures Keeps(e, u, act, Act(e, u, act, fileExists))
  {
  }

  lemma HandleKeepsGuard(e: Edition, u: Ui, act: Action, fileExists: string -> bool)
    requires Guarded(e, u)
    ensures Keeps(e, u, act, Handle(e, u, act, fileExists))
  {
    ActKeepsGuard(e, u, act, fileExists);
    var r := Act(e, u, act, fileExists);
    if r.Ok? {
      EnterKeepsGuard(e, u.app.screen, r.value, act, fileExists);
    }
  }

  /** The application starts guarded. */
  lemma BootIsGuarded(e: Edition, db: Store.Store)
    requires Store.Valid(db)
    ensures Guarded(e, Boot(db))
  {
  }

  /** Whatever the user does, no handler raises `AttributeError` or
      `TypeError` on `current_user`: the only exception left is the
      `ValueError` of a malformed stored timestamp, and when every stored
      and every new timestamp is well formed no action raises at all. In
      the corrected edition the session also stays in sync with its row
      (`ProfileScreen.BlankNameAsWritten` shows why the program as written
      cannot promise that). */
  lemma {:induction false} RunKeepsGuard(e: Edition, u: Ui, acts: seq<Action>, fileExists: string -> bool)
    requires Guarded(e, u)
    ensures var r := Run(e, u, acts, fileExists);
            && (r.Crash? ==> r.error == ValueError)
            && (r.Ok? ==> Guarded(e, r.value))
            && (Stamped(u.app.db) && (forall i :: 0 <= i < |acts| ==> Stamps(acts[i])) ==>
                  r.Ok? && Stamped(r.value.app.db))
    decreases |acts|
  {
    if |acts| > 0 {
      HandleKeepsGuard(e, u, acts[0], fileExists);
      var h := Handle(e, u, acts[0], fileExists);
      if h.Ok? {
        RunFirst(e, u, acts, h.value, fileExists);
        RunKeepsGuard(e, h.value, acts[1..], fileExists);
        StampsTail(acts);
      }
    }
  }

  lemma StampsTail(acts: seq<Action>)
    requires |acts| > 0
    ensures (forall i :: 0 <= i < |acts| ==> Stamps(acts[i])) ==>
              forall i :: 0 <= i < |acts[1..]| ==> Stamps(acts[1..][i])
  {
  }

  lemma OpenRegisterStep(e: Edition, u: Ui, fileExists: string -> bool)
    requires Store.Valid(u.app.db) && u.app.screen == LoginScreen
    ensures Handle(e, u, OpenRegister, fileExists) == Ok(u.(app := u.app.(screen := RegisterScreen)))
  {
  }

  lemma SignUpStep(e: Edition, u: Ui, username: string, email: string, password: string, fileExists: string -> bool)
    requires Store.Valid(u.app.db) && u.app.screen == RegisterScreen
    requires RegisterScreen.Validate(username, email, password).None?
    requires !Store.Clashes(u.app.db, username, email)
    ensures Handle(e, u, SignUp(username, email, password), fileExists)
            == Ok(u.(app := u.app.(db := Store.Insert(u.app.db, username, email, password),
                                   dialog := SuccessDialog(RegisterScreen.Registered))))
  {
    var next := RegisterScreen.Submit(u.app, username, email, password);
    assert next == u.app.(db := Store.Insert(u.app.db, username, email, password),
                          dialog := SuccessDialog(RegisterScreen.Registered));
  }

  lemma ConfirmStep(e: Edition, u: Ui, fileExists: string -> bool)
    requires Store.Valid(u.app.db) && u.app.screen == RegisterScreen
    requires u.app.dialog == SuccessDialog(RegisterScreen.Registered)
    ensures Handle(e, u, ConfirmRegistered, fileExists) == Ok(u.(app := u.app.(screen := LoginScreen, dialog := NoDialog)))
  {
  }

  /** With unique emails, the row whose email and password match is the
      one that logs in. */
  lemma LoginAsRow(a: App, email: string, password: string, n: nat)
    requires Store.Valid(a.db) && email != "" && password != ""
    requires n < |a.db.users| && a.db.users[n].email == email && a.db.users[n].password == password
    ensures LoginScreen.Login(a, email, password)
            == a.(screen := ChatScreen, session := LoggedIn(Store.ProfileOf(a.db.users[n])))
  {
    assert Store.Known(a.db, email, password);
    var r := LoginScreen.Login(a, email, password);
    var i :| 0 <= i < |a.db.users| && a.db.users[i].email == email && a.db.users[i].password == password
             && r.session.user == Store.ProfileOf(a.db.users[i]);
    assert i == n;
  }

  /** Entering the chat with a logged-in user and well-formed stamps shows
      the list and keeps the application state. */
  lemma EnterChat(e: Edition, before: ScreenName, u: Ui, fileExists: string -> bool)
    requires Stamped(u.app.db) && u.app.session.LoggedIn?
    requires u.app.screen == ChatScreen && before != ChatScreen
    ensures Enter(e, before, u, fileExists).Ok? && Enter(e, before, u, fileExists).value.app == u.app
  {
    StampedViews(u.app.db, fileExists);
  }

  lemma SignInStep(e: Edition, u: Ui, email: string, password: string, n: nat, fileExists: string -> bool)
    requires Store.Valid(u.app.db) && Stamped(u.app.db) && u.app.screen == LoginScreen
    requires email != "" && password != ""
    requires n < |u.app.db.users| && u.app.db.users[n].email == email && u.app.db.users[n].password == password
    ensures var r := Handle(e, u, SignIn(email, password), fileExists);
            && r.Ok? && r.value.app.screen == ChatScreen
            && r.value.app.session == LoggedIn(Store.ProfileOf(u.app.db.users[n]))
  {
    LoginAsRow(u.app, email, password, n);
    var next := u.(app := LoginScreen.Login(u.app, email, password));
    assert Act(e, u, SignIn(email, password), fileExists) == Ok(next);
    EnterChat(e, LoginScreen, next, fileExists);
  }

  lemma RunFirst(e: Edition, u: Ui, acts: seq<Action>, next: Ui, fileExists: string -> bool)
    requires Store.Valid(u.app.db) && |acts| > 0
    requires Handle(e, u, acts[0], fileExists) == Ok(next)
    ensures Run(e, u, acts, fileExists) == Run(e, next, acts[1..], fileExists)
  {
  }

  /** A new user who fills the registration form correctly, confirms the
      success dialog and signs in with the same email and password lands
      on the chat screen as the row just created. */
  lemma SignUpThenSignIn(e: Edition, db: Store.Store, username: string, email: string, password: string,
                         fileExists: string -> bool)
    requires Store.Valid(db) && Stamped(db)
    requires RegisterScreen.Validate(username, email, password).None?
    requires !Store.Clashes(db, username, email)
    ensures var r := Run(e, Boot(db), [OpenRegister, SignUp(username, email, password), ConfirmRegistered,
                                       SignIn(email, password)], fileExists);
            && r.Ok?
            && r.value.app.screen == ChatScreen
            && r.value.app.session == LoggedIn(Store.Profile(db.nextUserId, username, email, None, ""))
  {
    var acts := [OpenRegister, SignUp(username, email, password), ConfirmRegistered, SignIn(email, password)];
    var created := Store.Insert(db, username, email, password);
    var u0 := Boot(db);
    OpenRegisterStep(e, u0, fileExists);
    var u1 := u0.(app := u0.app.(screen := RegisterScreen));
    RunFirst(e, u0, acts, u1, fileExists);
    SignUpStep(e, u1, username, email, password, fileExists);
    var u2 := u1.(app := u1.app.(db := created, dialog := SuccessDialog(RegisterScreen.Registered)));
    assert acts[1..][0] == acts[1];
    RunFirst(e, u1, acts[1..], u2, fileExists);
    Store.RegisterKeepsValid(db, username, email, password);
    ConfirmStep(e, u2, fileExists);
    var u3 := u2.(app := u2.app.(screen := LoginScreen, dialog := NoDialog));
    assert acts[1..][1..] == acts[2..] && acts[2..][0] == acts[2];
    RunFirst(e, u2, acts[2..], u3, fileExists);
    var n := |db.users|;
    assert created.users[n] == Store.User(db.nextUserId, username, email, password, None, "");
    assert Stamped(created);
    assert acts[2..][1..] == [SignIn(email, password)];
    SignInRun(e, u3, email, password, n, fileExists);
  }

  /** Signing in as the last action of a run. */
  lemma SignInRun(e: Edition, u: Ui, email: string, password: string, n: nat, fileExists: string -> bool)
    requires Store.Valid(u.app.db) && Stamped(u.app.db) && u.app.screen == LoginScreen
    requires email != "" && password != ""
    requires n < |u.app.db.users| && u.app.db.users[n].email == email && u.app.db.users[n].password == password
    ensures var r := Run(e, u, [SignIn(email, password)], fileExists);
            && r.Ok? && r.value.app.screen == ChatScreen
            && r.value.app.session == LoggedIn(Store.ProfileOf(u.app.db.users[n]))
  {
    SignInStep(e, u, email, password, n, fileExists);
    var acts := [SignIn(email, password)];
    var next := Handle(e, u, acts[0], fileExists).value;
    RunFirst(e, u, acts, next, fileExists);
    assert acts[1..] == [];
  }
}
