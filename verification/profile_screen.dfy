/** `screens/profile_screen.py`: loading the profile form, choosing an
    avatar, saving the form and changing the password. Two handlers are
    given twice: as the code writes them (`...AsWritten`) and corrected
    (see the findings of the README); the screen manager of `Client` runs
    either pair. */
module ProfileScreen {
  import opened Wrappers
  import Text
  import Store
  import Paths
  import opened App

  /** The widgets of the screen that hold data: the username and bio
      fields and the `source` of the avatar image. */
  datatype ProfileView = ProfileView(username: string, bio: string, avatarSource: string)

  /** The form as `setup_ui` builds it, showing `app.default_avatar`. */
  const Initial := ProfileView("", "", Store.DefaultAvatar)

  const PickImage := "Пожалуйста, выберите изображение (PNG, JPG)"
  const AvatarNotSaved := "Ошибка при сохранении аватара: "
  const ProfileSaved := "Профиль успешно обновлен"
  const FillBothPasswords := "Заполните все поля"
  const PasswordsDiffer := "Новые пароли не совпадают"
  const PasswordChanged := "Пароль успешно изменен"

  // ---------------------------------------------------------------------
  // on_enter
  // ---------------------------------------------------------------------

  /** `on_enter` as written: the avatar image is replaced only when the
      profile has an avatar, so otherwise it keeps whatever it showed
      before, possibly another user's picture. */
  function OnEnterAsWritten(a: App, v: ProfileView): (r: Step<(App, ProfileView)>)
    ensures !HasUser(a.session) ==> r == Ok((Show(a, LoginScreen), v))
    ensures a.session.NoneVal? ==> r == Crash(TypeError)
    ensures a.session.LoggedIn? ==> r.Ok? && r.value.0 == a
    ensures a.session.LoggedIn? && Store.GetProfile(a.db, a.session.user.id).Some? ==>
              var p := Store.GetProfile(a.db, a.session.user.id).value;
              r.value.1 == ProfileView(p.username, p.bio,
                                       if Store.Truthy(p.avatar) then p.avatar.value else v.avatarSource)
    ensures a.session.LoggedIn? && Store.GetProfile(a.db, a.session.user.id).None? ==> r.value.1 == v
  {
    if !HasUser(a.session) then Ok((Show(a, LoginScreen), v))
    else
      match CurrentUser(a.session)
      case Crash(e) => Crash(e)
      case Ok(user) =>
        match Store.GetProfile(a.db, user.id)
        case None => Ok((a, v))
        case Some(p) =>
          var source := if Store.Truthy(p.avatar) then p.avatar.value else v.avatarSource;
          Ok((a, ProfileView(p.username, p.bio, source)))
  }

  /** `on_enter` corrected: a profile without an avatar shows the default
      picture. */
  function OnEnter(a: App, v: ProfileView): (r: Step<(App, ProfileView)>)
    ensures !HasUser(a.session) ==> r == Ok((Show(a, LoginScreen), v))
    ensures a.session.NoneVal? ==> r == Crash(TypeError)
    ensures a.session.LoggedIn? ==> r.Ok? && r.value.0 == a
    ensures a.session.LoggedIn? && Store.GetProfile(a.db, a.session.user.id).None? ==> r.value.1 == v
    ensures a.session.LoggedIn? && Store.GetProfile(a.db, a.session.user.id).Some? ==>
              exists i :: 0 <= i < |a.db.users| && a.db.users[i].id == a.session.user.id
                          && r.value.1 == Shown(a.db.users[i])
  {
    if !HasUser(a.session) then Ok((Show(a, LoginScreen), v))
    else
      match CurrentUser(a.session)
      case Crash(e) => Crash(e)
      case Ok(user) =>
        match Store.GetProfile(a.db, user.id)
        case None => Ok((a, v))
        case Some(p) =>
          var source := if Store.Truthy(p.avatar) then p.avatar.value else Store.DefaultAvatar;
          Ok((a, ProfileView(p.username, p.bio, source)))
  }

  /** What the form should show for a user row. */
  function Shown(u: Store.User): ProfileView {
    ProfileView(u.username, u.bio, if Store.Truthy(u.avatar) then u.avatar.value else Store.DefaultAvatar)
  }

  /** The code as written: two users with the same profile except that the
      first has an avatar; after the first user's visit the form still
      shows that avatar when the second user, who has none, opens it. */
  lemma StaleAvatarAsWritten()
    ensures var db := Store.Store([Store.User(1, "anna", "anna@mail.ru", "secret1", Some("avatars/user_1.png"), ""),
                                   Store.User(2, "boris", "boris@mail.ru", "secret2", None, "")], [], 3, 1);
            var anna := App(ProfileScreen, LoggedIn(Store.ProfileOf(db.users[0])), db, NoDialog);
            var boris := App(ProfileScreen, LoggedIn(Store.ProfileOf(db.users[1])), db, NoDialog);
            var afterAnna := OnEnterAsWritten(anna, Initial);
            && afterAnna.Ok?
            && OnEnterAsWritten(boris, afterAnna.value.1) == Ok((boris, ProfileView("boris", "", "avatars/user_1.png")))
            && OnEnterAsWritten(boris, Initial) == Ok((boris, ProfileView("boris", "", Store.DefaultAvatar)))
  {
    var db := Store.Store([Store.User(1, "anna", "anna@mail.ru", "secret1", Some("avatars/user_1.png"), ""),
                           Store.User(2, "boris", "boris@mail.ru", "secret2", None, "")], [], 3, 1);
    assert Store.GetProfile(db, 1) == Some(Store.ProfileOf(db.users[0]));
    assert Store.GetProfile(db, 2) == Some(Store.ProfileOf(db.users[1]));
  }

  /** The code as written, continued: when the second user then presses
      save, `update_profile` stores the first user's picture in the second
      user's row. */
  lemma StaleAvatarSavedAsWritten()
    ensures var db := Store.Store([Store.User(1, "anna", "anna@mail.ru", "secret1", Some("avatars/user_1.png"), ""),
                                   Store.User(2, "boris", "boris@mail.ru", "secret2", None, "")], [], 3, 1);
            var anna := App(ProfileScreen, LoggedIn(Store.ProfileOf(db.users[0])), db, NoDialog);
            var boris := App(ProfileScreen, LoggedIn(Store.ProfileOf(db.users[1])), db, NoDialog);
            var form := OnEnterAsWritten(boris, OnEnterAsWritten(anna, Initial).value.1).value.1;
            var saved := SaveProfileAsWritten(boris, form);
            && saved.Ok? && saved.value.dialog == SuccessDialog(ProfileSaved)
            && saved.value.db.users[1].avatar == Some("avatars/user_1.png")
  {
    var db := Store.Store([Store.User(1, "anna", "anna@mail.ru", "secret1", Some("avatars/user_1.png"), ""),
                           Store.User(2, "boris", "boris@mail.ru", "secret2", None, "")], [], 3, 1);
    var boris := App(ProfileScreen, LoggedIn(Store.ProfileOf(db.users[1])), db, NoDialog);
    StaleAvatarAsWritten();
    var form := ProfileView("boris", "", "avatars/user_1.png");
    assert !Store.NameTakenByOther(db, 2, "boris");
    var (t, outcome) := Store.UpdateProfile(db, 2, Some("boris"), Some(""), Some("avatars/user_1.png"));
    assert outcome.Done? && |t.users| == 2;
    assert t.users[1] == Store.Patch(db.users[1], Some("boris"), Some(""), Some("avatars/user_1.png"));
  }

  /** Corrected: the form after `on_enter` depends on the database only,
      not on what the form showed before. */
  lemma OnEnterForgetsPreviousForm(a: App, v: ProfileView, w: ProfileView)
    requires a.session.LoggedIn? && Store.Valid(a.db)
    requires Store.GetProfile(a.db, a.session.user.id).Some?
    ensures OnEnter(a, v) == OnEnter(a, w)
  {
    var i :| 0 <= i < |a.db.users| && a.db.users[i].id == a.session.user.id
             && OnEnter(a, v).value.1 == Shown(a.db.users[i]);
    var j :| 0 <= j < |a.db.users| && a.db.users[j].id == a.session.user.id
             && OnEnter(a, w).value.1 == Shown(a.db.users[j]);
    assert i == j;
  }

  // ---------------------------------------------------------------------
  // handle_avatar_selection
  // ---------------------------------------------------------------------

  /** `handle_avatar_selection`. The first selected file's extension,
      lower-cased, must be `.png`, `.jpg` or `.jpeg`; the file is copied to
      `avatars/user_<id><ext>` (`copyError` is what `shutil.copy2` raised,
      if anything) and the row's avatar set to that path. The outcome of
      `update_profile` is not looked at. */
  function PickAvatar(a: App, v: ProfileView, selection: seq<string>, copyError: Option<string>)
    : (r: Step<(App, ProfileView)>)
    ensures |selection| == 0 ==> r == Ok((a, v))
    ensures |selection| > 0 && !Paths.AcceptedImage(Text.Lower(Paths.Extension(selection[0]))) ==>
              r == Ok((a.(dialog := ErrorDialog(PickImage)), v))
    ensures |selection| > 0 && Paths.AcceptedImage(Text.Lower(Paths.Extension(selection[0]))) ==>
              match a.session
              case Absent => r == Crash(AttributeError)
              case NoneVal => r == Crash(TypeError)
              case LoggedIn(user) =>
                var ext := Text.Lower(Paths.Extension(selection[0]));
                var target := Paths.AvatarTarget(user.id, ext);
                && r.Ok?
                && (copyError.Some? ==>
                      r == Ok((a.(dialog := ErrorDialog(AvatarNotSaved + copyError.value)), v)))
                && (copyError.None? ==>
                      && r.value.0.screen == a.screen && r.value.0.session == a.session
                      && r.value.1 == v.(avatarSource := target)
                      && r.value.0.db == Store.UpdateProfile(a.db, user.id, None, None, Some(target)).0
                      && Paths.Extension(target) == ext)
  {
    if |selection| == 0 then Ok((a, v))
    else
      var ext := Text.Lower(Paths.Extension(selection[0]));
      if !Paths.AcceptedImage(ext) then Ok((a.(dialog := ErrorDialog(PickImage)), v))
      else
        match CurrentUser(a.session)
        case Crash(e) => Crash(e)
        case Ok(user) =>
          var target := Paths.AvatarTarget(user.id, ext);
          Paths.TargetKeepsExtension(user.id, ext);
          match copyError
          case Some(e) => Ok((a.(dialog := ErrorDialog(AvatarNotSaved + e)), v))
          case None =>
            var (db, _) := Store.UpdateProfile(a.db, user.id, None, None, Some(target));
            Ok((a.(db := db), v.(avatarSource := target)))
  }

  /** A copied image becomes the avatar of exactly the rows of the user
      who picked it; messages and every other row are untouched. */
  lemma PickAvatarRows(a: App, v: ProfileView, selection: seq<string>)
    requires |selection| > 0 && a.session.LoggedIn?
    requires Paths.AcceptedImage(Text.Lower(Paths.Extension(selection[0])))
    ensures var r := PickAvatar(a, v, selection, None);
            var target := Paths.AvatarTarget(a.session.user.id, Text.Lower(Paths.Extension(selection[0])));
            && r.Ok?
            && r.value.0.db.messages == a.db.messages
            && |r.value.0.db.users| == |a.db.users|
            && forall k :: 0 <= k < |a.db.users| ==>
                 r.value.0.db.users[k]
                 == if a.db.users[k].id == a.session.user.id then a.db.users[k].(avatar := Some(target))
                    else a.db.users[k]
  {
    var target := Paths.AvatarTarget(a.session.user.id, Text.Lower(Paths.Extension(selection[0])));
    assert |target| > 0;
  }

  // ---------------------------------------------------------------------
  // save_profile
  // ---------------------------------------------------------------------

  /** `save_profile` as written: on success the session's username becomes
      the text of the field, even when that text is empty and the row kept
      its old username. */
  function SaveProfileAsWritten(a: App, v: ProfileView): (r: Step<App>)
    ensures !a.session.LoggedIn? ==> r == Crash(CurrentUser(a.session).error)
    ensures a.session.LoggedIn? ==>
              var (db, outcome) := Store.UpdateProfile(a.db, a.session.user.id, Some(v.username), Some(v.bio),
                                                       Some(v.avatarSource));
              && r.Ok?
              && r.value.db == db
              && r.value.screen == a.screen
              && (outcome.Done? ==>
                    r.value.session == LoggedIn(a.session.user.(username := v.username))
                    && r.value.dialog == SuccessDialog(ProfileSaved))
              && (outcome.Refused? ==>
                    r.value.session == a.session && r.value.dialog == ErrorDialog(outcome.message))
  {
    match CurrentUser(a.session)
    case Crash(e) => Crash(e)
    case Ok(user) =>
      var (db, outcome) := Store.UpdateProfile(a.db, user.id, Some(v.username), Some(v.bio), Some(v.avatarSource));
      match outcome
      case Done => Ok(a.(db := db, session := LoggedIn(user.(username := v.username)),
                         dialog := SuccessDialog(ProfileSaved)))
      case Refused(msg) => Ok(a.(db := db, dialog := ErrorDialog(msg)))
  }

  /** The session agrees with the user's row: the row exists and holds the
      session's username. */
  ghost predicate InSync(a: App) {
    a.session.LoggedIn? ==>
      exists i :: 0 <= i < |a.db.users| && a.db.users[i].id == a.session.user.id
                  && a.db.users[i].username == a.session.user.username
  }

  /** The code as written: clearing the username field and saving reports
      success, keeps the old name in the row, and leaves the session with
      an empty name, which `send_message` then puts on every message. */
  lemma BlankNameAsWritten()
    ensures var db := Store.Store([Store.User(1, "anna", "anna@mail.ru", "secret1", None, "")], [], 2, 1);
            var a := App(ProfileScreen, LoggedIn(Store.ProfileOf(db.users[0])), db, NoDialog);
            var r := SaveProfileAsWritten(a, ProfileView("", "hello", Store.DefaultAvatar));
            && InSync(a)
            && r.Ok? && r.value.dialog == SuccessDialog(ProfileSaved)
            && r.value.db.users[0].username == "anna"
            && r.value.session.user.username == ""
            && !InSync(r.value)
  {
    var db := Store.Store([Store.User(1, "anna", "anna@mail.ru", "secret1", None, "")], [], 2, 1);
    var a := App(ProfileScreen, LoggedIn(Store.ProfileOf(db.users[0])), db, NoDialog);
    assert a.db.users[0].id == 1;
    var r := SaveProfileAsWritten(a, ProfileView("", "hello", Store.DefaultAvatar));
    assert |r.value.db.users| == 1;
  }

  /** `save_profile` corrected: the session takes the new username only
      when the row takes it, that is, when the field is not empty. */
  function SaveProfile(a: App, v: ProfileView): (r: Step<App>)
    ensures !a.session.LoggedIn? ==> r == Crash(CurrentUser(a.session).error)
    ensures a.session.LoggedIn? ==>
              var (db, outcome) := Store.UpdateProfile(a.db, a.session.user.id, Some(v.username), Some(v.bio),
                                                       Some(v.avatarSource));
              && r.Ok?
              && r.value.db == db
              && r.value.screen == a.screen
              && (outcome.Done? ==> r.value.dialog == SuccessDialog(ProfileSaved))
              && (outcome.Refused? ==>
                    r.value.session == a.session && r.value.dialog == ErrorDialog(outcome.message))
    ensures r.Ok? && InSync(a) ==> InSync(r.value)
  {
    match CurrentUser(a.session)
    case Crash(e) => Crash(e)
    case Ok(user) =>
      var (db, outcome) := Store.UpdateProfile(a.db, user.id, Some(v.username), Some(v.bio), Some(v.avatarSource));
      match outcome
      case Done =>
        var name := if v.username != "" then v.username else user.username;
        var r := a.(db := db, session := LoggedIn(user.(username := name)), dialog := SuccessDialog(ProfileSaved));
        assert InSync(a) ==> InSync(r) by {
          if InSync(a) {
            var i :| 0 <= i < |a.db.users| && a.db.users[i].id == user.id && a.db.users[i].username == user.username;
            assert db.users[i].id == user.id && db.users[i].username == name;
          }
        }
        Ok(r)
      case Refused(msg) => Ok(a.(db := db, dialog := ErrorDialog(msg)))
  }

  // ---------------------------------------------------------------------
  // change_password / go_back
  // ---------------------------------------------------------------------

  /** `change_password` of the password dialog: both the old and the new
      field must be filled and the new one confirmed, then the store
      decides. The second result is whether the password dialog stays
      open. */
  function ChangePassword(a: App, oldPassword: string, newPassword: string, confirm: string)
    : (r: Step<(App, bool)>)
    requires Store.Valid(a.db)
    ensures oldPassword == "" || newPassword == "" ==>
              r == Ok((a.(dialog := ErrorDialog(FillBothPasswords)), true))
    ensures oldPassword != "" && newPassword != "" && newPassword != confirm ==>
              r == Ok((a.(dialog := ErrorDialog(PasswordsDiffer)), true))
    ensures oldPassword != "" && newPassword != "" && newPassword == confirm && !a.session.LoggedIn? ==>
              r == Crash(CurrentUser(a.session).error)
    ensures oldPassword != "" && newPassword != "" && newPassword == confirm && a.session.LoggedIn? ==>
              var (db, outcome) := Store.ChangePassword(a.db, a.session.user.id, oldPassword, newPassword);
              && r.Ok?
              && r.value.0 == a.(db := db, dialog := if outcome.Done? then SuccessDialog(PasswordChanged)
                                                      else ErrorDialog(outcome.message))
              && (r.value.1 <==> outcome.Refused?)
    ensures r.Ok? ==> r.value.0.db.users == a.db.users || !r.value.1
  {
    if oldPassword == "" || newPassword == "" then Ok((a.(dialog := ErrorDialog(FillBothPasswords)), true))
    else if newPassword != confirm then Ok((a.(dialog := ErrorDialog(PasswordsDiffer)), true))
    else
      match CurrentUser(a.session)
      case Crash(e) => Crash(e)
      case Ok(user) =>
        var (db, outcome) := Store.ChangePassword(a.db, user.id, oldPassword, newPassword);
        match outcome
        case Done => Ok((a.(db := db, dialog := SuccessDialog(PasswordChanged)), false))
        case Refused(msg) => Ok((a.(db := db, dialog := ErrorDialog(msg)), true))
  }

  /** `go_back`. */
  function GoBack(a: App): (r: App)
    ensures r.screen == ChatScreen && r.session == a.session && r.db == a.db
  {
    Show(a, ChatScreen)
  }
}
