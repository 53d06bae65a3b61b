/** The chat database of `database.py`: the `users` and `messages` tables
    as sequences in rowid order, with the next AUTOINCREMENT value of each.
    Every operation is a pure function from the old tables to the new ones
    and to what the Python method returns. The clock (`CURRENT_TIMESTAMP`)
    and the file system test `os.path.exists` are parameters. */
module Store {
  import opened Wrappers
  import Text
  import Recent

  datatype User = User(id: int, username: string, email: string, password: string,
                       avatar: Option<string>, bio: string)

  /** A `messages` row; `userId` is `None` for SQL NULL. */
  datatype Message = Message(id: int, userId: Option<int>, username: string, text: string,
                             timestamp: string)

  datatype Store = Store(users: seq<User>, messages: seq<Message>,
                         nextUserId: int, nextMessageId: int)

  /** `{id, username, email, avatar_path, bio}`: a user row without its
      password, as `login_user` and `get_user_profile` return it. */
  datatype Profile = Profile(id: int, username: string, email: string,
                             avatar: Option<string>, bio: string)

  /** The `(success, error)` pairs: `Done` is `(True, None)` and
      `Refused(m)` is `(False, m)`. */
  datatype Outcome = Done | Refused(message: string)

  /** One entry of the list `get_messages` returns. */
  datatype MessageView = MessageView(id: int, userId: Option<int>, username: string, text: string,
                                     timestamp: string, avatarPath: string)

  const DuplicateUser := "Пользователь с таким email или именем уже существует"
  const UsernameTaken := "Это имя пользователя уже занято"
  const NothingToUpdate := "Нет данных для обновления"
  const WrongPassword := "Неверный текущий пароль"
  const DefaultAvatar := "assets/default_avatar.png"
  const RecentLimit := 100

  const TestUsername := "test"
  const TestEmail := "test@test.com"
  const TestPassword := "test123"

  /** Freshly created, empty tables. */
  const Empty := Store([], [], 1, 1)

  /** What the schema guarantees: increasing primary keys below the next
      AUTOINCREMENT value, and UNIQUE usernames and emails. */
  predicate Valid(s: Store) {
    && (forall i, j :: 0 <= i < j < |s.users| ==>
          s.users[i].id < s.users[j].id
          && s.users[i].username != s.users[j].username
          && s.users[i].email != s.users[j].email)
    && 1 <= s.nextUserId && 1 <= s.nextMessageId
    && (forall i :: 0 <= i < |s.users| ==> 1 <= s.users[i].id < s.nextUserId)
    && (forall i, j :: 0 <= i < j < |s.messages| ==> s.messages[i].id < s.messages[j].id)
    && (forall i :: 0 <= i < |s.messages| ==> 1 <= s.messages[i].id < s.nextMessageId)
  }

  /** Python truthiness of an optional string: neither `None` nor `''`. */
  predicate Truthy(o: Option<string>) {
    o.Some? && o.value != ""
  }

  function ProfileOf(u: User): Profile {
    Profile(u.id, u.username, u.email, u.avatar, u.bio)
  }

  function IndexOfId(s: Store, id: int): Option<nat> {
    FirstIndex(s.users, (u: User) => u.id == id)
  }

  /** `INSERT INTO users (username, email, password)`: the column defaults
      give no avatar and an empty bio. */
  function Insert(s: Store, username: string, email: string, password: string): Store {
    s.(users := s.users + [User(s.nextUserId, username, email, password, None, "")],
       nextUserId := s.nextUserId + 1)
  }

  // ---------------------------------------------------------------------
  // create_tables
  // ---------------------------------------------------------------------

  /** The seeding step of `create_tables`: the test user is inserted when
      no row has its email. If another row already holds its username, the
      INSERT violates UNIQUE and the exception escapes (`None`). */
  function Seed(s: Store): (r: Option<Store>)
    ensures (exists i :: 0 <= i < |s.users| && s.users[i].email == TestEmail) ==> r == Some(s)
    ensures r.None? <==>
              (forall i :: 0 <= i < |s.users| ==> s.users[i].email != TestEmail)
              && (exists i :: 0 <= i < |s.users| && s.users[i].username == TestUsername)
    ensures r.Some? && r.value != s ==>
              r.value.users == s.users + [User(s.nextUserId, TestUsername, TestEmail, TestPassword, None, "")]
              && r.value.messages == s.messages
    ensures r.Some? ==> exists i :: 0 <= i < |r.value.users| && r.value.users[i].email == TestEmail
  {
    if exists i :: 0 <= i < |s.users| && s.users[i].email == TestEmail then Some(s)
    else if exists i :: 0 <= i < |s.users| && s.users[i].username == TestUsername then None
    else
      var t := Insert(s, TestUsername, TestEmail, TestPassword);
      assert t.users[|s.users|].email == TestEmail;
      Some(t)
  }

  /** Opening the database twice seeds at most once. */
  lemma SeedIdempotent(s: Store)
    requires Seed(s).Some?
    ensures Seed(Seed(s).value) == Seed(s)
  {
  }

  lemma SeedKeepsValid(s: Store)
    requires Valid(s) && Seed(s).Some?
    ensures Valid(Seed(s).value)
  {
    if Seed(s).value != s {
      RegisterKeepsValid(s, TestUsername, TestEmail, TestPassword);
    }
  }

  // ---------------------------------------------------------------------
  // register_user / login_user
  // ---------------------------------------------------------------------

  predicate Clashes(s: Store, username: string, email: string) {
    exists i :: 0 <= i < |s.users| && (s.users[i].email == email || s.users[i].username == username)
  }

  /** `register_user`: refuses when any row has the email or the username,
      otherwise inserts one row. */
  function Register(s: Store, username: string, email: string, password: string): (r: (Store, Outcome))
    ensures r.1 == Done || r.1 == Refused(DuplicateUser)
    ensures r.1.Refused? <==> Clashes(s, username, email)
    ensures r.1.Refused? ==> r.0 == s
    ensures r.1.Done? ==>
              && r.0.users == s.users + [User(s.nextUserId, username, email, password, None, "")]
              && r.0.messages == s.messages
  {
    if Clashes(s, username, email) then (s, Refused(DuplicateUser))
    else (Insert(s, username, email, password), Done)
  }

  lemma RegisterKeepsValid(s: Store, username: string, email: string, password: string)
    requires Valid(s) && !Clashes(s, username, email)
    ensures Valid(Insert(s, username, email, password))
  {
  }

  /** Some row has exactly this email and password. */
  predicate Known(s: Store, email: string, password: string) {
    exists i :: 0 <= i < |s.users| && s.users[i].email == email && s.users[i].password == password
  }

  /** `login_user`: the first row with exactly this email and password,
      without its password. */
  function Login(s: Store, email: string, password: string): (r: Option<Profile>)
    ensures r.Some? <==> Known(s, email, password)
    ensures r.Some? ==>
              exists i :: 0 <= i < |s.users| && s.users[i].email == email && s.users[i].password == password
                          && r.value == ProfileOf(s.users[i])
  {
    match FirstIndex(s.users, (u: User) => u.email == email && u.password == password)
    case None => None
    case Some(i) => Some(ProfileOf(s.users[i]))
  }

  /** A user who has just registered can log in with the same email and
      password, and gets back the new row. */
  lemma RegisterThenLogin(s: Store, username: string, email: string, password: string)
    requires Valid(s)
    requires Register(s, username, email, password).1.Done?
    ensures Login(Register(s, username, email, password).0, email, password)
            == Some(Profile(s.nextUserId, username, email, None, ""))
  {
    var t := Register(s, username, email, password).0;
    var n := |s.users|;
    assert t.users[n].email == email && t.users[n].password == password;
    var i :| 0 <= i < |t.users| && t.users[i].email == email && t.users[i].password == password
             && Login(t, email, password).value == ProfileOf(t.users[i]);
  }

  // ---------------------------------------------------------------------
  // save_message / get_messages
  // ---------------------------------------------------------------------

  /** `save_message`: appends one row stamped with the store's clock. */
  function SaveMessage(s: Store, userId: Option<int>, username: string, text: string, now: string): (r: Store)
    ensures |r.messages| == |s.messages| + 1
    ensures r.messages[..|s.messages|] == s.messages
    ensures r.messages[|s.messages|] == Message(s.nextMessageId, userId, username, text, now)
    ensures r.users == s.users
  {
    s.(messages := s.messages + [Message(s.nextMessageId, userId, username, text, now)],
       nextMessageId := s.nextMessageId + 1)
  }

  lemma SaveKeepsValid(s: Store, userId: Option<int>, username: string, text: string, now: string)
    requires Valid(s)
    ensures Valid(SaveMessage(s, userId, username, text, now))
  {
  }

  /** The avatar `get_messages` reports for an author: the joined row's
      `avatar_path` when it is set, non-empty and exists on disk, else the
      default picture. A NULL or unknown author joins no row. */
  function AvatarFor(s: Store, userId: Option<int>, fileExists: string -> bool): (r: string)
    ensures r == DefaultAvatar || fileExists(r)
    ensures userId.None? || !HasId(s, userId.value) ==> r == DefaultAvatar
    ensures forall i :: FirstWithId(s, userId, i) ==>
              r == if Truthy(s.users[i].avatar) && fileExists(s.users[i].avatar.value)
                   then s.users[i].avatar.value else DefaultAvatar
  {
    if userId.None? then DefaultAvatar
    else match IndexOfId(s, userId.value)
      case None => DefaultAvatar
      case Some(i) =>
        assert FirstWithId(s, userId, i);
        assert forall j :: FirstWithId(s, userId, j) ==> j == i;
        var a := s.users[i].avatar;
        if Truthy(a) && fileExists(a.value) then a.value else DefaultAvatar
  }

  /** Row `i` is the first row whose id is the author `userId`: the row
      the join picks. */
  predicate FirstWithId(s: Store, userId: Option<int>, i: int) {
    && userId.Some? && 0 <= i < |s.users| && s.users[i].id == userId.value
    && forall k :: 0 <= k < i ==> s.users[k].id != userId.value
  }

  function View(s: Store, m: Message, fileExists: string -> bool): MessageView {
    MessageView(m.id, m.userId, m.username, m.text, m.timestamp, AvatarFor(s, m.userId, fileExists))
  }

  function MessageTime(m: Message): string {
    m.timestamp
  }

  /** The rows `get_messages` selects: `ORDER BY m.timestamp DESC LIMIT 100`. */
  function RecentMessages(s: Store): seq<Message> {
    Recent.Newest(s.messages, MessageTime, RecentLimit)
  }

  /** `get_messages` (the second, effective definition): the 100 newest
      messages, newest first, each with its author's avatar. */
  function GetMessages(s: Store, fileExists: string -> bool): (r: seq<MessageView>)
    ensures |r| == Recent.Min(RecentLimit, |s.messages|)
    ensures forall i, j :: 0 <= i < j < |r| ==> Text.LexLe(r[j].timestamp, r[i].timestamp)
    ensures multiset(RecentMessages(s)) <= multiset(s.messages)
    ensures forall i :: 0 <= i < |r| ==> r[i] == View(s, RecentMessages(s)[i], fileExists)
    ensures forall m | m in multiset(s.messages) - multiset(RecentMessages(s)) ::
              forall i | 0 <= i < |r| :: Text.LexLe(m.timestamp, r[i].timestamp)
  {
    var picked := RecentMessages(s);
    seq(|picked|, i requires 0 <= i < |picked| => View(s, picked[i], fileExists))
  }

  /** A message saved with a clock reading later than every stored
      timestamp heads the next `get_messages` result. */
  lemma SavedMessageComesFirst(s: Store, userId: Option<int>, username: string, text: string,
                               now: string, fileExists: string -> bool)
    requires forall k :: 0 <= k < |s.messages| ==>
               Text.LexLe(s.messages[k].timestamp, now) && s.messages[k].timestamp != now
    ensures var t := SaveMessage(s, userId, username, text, now);
            GetMessages(t, fileExists)[0]
            == View(t, Message(s.nextMessageId, userId, username, text, now), fileExists)
  {
    var t := SaveMessage(s, userId, username, text, now);
    assert t.messages == s.messages + [Message(s.nextMessageId, userId, username, text, now)];
    Recent.LatestComesFirst(t.messages, MessageTime, RecentLimit);
  }

  // ---------------------------------------------------------------------
  // update_profile / get_user_profile / change_password / avatars
  // ---------------------------------------------------------------------

  /** A row after `UPDATE users SET ...` with the fields that apply: the
      username and the avatar only when truthy, the bio whenever given. */
  function Patch(u: User, username: Option<string>, bio: Option<string>, avatar: Option<string>): User {
    u.(username := if Truthy(username) then username.value else u.username,
       bio := if bio.Some? then bio.value else u.bio,
       avatar := if Truthy(avatar) then avatar else u.avatar)
  }

  predicate HasId(s: Store, id: int) {
    exists i :: 0 <= i < |s.users| && s.users[i].id == id
  }

  /** Another row already holds `name`. */
  predicate NameTakenByOther(s: Store, id: int, name: string) {
    exists j :: 0 <= j < |s.users| && s.users[j].id != id && s.users[j].username == name
  }

  /** `update_profile`. With nothing to apply it refuses; a new username
      held by another row violates UNIQUE and is refused; otherwise every
      row with this id is patched (none, for an unknown id, which still
      reports success). Emails and passwords never change. */
  function UpdateProfile(s: Store, id: int, username: Option<string>, bio: Option<string>,
                         avatar: Option<string>): (r: (Store, Outcome))
    ensures r.1 == Done || r.1 == Refused(UsernameTaken) || r.1 == Refused(NothingToUpdate)
    ensures r.1 == Refused(NothingToUpdate) <==> !Truthy(username) && bio.None? && !Truthy(avatar)
    ensures r.1 == Refused(UsernameTaken) <==>
              && Truthy(username)
              && HasId(s, id)
              && NameTakenByOther(s, id, username.value)
    ensures r.1.Refused? ==> r.0 == s
    ensures r.0.messages == s.messages && r.0.nextUserId == s.nextUserId
    ensures |r.0.users| == |s.users|
    ensures forall k :: 0 <= k < |s.users| ==>
              && r.0.users[k].id == s.users[k].id
              && r.0.users[k].email == s.users[k].email
              && r.0.users[k].password == s.users[k].password
    ensures forall k :: 0 <= k < |s.users| && s.users[k].id != id ==> r.0.users[k] == s.users[k]
    ensures r.1.Done? ==>
              forall k :: 0 <= k < |s.users| && s.users[k].id == id ==>
                r.0.users[k] == Patch(s.users[k], username, bio, avatar)
  {
    if !Truthy(username) && bio.None? && !Truthy(avatar) then (s, Refused(NothingToUpdate))
    else if Truthy(username) && HasId(s, id) && NameTakenByOther(s, id, username.value) then
      (s, Refused(UsernameTaken))
    else
      var users := seq(|s.users|, k requires 0 <= k < |s.users| =>
                         if s.users[k].id == id then Patch(s.users[k], username, bio, avatar) else s.users[k]);
      (s.(users := users), Done)
  }

  /** Profile updates keep usernames and emails unique. */
  lemma UpdateProfileKeepsValid(s: Store, id: int, username: Option<string>, bio: Option<string>,
                                avatar: Option<string>)
    requires Valid(s)
    ensures Valid(UpdateProfile(s, id, username, bio, avatar).0)
  {
    var r := UpdateProfile(s, id, username, bio, avatar);
    if r.1.Done? {
      var t := r.0;
      forall i, j | 0 <= i < j < |t.users|
        ensures t.users[i].username != t.users[j].username
      {
        if Truthy(username) && (s.users[i].id == id || s.users[j].id == id) {
          if s.users[i].id == id {
            assert s.users[j].id != id;
            assert !NameTakenByOther(s, id, username.value) by {
              assert HasId(s, id) by { assert s.users[i].id == id; }
            }
          } else {
            assert !NameTakenByOther(s, id, username.value) by {
              assert HasId(s, id) by { assert s.users[j].id == id; }
            }
          }
        }
      }
    }
  }

  /** `get_user_profile`: the row with this id, without its password. */
  function GetProfile(s: Store, id: int): (r: Option<Profile>)
    ensures r.Some? <==> HasId(s, id)
    ensures r.Some? ==> exists i :: 0 <= i < |s.users| && s.users[i].id == id && r.value == ProfileOf(s.users[i])
  {
    match IndexOfId(s, id)
    case None => None
    case Some(i) => Some(ProfileOf(s.users[i]))
  }

  /** The profile `login_user` returns is the one `get_user_profile` reads
      back for its id. */
  lemma LoginIsProfile(s: Store, email: string, password: string)
    requires Valid(s) && Login(s, email, password).Some?
    ensures GetProfile(s, Login(s, email, password).value.id) == Login(s, email, password)
  {
    var p := Login(s, email, password).value;
    var i :| 0 <= i < |s.users| && s.users[i].email == email && s.users[i].password == password
             && p == ProfileOf(s.users[i]);
    var j :| 0 <= j < |s.users| && s.users[j].id == p.id && GetProfile(s, p.id).value == ProfileOf(s.users[j]);
    assert i == j;
  }

  /** After a successful `update_profile`, `get_user_profile` reads back
      the patched row. */
  lemma UpdateProfileThenGetProfile(s: Store, id: int, username: Option<string>, bio: Option<string>,
                                    avatar: Option<string>, i: nat)
    requires Valid(s) && i < |s.users| && s.users[i].id == id
    requires UpdateProfile(s, id, username, bio, avatar).1.Done?
    ensures GetProfile(UpdateProfile(s, id, username, bio, avatar).0, id)
            == Some(ProfileOf(Patch(s.users[i], username, bio, avatar)))
  {
    var t := UpdateProfile(s, id, username, bio, avatar).0;
    var j :| 0 <= j < |t.users| && t.users[j].id == id && GetProfile(t, id).value == ProfileOf(t.users[j]);
    assert s.users[j].id == id;
    assert i == j;
  }

  /** `change_password`: succeeds exactly when the row with this id holds
      `oldPassword`; then that row's password becomes `newPassword` and nothing else
      changes. */
  function ChangePassword(s: Store, id: int, oldPassword: string, newPassword: string): (r: (Store, Outcome))
    requires Valid(s)
    ensures r.1 == Done || r.1 == Refused(WrongPassword)
    ensures r.1.Done? <==> exists i :: 0 <= i < |s.users| && s.users[i].id == id && s.users[i].password == oldPassword
    ensures r.1.Refused? ==> r.0 == s
    ensures r.0.messages == s.messages && r.0.nextUserId == s.nextUserId && |r.0.users| == |s.users|
    ensures forall k :: 0 <= k < |s.users| ==>
              r.0.users[k] == if s.users[k].id == id && r.1.Done? then s.users[k].(password := newPassword) else s.users[k]
  {
    match IndexOfId(s, id)
    case Some(i) =>
      if s.users[i].password == oldPassword then
        var users := seq(|s.users|, k requires 0 <= k < |s.users| =>
                           if s.users[k].id == id then s.users[k].(password := newPassword) else s.users[k]);
        (s.(users := users), Done)
      else (s, Refused(WrongPassword))
    case None => (s, Refused(WrongPassword))
  }

  lemma ChangePasswordKeepsValid(s: Store, id: int, oldPassword: string, newPassword: string)
    requires Valid(s)
    ensures Valid(ChangePassword(s, id, oldPassword, newPassword).0)
  {
  }

  /** After a password change the new password logs in, and the old one
      no longer does when it differs. */
  lemma ChangePasswordThenLogin(s: Store, id: int, oldPassword: string, newPassword: string, email: string)
    requires Valid(s)
    requires ChangePassword(s, id, oldPassword, newPassword).1.Done?
    requires exists i :: 0 <= i < |s.users| && s.users[i].id == id && s.users[i].email == email
    ensures Login(ChangePassword(s, id, oldPassword, newPassword).0, email, newPassword).Some?
    ensures oldPassword != newPassword ==> Login(ChangePassword(s, id, oldPassword, newPassword).0, email, oldPassword).None?
  {
    var t := ChangePassword(s, id, oldPassword, newPassword).0;
    var i :| 0 <= i < |s.users| && s.users[i].id == id && s.users[i].email == email;
    assert t.users[i].email == email && t.users[i].password == newPassword;
    if oldPassword != newPassword {
      forall k | 0 <= k < |t.users| && t.users[k].email == email
        ensures t.users[k].password != oldPassword
      {
        assert s.users[k].email == email;
        assert k == i;
      }
    }
  }

  /** The database part of `update_avatar`: the row's old avatar file is
      to be removed when it is set, exists and is not the default picture;
      then the row points at the new path. */
  function UpdateAvatar(s: Store, id: int, newPath: string, fileExists: string -> bool): (r: (Store, Option<string>))
    ensures r.0.messages == s.messages && |r.0.users| == |s.users|
    ensures forall k :: 0 <= k < |s.users| ==>
              r.0.users[k] == if s.users[k].id == id then s.users[k].(avatar := Some(newPath)) else s.users[k]
    ensures r.1.Some? <==>
              exists i :: 0 <= i < |s.users| && s.users[i].id == id
                          && (forall k :: 0 <= k < i ==> s.users[k].id != id)
                          && Truthy(s.users[i].avatar)
                          && fileExists(s.users[i].avatar.value)
                          && !Text.Contains(s.users[i].avatar.value, "default_avatar")
                          && r.1 == s.users[i].avatar
  {
    var removed :=
      match IndexOfId(s, id)
      case None => None
      case Some(i) =>
        var a := s.users[i].avatar;
        if Truthy(a) && fileExists(a.value) && !Text.Contains(a.value, "default_avatar") then a else None;
    var users := seq(|s.users|, k requires 0 <= k < |s.users| =>
                       if s.users[k].id == id then s.users[k].(avatar := Some(newPath)) else s.users[k]);
    (s.(users := users), removed)
  }

  /** `get_user_avatar`: the stored path when set and present on disk,
      else the default picture. */
  function GetUserAvatar(s: Store, id: int, fileExists: string -> bool): (r: string)
    ensures r == DefaultAvatar || fileExists(r)
    ensures r != DefaultAvatar ==>
              exists i :: 0 <= i < |s.users| && s.users[i].id == id && s.users[i].avatar == Some(r)
    ensures !HasId(s, id) ==> r == DefaultAvatar
    ensures forall i :: FirstWithId(s, Some(id), i) ==>
              r == if Truthy(s.users[i].avatar) && fileExists(s.users[i].avatar.value)
                   then s.users[i].avatar.value else DefaultAvatar
  {
    AvatarFor(s, Some(id), fileExists)
  }

  /** Once `update_avatar` has pointed the row at a new path, the avatar
      read back is that path as long as the file exists, and the default
      picture otherwise. `after` is the file system at the time of the
      read. */
  lemma UpdateAvatarThenGet(s: Store, id: int, newPath: string, fileExists: string -> bool,
                            after: string -> bool)
    requires HasId(s, id)
    ensures GetUserAvatar(UpdateAvatar(s, id, newPath, fileExists).0, id, after)
            == if newPath != "" && after(newPath) then newPath else DefaultAvatar
  {
    var t := UpdateAvatar(s, id, newPath, fileExists).0;
    var i := IndexOfId(s, id).value;
    assert t.users[i] == s.users[i].(avatar := Some(newPath));
    assert forall k :: 0 <= k < i ==> t.users[k].id == s.users[k].id;
    assert FirstWithId(t, Some(id), i);
  }

  lemma UpdateAvatarKeepsValid(s: Store, id: int, newPath: string, fileExists: string -> bool)
    requires Valid(s)
    ensures Valid(UpdateAvatar(s, id, newPath, fileExists).0)
  {
  }
}
