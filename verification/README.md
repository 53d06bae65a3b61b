# Chat application — a Dafny model

This project models a small chat application.
- **Client.** A desktop/mobile client written with Kivy. It has login, registration, chat and profile screens.
- **Local store.** An SQLite database of users and messages, behind `database.py`.
- **Server.** A FastAPI server. It keeps one WebSocket per user id, stores every incoming message and broadcasts it to all connected sockets. It also answers `/register` and `/login`.

Everything is modelled as pure functions over immutable data:
- the database is two sequences of rows in rowid order, plus the next AUTOINCREMENT values;
- the server's `ConnectionManager` is the dict's insertion order plus the mapping;
- the client is a record holding the current screen, the `current_user` attribute (missing, `None`, or a user dict), the database and the last dialog.

A Python exception that escapes a handler is a `Crash` value. Clocks, the file system and failing sockets are parameters.

Modules, one per file:

| file | module | what it models |
|---|---|---|
| `wrappers.dfy` | `Wrappers` | `Option` and a first-match search |
| `text.dfy` | `Text` | `str.isspace`/`strip`, ASCII `lower`, `rfind`, `str(int)`, SQLite's text order |
| `clock.dfy` | `Clock` | `strftime`/`strptime` with `%Y-%m-%d %H:%M:%S`, and proof that text order of such stamps is time order |
| `recent.dfy` | `Recent` | `ORDER BY key DESC LIMIT n` |
| `store.dfy` | `Store` | every method of `database.py` |
| `registry.dfy` | `Registry` | `ConnectionManager` of `server.py` |
| `server.dfy` | `Server` | the WebSocket endpoint as an event machine, `/register`, `/login` |
| `email.dfy` | `EmailRule` | the registration e-mail regex |
| `paths.dfy` | `Paths` | POSIX `os.path.splitext` and the avatar target path |
| `app.dfy` | `App` | the client's shared state and `current_user` access |
| `login_screen.dfy`, `register_screen.dfy`, `chat_screen.dfy`, `profile_screen.dfy` | one per screen | the screen handlers |
| `client.dfy` | `Client` | the screen manager: actions, `on_enter`, and invariants over every action sequence |

## Model

| member | source | states |
|---|---|---|
| Wrappers.FirstIndex | database.py:84-93 | The first index whose element satisfies the test. No earlier index does. `None` exactly when no element does. |
| Text.Strip | screens/chat_screen.py:140 | The result neither starts nor ends with whitespace. It is empty exactly when the input is all whitespace. |
| Text.StripIsInfix | screens/chat_screen.py:140 | What `strip` keeps is one contiguous piece of the input with only whitespace around it. |
| Text.LexLeTotal | database.py:238 | Any two strings are comparable in text order. |
| Text.LexLeTrans | database.py:238 | Text order is transitive. |
| Text.LexLeAntisym | database.py:238 | Two strings each not after the other are equal. |
| Clock.ParseFormat | server.py:49 | Parsing a stamp written with `%Y-%m-%d %H:%M:%S` gives back the same date and time. |
| Clock.FormatFields | server.py:49 | A formatted stamp has the canonical shape, and its six fields read back as the date-time written. |
| Clock.HourMinute | screens/chat_screen.py:51 | The `%H:%M` of a stamp exists exactly when `strptime` accepts the stamp. It is then characters 11 to 15 of the stamp. |
| Clock.HourMinuteOfClock | screens/chat_screen.py:51 | The `%H:%M` of a formatted date-time is its zero-padded hour and minute. |
| Clock.FormatOrder | database.py:238 | One formatted stamp is not after another in text order exactly when its date-time is not later. So `ORDER BY timestamp DESC` is newest first. |
| Clock.PadInjective | server.py:49 | Different field values give different zero-padded texts. |
| Recent.Insert | database.py:238 | Inserting into a newest-first list keeps it newest first. It adds exactly the one element. |
| Recent.Sort | database.py:238 | The result is a permutation of the input ordered newest first. |
| Recent.LatestComesFirst | database.py:238-239 | A row strictly newer than every other row of the table is the first row selected. |
| Recent.Newest | database.py:231-239 | Keeps `min(n, length)` rows, newest first. They are drawn from the input. No row left out is newer than any row kept. |
| Store.Seed | database.py:42-48 | The test user is added only when no row has its email. An existing username `test` makes the insert fail. Otherwise the table is unchanged. |
| Store.SeedIdempotent | database.py:42-48 | Opening the database a second time adds nothing. |
| Store.SeedKeepsValid | database.py:19-29 | Seeding keeps ids increasing and usernames and emails unique. |
| Store.Register | database.py:52-69 | Refuses with the duplicate message exactly when some row has the email or the username. The tables are then unchanged. Otherwise exactly one row is appended, with the next id, no avatar and an empty bio. |
| Store.RegisterKeepsValid | database.py:19-29 | Registration keeps the UNIQUE constraints and increasing ids. |
| Store.Login | database.py:74-93 | A profile is returned exactly when some row has both the email and the password. It is that row without its password. |
| Store.RegisterThenLogin | database.py:52-93 | After a successful registration, the same email and password log in as the new row. |
| Store.SaveMessage | database.py:98-105 | Appends exactly one message row, stamped with the store's clock. Earlier rows and users are unchanged. |
| Store.SaveKeepsValid | database.py:31-38 | Saving keeps message ids increasing. |
| Store.AvatarFor | database.py:236-245 | The joined avatar comes from the first row with the author's id. It is that row's path when the path is set, non-empty and exists on disk; otherwise, and for a NULL or unknown author, it is the default picture. |
| Store.GetMessages | database.py:231-254 | At most 100 entries, one per selected row, newest first. The selected rows are drawn from the table. No unselected row is newer than a shown one. Each entry carries its author's avatar. |
| Store.SavedMessageComesFirst | database.py:98-115 | A message saved later than every stored one heads the next listing. |
| Store.UpdateProfile | database.py:134-159 | Refuses with "nothing to update" exactly when no field applies. Refuses with "username taken" exactly when another row holds the new name. Otherwise it patches only the rows with this id. Emails, passwords and messages never change. |
| Store.UpdateProfileKeepsValid | database.py:19-29 | Profile updates keep usernames unique. |
| Store.GetProfile | database.py:161-179 | A profile is returned exactly when a row has the id. It is that row without the password. |
| Store.LoginIsProfile | database.py:74-93 | The profile `login_user` returns is the one `get_user_profile` reads back for its id. |
| Store.UpdateProfileThenGetProfile | database.py:134-179 | After a successful `update_profile`, `get_user_profile` returns the patched row. |
| Store.ChangePassword | database.py:181-192 | Succeeds exactly when the row with the id holds the old password. Only that row's password changes. On refusal nothing changes. |
| Store.ChangePasswordKeepsValid | database.py:181-192 | Password changes keep the table constraints. |
| Store.ChangePasswordThenLogin | database.py:181-192 | After a change, the new password logs in. The old one no longer does if it differed. |
| Store.UpdateAvatar | database.py:194-217 | Every row with the id points at the new path and nothing else changes. The old file is to be removed exactly when it is set, exists and is not the default picture. |
| Store.GetUserAvatar | database.py:219-229 | The row's stored path when it is set, non-empty and exists on disk; otherwise, and for an unknown id, the default picture. |
| Store.UpdateAvatarThenGet | database.py:194-229 | After `update_avatar`, `get_user_avatar` returns the new path while that file exists, and the default picture otherwise. |
| Store.UpdateAvatarKeepsValid | database.py:194-217 | Setting an avatar keeps the table constraints. |
| Registry.Connect | server.py:16-18 | Afterwards the id maps to the new socket and other ids are untouched. A new id goes last in iteration order. An existing id keeps its place. |
| Registry.Without | server.py:20-22 | Removes exactly the given id. For a list without repeats it cuts the id out at its position, so the others keep their order. |
| Registry.Disconnect | server.py:20-22 | Afterwards the id is absent and other ids are untouched. An absent id changes nothing. |
| Registry.DisconnectIdempotent | server.py:20-22 | Disconnecting twice equals disconnecting once. |
| Registry.ConnectReplaces | server.py:16-18 | Connecting the same id twice leaves one entry, holding the later socket, in the first connection's place. |
| Registry.Deliver | server.py:26-27 | Sends go to sockets in iteration order. The loop stops at the first socket that raises, which receives nothing. It completes exactly when no socket raised. |
| Registry.DeliverCompletes | server.py:26-27 | The loop completes exactly when no registered socket fails. |
| Registry.Broadcast | server.py:24-27 | The i-th send goes to the socket of the i-th id. With no failing socket every registered socket is sent to. When a send fails, the next id in order is the failing socket, and the fault raised is its fault. |
| Registry.BroadcastReachesEachOnce | server.py:24-27 | With no failing socket, each registered socket receives the message exactly once. |
| Server.Decode | server.py:39-43 | The three values are read exactly when all three keys are present. |
| Server.Enrich | server.py:45-50 | The broadcast dict copies the payload's three values and adds the server clock. |
| Server.OnConnect | server.py:33-34 | A new socket is registered under its path id and its loop starts. |
| Server.OnClose | server.py:51-52 | A closed socket's handler removes whatever socket its path id maps to, and ends. |
| Server.OnReceive | server.py:35-50 | Covers three cases. (1) A payload missing a key ends the handler and changes nothing else. (2) A complete payload is saved once and broadcast once. (3) A socket raising `WebSocketDisconnect` makes the sender's handler disconnect its own id; any other exception ends the handler without disconnecting. |
| Server.Step | server.py:32-52 | Each event keeps the registry and store invariants. |
| Server.Run | server.py:32-52 | Over any event sequence, stored messages and sent messages only grow: earlier ones are kept as a prefix. |
| Server.ReconnectReplaces | server.py:16-18 | A second connection for a user id replaces the first in place. Both handlers keep running. |
| Server.StaleCloseDropsNewer | server.py:51-52 | When the older of two connections of one user ends, the newer connection's entry is removed, though its handler still runs. |
| Server.BroadcastEchoesPayload | server.py:45-50 | Every send carries the payload's own user id, username and text, plus the server clock. |
| Server.ReceiveReachesEveryone | server.py:37-50 | With no failing socket, one message is stored and every registered socket gets exactly one copy. |
| Server.RegisterEndpoint | server.py:54-59 | Success exactly when registration succeeds; otherwise the duplicate-user error. |
| Server.LoginEndpoint | server.py:61-66 | Returns the user exactly when a row matches both the email and the password; otherwise "Invalid credentials". |
| Server.RegisterThenLoginEndpoint | server.py:54-66 | A successful `/register` followed by `/login` with the same email and password returns the new row. A refused registration leaves the database unchanged. |
| EmailRule.ScanBodyIsPattern | screens/register_screen.py:137-138 | The scan (first `@`, last `.` after it) accepts exactly the strings of the pattern's language. |
| EmailRule.ScanIsMatch | screens/register_screen.py:137-138 | The scan accepts exactly what `re.match` accepts, counting `$` before one final newline. |
| Paths.Extension | screens/profile_screen.py:127 | A non-empty extension is a suffix starting at the last `.` of the last path component. It contains no `.` or `/` after that. Something other than a dot comes before it in the component. An empty one means every dot of the component has only dots before it. |
| Paths.SplitExt | screens/profile_screen.py:127 | Root and extension concatenate to the path. The extension is the one `Paths.Extension` describes. |
| Paths.TargetKeepsExtension | screens/profile_screen.py:127-133 | `splitext` of `avatars/user_<id><ext>` gives back the accepted `ext`. |
| App.Start | main.py:19 | The client starts on the login screen with `current_user` set to `None`. |
| App.CurrentUser | screens/chat_screen.py:168 | Reading `current_user['id']` gives the user exactly when logged in. A missing attribute raises `AttributeError`; `None` raises `TypeError`. |
| LoginScreen.Validate | screens/login_screen.py:30-35 | The form passes exactly when both fields are non-empty. |
| LoginScreen.Login | screens/login_screen.py:16-28 | An empty field gives "fill all fields". A matching row becomes the session and the chat screen opens. No matching row gives the bad-credentials dialog. The store is only read. |
| LoginScreen.GotoRegister | screens/login_screen.py:51-53 | Opens the registration screen and leaves the session alone. |
| RegisterScreen.Validate | screens/register_screen.py:127-146 | Each message appears exactly when its rule is the first one broken, in the code's order. The form passes exactly when the username has 3 or more characters, the e-mail matches the pattern and the password has 6 or more characters. |
| RegisterScreen.Submit | screens/register_screen.py:110-125 | Shows success exactly when the form passes and no row clashes; then one row is added. Otherwise the store is unchanged and the first failing rule or the duplicate message is shown. |
| RegisterScreen.ConfirmSuccess | screens/register_screen.py:176-179 | Closing the success dialog opens the login screen. |
| RegisterScreen.GotoLogin | screens/register_screen.py:181-183 | Opens the login screen. |
| ChatScreen.MakeCard | screens/chat_screen.py:37-57 | A card exists exactly when the stamp parses, and otherwise `ValueError`. It shows the message's avatar, `name • HH:MM` and the text. |
| ChatScreen.Cards | screens/chat_screen.py:166-170 | One card per message in list order, highlighted exactly when the message's user id equals the session's. Without a logged-in user, a non-empty list raises the session's error. With one, only an unparsable stamp raises. |
| ChatScreen.Refresh | screens/chat_screen.py:154-172 | Without `current_user` the login screen opens. With a logged-in user, every listed message becomes a card and only a malformed stamp can raise. With `current_user` set to `None`, it raises `TypeError` exactly when some message is listed. |
| ChatScreen.Send | screens/chat_screen.py:139-152 | Blank input does nothing. Without a logged-in user, non-blank input raises the session's error. Otherwise the stripped text is saved under the session's id and name. The call succeeds exactly when every stamp of the new list parses. On success the input is cleared, and the cards are the user's view of the new list, one per message in order. |
| ChatScreen.Logout | screens/chat_screen.py:191-196 | Removes `current_user` and opens the login screen. |
| ChatScreen.OnEnter | screens/chat_screen.py:205-214 | Without `current_user` the login screen opens with the form untouched. For a logged-in user it succeeds exactly when every listed stamp parses, and otherwise raises `ValueError`. On success the application state and the input line are kept, and the cards are the user's view of the listed messages, one per message in order. With `current_user` set to `None`, it raises `TypeError` exactly when some message is listed, and with none it leaves an empty list. |
| ChatScreen.GotoProfile | screens/chat_screen.py:198-199 | Opens the profile screen. |
| ChatScreen.LogoutThenRefreshRedirects | screens/chat_screen.py:154-161 | After logout, the next refresh goes to the login screen and reads no user. |
| ChatScreen.SentMessageShowsFirst | screens/chat_screen.py:139-152 | A sent message stamped after all others becomes the first card. It is highlighted, has the stripped text, and is headed by the sender's name and the stamp's hour and minute. |
| ProfileScreen.OnEnterAsWritten | screens/profile_screen.py:90-102 | Fills name and bio from the row. It replaces the avatar only when the row has one, so otherwise the avatar shown before stays. |
| ProfileScreen.StaleAvatarAsWritten | screens/profile_screen.py:99-102 | As written, a user without an avatar is shown the previous user's avatar. |
| ProfileScreen.StaleAvatarSavedAsWritten | screens/profile_screen.py:99-102 | As written, when that second user then saves, the first user's picture is stored in the second user's row. |
| ProfileScreen.OnEnter | screens/profile_screen.py:90-102 | Corrected: the form shows the row's name, bio and avatar, or the default picture. |
| ProfileScreen.OnEnterForgetsPreviousForm | screens/profile_screen.py:90-102 | Corrected: the form after entering depends only on the database, not on what it showed before. |
| ProfileScreen.PickAvatar | screens/profile_screen.py:114-148 | An empty selection does nothing. A non-image extension gives the pick-image dialog. A failed copy gives the copy error and changes nothing. Otherwise the store applies `update_profile` with the target `avatars/user_<id><ext>`, whose extension is the chosen one. |
| ProfileScreen.PickAvatarRows | screens/profile_screen.py:133-142 | A copied image becomes the avatar of exactly the picking user's rows. Messages and all other rows are untouched. |
| ProfileScreen.SaveProfileAsWritten | screens/profile_screen.py:150-164 | On success the session name becomes the field text, whatever the row kept. A refusal shows the store's message. |
| ProfileScreen.BlankNameAsWritten | screens/profile_screen.py:160-162 | As written, saving an empty name reports success. The row keeps its name but the session's becomes empty. |
| ProfileScreen.SaveProfile | screens/profile_screen.py:150-164 | Corrected: the same store update, and the session keeps agreeing with the user's row. |
| ProfileScreen.ChangePassword | screens/profile_screen.py:185-207 | Three outcomes. An empty old or new field gives "fill all fields". A confirmation that differs gives the mismatch message. Otherwise the store decides: success closes the dialog; a refusal keeps it open and the rows unchanged. |
| ProfileScreen.GoBack | screens/profile_screen.py:235-236 | Opens the chat screen. |
| Client.Act | main.py:34-38 | Every handler keeps the database constraints. The `AsWritten` edition runs the program's own profile handlers; the `Corrected` edition runs the corrected ones. |
| Client.Enter | main.py:34-38 | `on_enter` changes neither the database nor the session, in both editions. |
| Client.Run | main.py:34-38 | Any action sequence keeps the database constraints. |
| Client.RunKeepsGuard | screens/chat_screen.py:154-170 | In both editions, from any guarded state, every action sequence stays guarded: chat and profile are only shown to a logged-in user. No handler raises `AttributeError` or `TypeError` on `current_user`. Only a malformed stored stamp raises; with well-formed stamps nothing raises. In the corrected edition the session also keeps agreeing with the user's row. |
| Client.BootIsGuarded | main.py:19 | The client starts guarded, in both editions. |
| Client.SignUpThenSignIn | screens/login_screen.py:16-28 | In both editions, registering, confirming and signing in with the same credentials opens the chat as the new row. |

## Left out

- Storage faults are not modelled. The `sqlite3.Error` branches of `register_user` (database.py:71-72) and `login_user` (database.py:94-96) never fire. The exception handler of `update_avatar` (database.py:215-217) never fires either. Only the UNIQUE violations of the schema are modelled.
- The first `get_messages` (database.py:107-132) is not modelled. The second definition (database.py:231) replaces it in the class body.
- EmailRule.ScanIsMatch: `\w` is ASCII letters, digits and `_` here. Python's `str` patterns also accept non-ASCII letters and digits.
- RegisterScreen.Validate: because of the ASCII `\w` above, an e-mail with non-ASCII letters or digits (such as `иван@почта.рф`) gets `BadEmail` here, while the program accepts it.
- RegisterScreen.Submit: it therefore refuses such a registration with the e-mail message, where the program would go on to `register_user`.
- Paths.TargetKeepsExtension: `str.lower` is ASCII lower-casing here (Text.Lower). The extension rule compares the result with three ASCII extensions, so its verdict is the same.
- Clock.HourMinute: only the canonical form is parsed: 19 characters, zero-padded fields and one space between date and time. `strptime` also accepts other stamps: unpadded or space-padded fields, and other whitespace (a tab, several spaces) in place of the single space. Such stamps count as `ValueError` here. Every stamp the store and the server write has the canonical form.
- File I/O is left out: `shutil.copy2`, `os.remove`, `os.makedirs`, the file chooser and `utils.create_default_avatar`. The file system is a fixed `fileExists` test. A copy failure is a parameter carrying the exception text.
- Concurrency is left out. The server handles one event at a time, and each event runs to completion. The interleavings of the `await`s inside `broadcast` are not modelled.
- Server.OnReceive: a raising `send_json` stops the broadcast loop (server.py:24-27), so the recipients after it get nothing. The exception ends the sender's handler. On `WebSocketDisconnect` that handler unregisters the sender's own path id (server.py:51-52), and the failing recipient stays registered. The model does exactly this.
- Server.Decode: payload values are `int`/null ids and strings. Other JSON types are not modelled.
- Client.Run: a crash ends the run without a state. A row saved before the raising refresh in `send_message` is committed in the real database, but it is not tracked after a `Crash`.
- The logout confirmation dialog, theme switching (`toggle_theme`, `settings.json`), window sizing and all widget layout are not modelled. `ChatScreen.Logout` is the dialog's confirming button.
- `on_leave`/`Clock.schedule_interval` of the chat screen is represented by the `Tick` action. It acts only while the chat screen is current.
- `Store.UpdateAvatar` is not called by any screen. The profile screen sets avatars through `update_profile`.
- The fallback `app.default_avatar` of `MessageCard` (screens/chat_screen.py:38) is never used, because every listed message carries `avatar_path`.
- Ids are unbounded integers; SQLite's 64-bit row ids are never exceeded in the model.

## Findings

| source | as written | input that shows it | evidently intended | confidence | as-written member | corrected member |
|---|---|---|---|---|---|---|
| screens/profile_screen.py:99-102 | `on_enter` sets the avatar image only when the profile has an avatar. | User 1 (avatar `avatars/user_1.png`) opens the profile and logs out. User 2 (no avatar) logs in and opens the profile. The form shows user 1's picture, and `save_profile` then stores that path in user 2's row. | A profile without an avatar shows the default picture. | medium; not executed | ProfileScreen.StaleAvatarSavedAsWritten | ProfileScreen.OnEnterForgetsPreviousForm |
| screens/profile_screen.py:160-162 | After a successful save, `current_user['username']` becomes the field text even when it is empty. `update_profile` ignores an empty username. | Row `anna`. Clear the username field, enter a bio, save. The save reports success and the row keeps `anna`, but the session name is `""`, and later messages are sent under `""`. | The session takes the username the row holds. | medium; not executed | ProfileScreen.BlankNameAsWritten | ProfileScreen.SaveProfile |

The client model (`Client`) has two editions. `Client.AsWritten` runs `ProfileScreen.OnEnterAsWritten` and `ProfileScreen.SaveProfileAsWritten`, as the program does. `Client.Corrected` runs `ProfileScreen.OnEnter` and `ProfileScreen.SaveProfile`. `Client.RunKeepsGuard` proves the absence of `current_user` crashes for both, and proves that the session agrees with the database only for the corrected edition.
