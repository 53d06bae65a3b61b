/** `screens/chat_screen.py`: the message list, the input line and the
    toolbar actions of the chat screen. */
module ChatScreen {
  import opened Wrappers
  import Text
  import Clock
  import Store
  import opened App

  /** A `MessageCard`: the picture shown, the header line, the text, and
      whether it gets the highlight of one's own messages. */
  datatype Card = Card(avatar: string, header: string, body: string, own: bool)

  /** The widgets of the screen that hold data: the input line and the
      cards of the message list. */
  datatype ChatView = ChatView(input: string, cards: seq<Card>)

  const Blank := ChatView("", [])

  /** `f"{username} • {time_str}"` for a timestamp whose `HH:MM` is `hm`. */
  function Header(username: string, hm: string): string {
    username + " • " + hm
  }

  /** `MessageCard(message, is_own)`. The message dict always holds the key
      `avatar_path`, so `.get` returns it and the application's default is
      never used. `strptime` raises `ValueError` on a timestamp not of the
      form `%Y-%m-%d %H:%M:%S`. */
  function MakeCard(m: Store.MessageView, own: bool): (r: Step<Card>)
    ensures r.Ok? <==> Clock.Parse(m.timestamp).Some?
    ensures r.Crash? ==> r.error == ValueError
    ensures r.Ok? ==> r.value == Card(m.avatarPath, Header(m.username, m.timestamp[11..16]), m.text, own)
  {
    match Clock.HourMinute(m.timestamp)
    case None => Crash(ValueError)
    case Some(hm) => Ok(Card(m.avatarPath, Header(m.username, hm), m.text, own))
  }

  /** The card a logged-in `user` sees for `m`: highlighted exactly when
      the message's `user_id` equals the user's id (a NULL author equals
      no id). */
  ghost function CardFor(m: Store.MessageView, user: Store.Profile): Card
    requires Clock.Parse(m.timestamp).Some?
  {
    Card(m.avatarPath, Header(m.username, m.timestamp[11..16]), m.text, m.userId == Some(user.id))
  }

  /** `cards` is the list `user` sees for `msgs`: one card per message,
      in order. */
  ghost predicate Shows(cards: seq<Card>, msgs: seq<Store.MessageView>, user: Store.Profile) {
    && |cards| == |msgs|
    && forall i :: 0 <= i < |msgs| ==>
         Clock.Parse(msgs[i].timestamp).Some? && cards[i] == CardFor(msgs[i], user)
  }

  predicate AllParse(msgs: seq<Store.MessageView>) {
    forall i :: 0 <= i < |msgs| ==> Clock.Parse(msgs[i].timestamp).Some?
  }

  /** The loop of `refresh_messages`: for each message `is_own` reads
      `current_user['id']` first, then the card is built; the first
      exception ends the loop. */
  function Cards(msgs: seq<Store.MessageView>, session: Session): (r: Step<seq<Card>>)
    ensures r.Ok? <==> |msgs| == 0 || (session.LoggedIn? && AllParse(msgs))
    ensures r.Crash? && !session.LoggedIn? ==> r.error == CurrentUser(session).error
    ensures r.Crash? && session.LoggedIn? ==> r.error == ValueError
    ensures r.Ok? ==> |r.value| == |msgs|
    ensures r.Ok? && |msgs| > 0 ==>
              forall i :: 0 <= i < |msgs| ==> r.value[i] == CardFor(msgs[i], session.user)
  {
    if |msgs| == 0 then Ok([])
    else
      match CurrentUser(session)
      case Crash(e) => Crash(e)
      case Ok(user) =>
        match MakeCard(msgs[0], msgs[0].userId == Some(user.id))
        case Crash(e) => Crash(e)
        case Ok(card) =>
          match Cards(msgs[1..], session)
          case Crash(e) => Crash(e)
          case Ok(rest) => Ok([card] + rest)
  }

  /** `refresh_messages`: without a `current_user` attribute the login
      screen opens; otherwise the list is rebuilt from `get_messages`, and
      a `current_user` of `None` raises `TypeError` at the first card. */
  function Refresh(a: App, v: ChatView, fileExists: string -> bool): (r: Step<(App, ChatView)>)
    ensures !HasUser(a.session) ==> r == Ok((Show(a, LoginScreen), v))
    ensures HasUser(a.session) && r.Ok? ==>
              && r.value.0 == a
              && r.value.1.input == v.input
              && |r.value.1.cards| == |Store.GetMessages(a.db, fileExists)|
    ensures a.session.LoggedIn? ==>
              (r.Ok? <==> AllParse(Store.GetMessages(a.db, fileExists)))
    ensures a.session.LoggedIn? && r.Ok? ==>
              Shows(r.value.1.cards, Store.GetMessages(a.db, fileExists), a.session.user)
    ensures r.Crash? && a.session.LoggedIn? ==> r.error == ValueError
    ensures a.session.NoneVal? ==>
              (r.Crash? <==> |Store.GetMessages(a.db, fileExists)| > 0) && (r.Crash? ==> r.error == TypeError)
  {
    if !HasUser(a.session) then Ok((Show(a, LoginScreen), v))
    else
      match Cards(Store.GetMessages(a.db, fileExists), a.session)
      case Crash(e) => Crash(e)
      case Ok(cards) => Ok((a, v.(cards := cards)))
  }

  /** `send_message`: a blank input (after `strip`) does nothing; otherwise
      the stripped text is saved under the current user with the store's
      clock `now`, the input is cleared and the list refreshed. */
  function Send(a: App, v: ChatView, now: string, fileExists: string -> bool): (r: Step<(App, ChatView)>)
    ensures Text.AllSpace(v.input) ==> r == Ok((a, v))
    ensures !Text.AllSpace(v.input) && !a.session.LoggedIn? ==> r == Crash(CurrentUser(a.session).error)
    ensures !Text.AllSpace(v.input) && a.session.LoggedIn? && r.Ok? ==>
              var db := Store.SaveMessage(a.db, Some(a.session.user.id), a.session.user.username,
                                          Text.Strip(v.input), now);
              && r.value.1.input == ""
              && r.value.0 == a.(db := db)
              && Shows(r.value.1.cards, Store.GetMessages(db, fileExists), a.session.user)
    ensures !Text.AllSpace(v.input) && a.session.LoggedIn? ==>
              (r.Ok? <==> AllParse(Store.GetMessages(
                             Store.SaveMessage(a.db, Some(a.session.user.id), a.session.user.username,
                                               Text.Strip(v.input), now), fileExists)))
  {
    var text := Text.Strip(v.input);
    if text == "" then Ok((a, v))
    else
      match CurrentUser(a.session)
      case Crash(e) => Crash(e)
      case Ok(user) =>
        var db := Store.SaveMessage(a.db, Some(user.id), user.username, text, now);
        Refresh(a.(db := db), v.(input := ""), fileExists)
  }

  /** `logout` (the confirming button of the logout dialog): removes the
      `current_user` attribute and opens the login screen. */
  function Logout(a: App): (r: App)
    ensures r.session == Absent && r.screen == LoginScreen && r.db == a.db
  {
    Show(a.(session := Absent), LoginScreen)
  }

  /** `on_enter`: the same guard as `refresh_messages`, then a refresh.
      Without a user the login screen opens; with one the list shows a
      card per message; a `current_user` of `None` raises `TypeError` as
      soon as there is a message to show. */
  function OnEnter(a: App, v: ChatView, fileExists: string -> bool): (r: Step<(App, ChatView)>)
    ensures !HasUser(a.session) ==> r == Ok((Show(a, LoginScreen), v))
    ensures a.session.LoggedIn? ==>
              && (r.Ok? <==> AllParse(Store.GetMessages(a.db, fileExists)))
              && (r.Crash? ==> r.error == ValueError)
    ensures a.session.LoggedIn? && r.Ok? ==>
              && r.value.0 == a
              && r.value.1.input == v.input
              && Shows(r.value.1.cards, Store.GetMessages(a.db, fileExists), a.session.user)
    ensures a.session.NoneVal? ==>
              (r.Crash? <==> |Store.GetMessages(a.db, fileExists)| > 0) && (r.Crash? ==> r.error == TypeError)
    ensures a.session.NoneVal? && r.Ok? ==> r == Ok((a, v.(cards := [])))
  {
    if !HasUser(a.session) then Ok((Show(a, LoginScreen), v))
    else Refresh(a, v, fileExists)
  }

  /** `goto_profile`. */
  function GotoProfile(a: App): (r: App)
    ensures r.screen == ProfileScreen && r.session == a.session && r.db == a.db
  {
    Show(a, ProfileScreen)
  }

  /** After a logout the next refresh, the timer's included, sends the
      user back to the login screen instead of reading `current_user`. */
  lemma LogoutThenRefreshRedirects(a: App, v: ChatView, fileExists: string -> bool)
    ensures Refresh(Logout(a), v, fileExists) == Ok((Logout(a), v))
  {
  }

  /** A message sent by a logged-in user, with a clock later than every
      stored timestamp, is the first card of the refreshed list, shown
      highlighted under the user's name. */
  lemma SentMessageShowsFirst(a: App, v: ChatView, now: Clock.DateTime, fileExists: string -> bool)
    requires a.session.LoggedIn? && Clock.Valid(now)
    requires !Text.AllSpace(v.input)
    requires forall k :: 0 <= k < |a.db.messages| ==>
               Text.LexLe(a.db.messages[k].timestamp, Clock.Format(now))
               && a.db.messages[k].timestamp != Clock.Format(now)
    requires AllParse(Store.GetMessages(Store.SaveMessage(a.db, Some(a.session.user.id), a.session.user.username,
                                                          Text.Strip(v.input), Clock.Format(now)), fileExists))
    ensures var r := Send(a, v, Clock.Format(now), fileExists);
            && r.Ok?
            && |r.value.1.cards| > 0
            && r.value.1.cards[0].own
            && r.value.1.cards[0].body == Text.Strip(v.input)
            && r.value.1.cards[0].header
               == Header(a.session.user.username, Clock.Pad(now.hour, 2) + ":" + Clock.Pad(now.minute, 2))
  {
    var user := a.session.user;
    var text := Text.Strip(v.input);
    var stamp := Clock.Format(now);
    var t := Store.SaveMessage(a.db, Some(user.id), user.username, text, stamp);
    Store.SavedMessageComesFirst(a.db, Some(user.id), user.username, text, stamp, fileExists);
    Clock.HourMinuteOfClock(now);
    var first := Store.GetMessages(t, fileExists)[0];
    assert first.timestamp == stamp && first.text == text && first.userId == Some(user.id);
  }
}
