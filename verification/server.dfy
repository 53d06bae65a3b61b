/** The FastAPI app of `server.py`: the WebSocket endpoint `/ws/{user_id}`
    as a sequential state machine over connection events, and the response
    shaping of the `/register` and `/login` endpoints. Each event is
    handled to completion before the next one; the two clocks (the store's
    `CURRENT_TIMESTAMP` and the server's `datetime.now()`) and the sockets
    that fail when written to come with the event. */
module Server {
  import opened Wrappers
  import Store
  import R = Registry

  /** A JSON object from `receive_json`, reduced to the three keys the
      handler reads. `None` is a missing key; `userId == Some(None)` is a
      JSON null. */
  datatype Payload = Payload(userId: Option<Option<int>>, username: Option<string>, text: Option<string>)

  /** The dict passed to `broadcast`. */
  datatype Outbound = Outbound(userId: Option<int>, username: string, text: string, timestamp: string)

  /** The three values read out of a payload. */
  datatype Inbound = Inbound(userId: Option<int>, username: string, text: string)

  /** `registry` is the shared `ConnectionManager`; `handlers` maps every
      socket whose `websocket_endpoint` loop is still running to the
      `user_id` of its path; `seen` holds every socket ever accepted;
      `outbox` lists every `send_json` made, in order. */
  datatype Server = Server(registry: R.Registry, handlers: map<R.Socket, int>, seen: set<R.Socket>,
                           db: Store.Store, outbox: seq<R.Send<Outbound>>)

  datatype Event =
    | Connect(uid: int, ws: R.Socket)
    | Receive(ws: R.Socket, payload: Payload, dbNow: string, wallNow: string,
              faults: map<R.Socket, R.Fault>)
    | Close(ws: R.Socket)

  function Start(db: Store.Store): Server {
    Server(R.Empty, map[], {}, db, [])
  }

  ghost predicate Valid(s: Server) {
    && R.Valid(s.registry)
    && R.Injective(s.registry)
    && (forall u :: u in s.registry.sockets ==> s.registry.sockets[u] in s.seen)
    && s.handlers.Keys <= s.seen
    && Store.Valid(s.db)
  }

  /** `data['user_id']`, `data['username']`, `data['text']`: `None` when a
      key is missing and the lookup raises `KeyError`. */
  function Decode(p: Payload): (r: Option<Inbound>)
    ensures r.Some? <==> p.userId.Some? && p.username.Some? && p.text.Some?
    ensures r.Some? ==> r.value == Inbound(p.userId.value, p.username.value, p.text.value)
  {
    if p.userId.Some? && p.username.Some? && p.text.Some? then
      Some(Inbound(p.userId.value, p.username.value, p.text.value))
    else None
  }

  /** The broadcast dict: the payload's three values and the server clock. */
  function Enrich(m: Inbound, wallNow: string): (r: Outbound)
    ensures r.userId == m.userId && r.username == m.username && r.text == m.text
    ensures r.timestamp == wallNow
  {
    Outbound(m.userId, m.username, m.text, wallNow)
  }

  /** `manager.connect(websocket, user_id)` when a client opens
      `/ws/{uid}`: the socket is registered under the path id and its
      receive loop starts. A socket object is accepted only once. */
  function OnConnect(s: Server, uid: int, ws: R.Socket): (r: Server)
    ensures ws in s.seen ==> r == s
    ensures ws !in s.seen ==>
              && r.registry == R.Connect(s.registry, uid, ws)
              && r.handlers == s.handlers[ws := uid]
              && r.db == s.db && r.outbox == s.outbox
    ensures Valid(s) ==> Valid(r)
  {
    if ws in s.seen then s
    else
      var r := s.(registry := R.Connect(s.registry, uid, ws), handlers := s.handlers[ws := uid],
                  seen := s.seen + {ws});
      assert Valid(s) ==> R.Injective(r.registry) by {
        if Valid(s) {
          forall u | u in s.registry.sockets ensures s.registry.sockets[u] != ws {
            assert s.registry.sockets[u] in s.seen;
          }
        }
      }
      r
  }

  /** `receive_json` raised `WebSocketDisconnect` in the loop of `ws`: the
      handler calls `manager.disconnect` with its own path id, which drops
      whatever socket is registered under that id now, and ends. */
  function OnClose(s: Server, ws: R.Socket): (r: Server)
    ensures ws !in s.handlers ==> r == s
    ensures ws in s.handlers ==>
              && r.registry == R.Disconnect(s.registry, s.handlers[ws])
              && r.handlers == s.handlers - {ws}
              && r.db == s.db && r.outbox == s.outbox
    ensures Valid(s) ==> Valid(r)
  {
    if ws !in s.handlers then s
    else s.(registry := R.Disconnect(s.registry, s.handlers[ws]), handlers := s.handlers - {ws})
  }

  /** One turn of the receive loop of `ws`. A payload missing a key raises
      `KeyError` before anything is saved; the exception is not the one the
      handler catches, so the loop ends without `disconnect`. A complete
      payload is saved once and broadcast once. A send that raises ends the
      broadcast; if it raised `WebSocketDisconnect` the handler of `ws`
      disconnects its own path id, otherwise it ends without doing so. */
  function OnReceive(s: Server, ws: R.Socket, p: Payload, dbNow: string, wallNow: string,
                     faults: map<R.Socket, R.Fault>): (r: Server)
    requires Valid(s)
    ensures Valid(r)
    ensures ws !in s.handlers ==> r == s
    ensures ws in s.handlers && Decode(p).None? ==>
              && r.db == s.db && r.outbox == s.outbox && r.registry == s.registry
              && r.handlers == s.handlers - {ws}
    ensures ws in s.handlers && Decode(p).Some? ==>
              var m := Decode(p).value;
              var d := R.Broadcast(s.registry, Enrich(m, wallNow), faults);
              && r.db == Store.SaveMessage(s.db, m.userId, m.username, m.text, dbNow)
              && r.outbox == s.outbox + d.sends
              && (d.fault.None? ==> r.registry == s.registry && r.handlers == s.handlers)
              && (d.fault == Some(R.Disconnected) ==>
                    r.registry == R.Disconnect(s.registry, s.handlers[ws]) && r.handlers == s.handlers - {ws})
              && (d.fault == Some(R.Failed) ==>
                    r.registry == s.registry && r.handlers == s.handlers - {ws})
  {
    if ws !in s.handlers then s
    else match Decode(p)
      case None => s.(handlers := s.handlers - {ws})
      case Some(m) =>
        Store.SaveKeepsValid(s.db, m.userId, m.username, m.text, dbNow);
        var db := Store.SaveMessage(s.db, m.userId, m.username, m.text, dbNow);
        var d := R.Broadcast(s.registry, Enrich(m, wallNow), faults);
        var t := s.(db := db, outbox := s.outbox + d.sends);
        match d.fault
        case None => t
        case Some(fault) =>
          if fault.Disconnected? then
            t.(registry := R.Disconnect(s.registry, s.handlers[ws]), handlers := s.handlers - {ws})
          else t.(handlers := s.handlers - {ws})
  }

  function Step(s: Server, e: Event): (r: Server)
    requires Valid(s)
    ensures Valid(r)
  {
    match e
    case Connect(uid, ws) => OnConnect(s, uid, ws)
    case Receive(ws, p, dbNow, wallNow, faults) => OnReceive(s, ws, p, dbNow, wallNow, faults)
    case Close(ws) => OnClose(s, ws)
  }

  function Run(s: Server, events: seq<Event>): (r: Server)
    requires Valid(s)
    ensures Valid(r)
    ensures |r.outbox| >= |s.outbox| && r.outbox[..|s.outbox|] == s.outbox
    ensures |r.db.messages| >= |s.db.messages| && r.db.messages[..|s.db.messages|] == s.db.messages
    decreases |events|
  {
    if |events| == 0 then s
    else
      var t := Step(s, events[0]);
      assert |t.outbox| >= |s.outbox| && t.outbox[..|s.outbox|] == s.outbox;
      assert |t.db.messages| >= |s.db.messages| && t.db.messages[..|s.db.messages|] == s.db.messages;
      var r := Run(t, events[1..]);
      assert r.outbox[..|s.outbox|] == r.outbox[..|t.outbox|][..|s.outbox|];
      assert r.db.messages[..|s.db.messages|] == r.db.messages[..|t.db.messages|][..|s.db.messages|];
      r
  }

  // ---------------------------------------------------------------------
  // Properties of the WebSocket endpoint
  // ---------------------------------------------------------------------

  /** Whatever the connection sequence, at most one socket is registered
      per user id, and the one registered last for an id replaces the
      previous one in place. */
  lemma ReconnectReplaces(s: Server, uid: int, a: R.Socket, b: R.Socket)
    requires Valid(s) && a != b && a !in s.seen && b !in s.seen
    ensures var r := OnConnect(OnConnect(s, uid, a), uid, b);
            && r.registry.sockets[uid] == b
            && r.registry.order == R.Connect(s.registry, uid, b).order
            && r.handlers == s.handlers[a := uid][b := uid]
  {
  }

  /** The older connection of a user ending removes the newer connection's
      entry, although the newer handler keeps running: the entry is keyed by
      user id only. */
  lemma StaleCloseDropsNewer(s: Server, uid: int, a: R.Socket, b: R.Socket)
    requires Valid(s) && a != b && a !in s.seen && b !in s.seen
    ensures var r := OnClose(OnConnect(OnConnect(s, uid, a), uid, b), a);
            && uid !in r.registry.sockets
            && b in r.handlers && r.handlers[b] == uid
  {
  }

  /** Every send of a message-handling turn carries the payload's own
      user_id, username and text, not the path id, plus the server clock. */
  lemma BroadcastEchoesPayload(s: Server, ws: R.Socket, p: Payload, dbNow: string, wallNow: string,
                               faults: map<R.Socket, R.Fault>)
    requires Valid(s) && ws in s.handlers && Decode(p).Some?
    ensures var r := OnReceive(s, ws, p, dbNow, wallNow, faults);
            forall i :: |s.outbox| <= i < |r.outbox| ==>
              && r.outbox[i].message.userId == p.userId.value
              && r.outbox[i].message.username == p.username.value
              && r.outbox[i].message.text == p.text.value
              && r.outbox[i].message.timestamp == wallNow
  {
  }

  /** With no failing socket, a complete payload adds exactly one stored
      message and delivers exactly one copy to every registered socket. */
  lemma ReceiveReachesEveryone(s: Server, ws: R.Socket, p: Payload, dbNow: string, wallNow: string,
                               faults: map<R.Socket, R.Fault>, uid: int)
    requires Valid(s) && ws in s.handlers && Decode(p).Some?
    requires forall u :: u in s.registry.sockets ==> s.registry.sockets[u] !in faults
    requires uid in s.registry.sockets
    ensures var r := OnReceive(s, ws, p, dbNow, wallNow, faults);
            && |r.db.messages| == |s.db.messages| + 1
            && r.registry == s.registry
            && exists i :: |s.outbox| <= i < |r.outbox| && r.outbox[i].to == s.registry.sockets[uid]
                           && (forall j :: |s.outbox| <= j < |r.outbox| && r.outbox[j].to == s.registry.sockets[uid] ==>
                                 j == i)
  {
    var m := Decode(p).value;
    var d := R.Broadcast(s.registry, Enrich(m, wallNow), faults);
    R.BroadcastReachesEachOnce(s.registry, Enrich(m, wallNow), faults, uid);
    var r := OnReceive(s, ws, p, dbNow, wallNow, faults);
    var k :| 0 <= k < |d.sends| && d.sends[k] == R.Send(s.registry.sockets[uid], Enrich(m, wallNow))
             && forall j :: 0 <= j < |d.sends| && d.sends[j].to == s.registry.sockets[uid] ==> j == k;
    assert r.outbox == s.outbox + d.sends;
    assert r.outbox[|s.outbox| + k].to == s.registry.sockets[uid];
    forall j | |s.outbox| <= j < |r.outbox| && r.outbox[j].to == s.registry.sockets[uid]
      ensures j == |s.outbox| + k
    {
      assert d.sends[j - |s.outbox|] == r.outbox[j];
    }
  }

  // ---------------------------------------------------------------------
  // HTTP endpoints
  // ---------------------------------------------------------------------

  /** `{"status": "success"}`, `{"status": "success", "user": ...}` or
      `{"status": "error", "message": ...}`. */
  datatype Response = Success | SuccessUser(user: Store.Profile) | Error(message: string)

  const InvalidCredentials := "Invalid credentials"

  /** `POST /register`. */
  function RegisterEndpoint(db: Store.Store, username: string, email: string, password: string): (r: (Store.Store, Response))
    ensures r.0 == Store.Register(db, username, email, password).0
    ensures r.1 == Success <==> Store.Register(db, username, email, password).1.Done?
    ensures r.1 != Success ==> r.1 == Error(Store.DuplicateUser)
  {
    var (db', outcome) := Store.Register(db, username, email, password);
    match outcome
    case Done => (db', Success)
    case Refused(msg) => (db', Error(msg))
  }

  /** `POST /login`. */
  function LoginEndpoint(db: Store.Store, email: string, password: string): (r: Response)
    ensures r.SuccessUser? || r == Error(InvalidCredentials)
    ensures r.SuccessUser? <==> Store.Known(db, email, password)
    ensures r.SuccessUser? ==> Store.Login(db, email, password) == Some(r.user)
  {
    match Store.Login(db, email, password)
    case Some(user) => SuccessUser(user)
    case None => Error(InvalidCredentials)
  }

  /** A client that registers through `POST /register` and then posts the
      same email and password to `POST /login` gets back the new row, and
      a refused registration leaves the database as it was. */
  lemma RegisterThenLoginEndpoint(db: Store.Store, username: string, email: string, password: string)
    requires Store.Valid(db)
    ensures var (db', response) := RegisterEndpoint(db, username, email, password);
            && (response == Success ==>
                  LoginEndpoint(db', email, password)
                  == SuccessUser(Store.Profile(db.nextUserId, username, email, None, "")))
            && (response != Success ==> db' == db)
  {
    if RegisterEndpoint(db, username, email, password).1 == Success {
      Store.RegisterThenLogin(db, username, email, password);
    }
  }
}
