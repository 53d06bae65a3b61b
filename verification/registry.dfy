/** `ConnectionManager` of `server.py`: the dict `active_connections` from
    user id to WebSocket, kept as the dict's insertion order plus the
    mapping itself, and the `broadcast` loop over its values. */
module Registry {
  import opened Wrappers

  /** An accepted WebSocket, known only by its identity. */
  datatype Socket = Socket(id: nat)

  datatype Registry = Registry(order: seq<int>, sockets: map<int, Socket>)

  /** What a failing `send_json` raises: `WebSocketDisconnect`, or any
      other exception. */
  datatype Fault = Disconnected | Failed

  datatype Send<M> = Send(to: Socket, message: M)

  /** The sends `broadcast` made, and the exception that ended it early. */
  datatype Delivery<M> = Delivery(sends: seq<Send<M>>, fault: Option<Fault>)

  const Empty: Registry := Registry([], map[])

  predicate Distinct(xs: seq<int>) {
    forall i, j :: 0 <= i < j < |xs| ==> xs[i] != xs[j]
  }

  /** `order` lists each key of the dict once. */
  ghost predicate Valid(r: Registry) {
    Distinct(r.order) && forall u :: u in r.sockets <==> u in r.order
  }

  /** No socket is registered under two user ids. */
  predicate Injective(r: Registry) {
    forall u, v :: u in r.sockets && v in r.sockets && u != v ==> r.sockets[u] != r.sockets[v]
  }

  /** The entries of `a` and `b` agree on every key but `uid`. */
  ghost predicate SameExcept(a: map<int, Socket>, b: map<int, Socket>, uid: int) {
    forall u :: u != uid ==> (u in a <==> u in b) && (u in a ==> a[u] == b[u])
  }

  /** `connect`: `active_connections[user_id] = websocket`. A new key goes
      last; an existing key keeps its place and gets the new socket. The old
      socket is not closed. */
  function Connect(r: Registry, uid: int, ws: Socket): (r': Registry)
    ensures uid in r'.sockets && r'.sockets[uid] == ws
    ensures SameExcept(r'.sockets, r.sockets, uid)
    ensures uid in r.sockets ==> r'.order == r.order
    ensures uid !in r.sockets ==> r'.order == r.order + [uid]
    ensures Valid(r) ==> Valid(r')
  {
    if uid in r.sockets then Registry(r.order, r.sockets[uid := ws])
    else Registry(r.order + [uid], r.sockets[uid := ws])
  }

  /** `xs` without `uid`, other keys in their order. */
  function Without(xs: seq<int>, uid: int): (r: seq<int>)
    ensures forall u :: u in r <==> u in xs && u != uid
    ensures Distinct(xs) ==> Distinct(r)
    ensures uid !in xs ==> r == xs
    ensures Distinct(xs) ==> forall i :: 0 <= i < |xs| && xs[i] == uid ==> r == xs[..i] + xs[i + 1..]
    ensures |r| <= |xs|
  {
    if |xs| == 0 then []
    else if xs[0] == uid then
      assert Distinct(xs) ==> uid !in xs[1..];
      Without(xs[1..], uid)
    else
      var rest := Without(xs[1..], uid);
      assert Distinct(xs) ==> xs[0] !in xs[1..];
      ConsSplice(xs, uid, rest);
      [xs[0]] + rest
  }

  /** Keeping the head in front of the tail with `uid` cut out is cutting
      `uid` out of the whole sequence. */
  lemma ConsSplice(xs: seq<int>, uid: int, rest: seq<int>)
    requires |xs| > 0 && xs[0] != uid
    requires Distinct(xs[1..]) ==>
               forall j :: 0 <= j < |xs| - 1 && xs[1..][j] == uid ==> rest == xs[1..][..j] + xs[1..][j + 1..]
    ensures Distinct(xs) ==>
              forall i :: 0 <= i < |xs| && xs[i] == uid ==> [xs[0]] + rest == xs[..i] + xs[i + 1..]
  {
    forall i | Distinct(xs) && 0 <= i < |xs| && xs[i] == uid ensures [xs[0]] + rest == xs[..i] + xs[i + 1..] {
      assert Distinct(xs[1..]);
      assert xs[1..][i - 1] == uid;
      assert [xs[0]] + xs[1..][..i - 1] == xs[..i];
      assert xs[1..][i..] == xs[i + 1..];
    }
  }

  /** `disconnect`: deletes the key when present, otherwise does nothing. */
  function Disconnect(r: Registry, uid: int): (r': Registry)
    ensures uid !in r'.sockets
    ensures SameExcept(r'.sockets, r.sockets, uid)
    ensures r'.order == Without(r.order, uid)
    ensures Valid(r) && uid !in r.sockets ==> r' == r
    ensures Valid(r) ==> Valid(r')
  {
    Registry(Without(r.order, uid), r.sockets - {uid})
  }

  /** Disconnecting twice is disconnecting once. */
  lemma {:induction false} DisconnectIdempotent(r: Registry, uid: int)
    requires Valid(r)
    ensures Disconnect(Disconnect(r, uid), uid) == Disconnect(r, uid)
  {
  }

  /** Re-connecting an existing key keeps the number of entries; at most
      one socket is ever held per user id. */
  lemma ConnectReplaces(r: Registry, uid: int, a: Socket, b: Socket)
    requires Valid(r)
    ensures Connect(Connect(r, uid, a), uid, b).sockets == r.sockets[uid := b]
    ensures Connect(Connect(r, uid, a), uid, b).order == Connect(r, uid, b).order
  {
  }

  /** The socket behind each key of `order`. */
  predicate Covers(order: seq<int>, sockets: map<int, Socket>) {
    forall i :: 0 <= i < |order| ==> order[i] in sockets
  }

  /** The `for ... await connection.send_json(message)` loop: sends in
      order until a send raises; the raising socket gets nothing and no
      later socket is tried. */
  function Deliver<M>(order: seq<int>, sockets: map<int, Socket>, m: M, faults: map<Socket, Fault>): (d: Delivery<M>)
    requires Covers(order, sockets)
    ensures |d.sends| <= |order|
    ensures forall i :: 0 <= i < |d.sends| ==>
              d.sends[i] == Send(sockets[order[i]], m) && sockets[order[i]] !in faults
    ensures d.fault.None? <==> |d.sends| == |order|
    ensures d.fault.Some? ==>
              sockets[order[|d.sends|]] in faults && d.fault.value == faults[sockets[order[|d.sends|]]]
  {
    if |order| == 0 then Delivery([], None)
    else
      var ws := sockets[order[0]];
      if ws in faults then Delivery([], Some(faults[ws]))
      else
        var rest := Deliver(order[1..], sockets, m, faults);
        Delivery([Send(ws, m)] + rest.sends, rest.fault)
  }

  /** The loop runs to the end exactly when no registered socket fails. */
  lemma DeliverCompletes<M>(r: Registry, m: M, faults: map<Socket, Fault>)
    requires Valid(r)
    ensures Deliver(r.order, r.sockets, m, faults).fault.None? <==>
              forall u :: u in r.sockets ==> r.sockets[u] !in faults
  {
    var d := Deliver(r.order, r.sockets, m, faults);
    if d.fault.Some? {
      assert r.order[|d.sends|] in r.sockets;
    } else {
      forall u | u in r.sockets ensures r.sockets[u] !in faults {
        var i :| 0 <= i < |r.order| && r.order[i] == u;
        assert d.sends[i].to == r.sockets[u];
      }
    }
  }

  /** `broadcast(message)` over the registry's values in dict order. */
  function Broadcast<M>(r: Registry, m: M, faults: map<Socket, Fault>): (d: Delivery<M>)
    requires Valid(r)
    ensures |d.sends| <= |r.order|
    ensures forall i :: 0 <= i < |d.sends| ==> d.sends[i] == Send(r.sockets[r.order[i]], m)
    ensures d.fault.None? <==> forall u :: u in r.sockets ==> r.sockets[u] !in faults
    ensures d.fault.None? ==> |d.sends| == |r.order|
    ensures d.fault.Some? ==>
              && |d.sends| < |r.order|
              && r.sockets[r.order[|d.sends|]] in faults
              && d.fault.value == faults[r.sockets[r.order[|d.sends|]]]
  {
    DeliverCompletes(r, m, faults);
    Deliver(r.order, r.sockets, m, faults)
  }

  /** With no failing socket, each registered socket receives the message
      exactly once. */
  lemma BroadcastReachesEachOnce<M>(r: Registry, m: M, faults: map<Socket, Fault>, uid: int)
    requires Valid(r) && Injective(r)
    requires forall u :: u in r.sockets ==> r.sockets[u] !in faults
    requires uid in r.sockets
    ensures var d := Broadcast(r, m, faults);
            exists i :: 0 <= i < |d.sends| && d.sends[i] == Send(r.sockets[uid], m)
                        && forall j :: 0 <= j < |d.sends| && d.sends[j].to == r.sockets[uid] ==> j == i
  {
    var d := Broadcast(r, m, faults);
    var i :| 0 <= i < |r.order| && r.order[i] == uid;
    assert |d.sends| == |r.order|;
    forall j | 0 <= j < |d.sends| && d.sends[j].to == r.sockets[uid] ensures j == i {
      assert r.sockets[r.order[j]] == r.sockets[uid];
      assert r.order[j] in r.sockets;
    }
  }
}
