/** The client side of the subscription protocol (lib/websocket.cpp, include/websocket.hpp). */
module Session {
  import opened Wrappers

  /** A std::function given by the user, by handle; None is the empty one. */
  type Callback = Option<nat>

  const ID_LIMIT: nat := 0x1_0000_0000_0000_0000

  /** RequestContent; wsId has no meaning until the request is subscribed. */
  datatype Request = Request(id: nat, cb: Callback, onSubscribe: Callback, onUnsubscribe: Callback, subscribed: bool, wsId: nat)

  /** What the client writes: the request id, and the subscription to end. */
  datatype ClientMessage = SubscribeRequest(id: nat) | UnsubscribeRequest(id: nat, wsId: nat)

  /** What the client reads, by the fields that it looks at. */
  datatype ServerMessage =
    | Confirmed(id: nat, wsId: nat)         // a result that is a number
    | Unsubscribed(id: nat, result: bool)   // a result that is a boolean
    | Notification(wsId: nat, payload: nat)
    | Other                                 // neither a result nor a subscription

  /** Calls into user code. */
  datatype Event =
    | SubscribedCall(id: nat, cb: nat)
    | UnsubscribedCall(id: nat, cb: nat)
    | NotifiedCall(cb: nat, wsId: nat, payload: nat)

  datatype Client = Client(callbacks: map<nat, Request>, wsids: map<nat, nat>)

  /** id + 1 and id - 1 on unsigned long */
  function Next64(id: nat): nat {
    (id + 1) % 0x1_0000_0000_0000_0000
  }

  function Previous64(id: nat): nat {
    if id == 0 then ID_LIMIT - 1 else id - 1
  }

  /** The conversion of an id to int, and of an int to an id. */
  function AsInt(id: nat): (i: int) {
    var low := id % 0x1_0000_0000;
    if low < 0x8000_0000 then low else low - 0x1_0000_0000
  }

  function AsId(i: int): (id: nat) {
    i % 0x1_0000_0000_0000_0000
  }

  /** An id that was handed out as an int names its request exactly when it is below 2^31, or within 2^31 of the limit. */
  lemma IdSurvivesInt(id: nat)
    requires id < ID_LIMIT
    ensures AsId(AsInt(id)) == id <==> id < 0x8000_0000 || id >= ID_LIMIT - 0x8000_0000
  {
    var high, low := id / 0x1_0000_0000, id % 0x1_0000_0000;
    assert id == high * 0x1_0000_0000 + low && high < 0x1_0000_0000;
    if low < 0x8000_0000 {
      assert AsId(AsInt(id)) == low;
    } else {
      assert AsId(AsInt(id)) == ID_LIMIT - 0x1_0000_0000 + low;
    }
  }

  // ----- The methods of the session as functions of the two maps -----

  function Subscribing(c: Client, req: Request): Client {
    c.(callbacks := c.callbacks[req.id := req])
  }

  function Unsubscribing(c: Client, id: nat): Client {
    if id in c.callbacks then c.(wsids := c.wsids - {c.callbacks[id].wsId}) else c
  }

  function UnsubscribeMessages(c: Client, id: nat): seq<ClientMessage> {
    if id in c.callbacks then [UnsubscribeRequest(Next64(id), c.callbacks[id].wsId)] else []
  }

  function Reading(c: Client, msg: ServerMessage): Client {
    match msg
    case Confirmed(id, wsId) =>
      if id in c.callbacks then
        Client(c.callbacks[id := c.callbacks[id].(subscribed := true, wsId := wsId)], c.wsids[wsId := id])
      else c
    case Unsubscribed(id, _) => c.(callbacks := c.callbacks - {Previous64(id)})
    case Notification(_, _) => c
    case Other => c
  }

  /** The callback that a notification for a subscription reaches. */
  function CallbackFor(c: Client, wsId: nat): Callback {
    if wsId in c.wsids && c.wsids[wsId] in c.callbacks then c.callbacks[c.wsids[wsId]].cb else None
  }

  function ReadingCalls(c: Client, msg: ServerMessage): seq<Event> {
    match msg
    case Confirmed(id, _) =>
      if id in c.callbacks && c.callbacks[id].onSubscribe.Some? then [SubscribedCall(id, c.callbacks[id].onSubscribe.value)] else []
    case Unsubscribed(uid, _) =>
      var id := Previous64(uid);
      if id in c.callbacks && c.callbacks[id].onUnsubscribe.Some? then [UnsubscribedCall(id, c.callbacks[id].onUnsubscribe.value)] else []
    case Notification(wsId, payload) =>
      var cb := CallbackFor(c, wsId);
      if cb.Some? then [NotifiedCall(cb.value, wsId, payload)] else []
    case Other => []
  }

  /** The session object.  What it writes to the socket and calls in user code is recorded in order. */
  class Session {
    var callback_map: map<nat, Request>
    var maps_wsid_to_id: map<nat, nat>
    var is_connected: bool
    var written: seq<ClientMessage>
    var calls: seq<Event>

    ghost function State(): Client
      reads this
    {
      Client(callback_map, maps_wsid_to_id)
    }

    constructor ()
      ensures State() == Client(map[], map[]) && !is_connected && written == [] && calls == []
    {
      callback_map := map[];
      maps_wsid_to_id := map[];
      is_connected := false;
      written := [];
      calls := [];
    }

    method OnHandshake()
      modifies this`is_connected
      ensures is_connected
    {
      is_connected := true;
    }

    method Disconnect()
      modifies this`is_connected
      ensures !is_connected
    {
      is_connected := false;
    }

    method Subscribe(req: Request)
      modifies this`callback_map, this`written
      ensures State() == Subscribing(old(State()), req)
      ensures written == old(written) + [SubscribeRequest(req.id)]
    {
      callback_map := callback_map[req.id := req];
      written := written + [SubscribeRequest(req.id)];
    }

    method Unsubscribe(id: nat)
      modifies this`maps_wsid_to_id, this`written
      ensures State() == Unsubscribing(old(State()), id)
      ensures written == old(written) + UnsubscribeMessages(old(State()), id)
    {
      if id !in callback_map {
        return;
      }
      var req := callback_map[id];
      maps_wsid_to_id := maps_wsid_to_id - {req.wsId};
      written := written + [UnsubscribeRequest(Next64(id), req.wsId)];
    }

    /** on_read without a read error */
    method OnRead(msg: ServerMessage)
      modifies this`callback_map, this`maps_wsid_to_id, this`calls
      ensures !is_connected ==> State() == old(State()) && calls == old(calls)
      ensures is_connected ==> State() == Reading(old(State()), msg)
      ensures is_connected ==> calls == old(calls) + ReadingCalls(old(State()), msg)
    {
      if !is_connected {
        return;
      }
      match msg {
        case Unsubscribed(uid, _) =>
          var onUnsubscribe: Callback := None;
          var id := Previous64(uid);
          if id in callback_map {
            onUnsubscribe := callback_map[id].onUnsubscribe;
            callback_map := callback_map - {id};
          }
          assert State() == Reading(old(State()), msg);
          if onUnsubscribe.Some? {
            calls := calls + [UnsubscribedCall(id, onUnsubscribe.value)];
          }
        case Confirmed(id, wsId) =>
          var onSubscribe: Callback := None;
          if id in callback_map {
            onSubscribe := callback_map[id].onSubscribe;
            callback_map := callback_map[id := callback_map[id].(subscribed := true, wsId := wsId)];
            maps_wsid_to_id := maps_wsid_to_id[wsId := id];
          }
          if onSubscribe.Some? {
            calls := calls + [SubscribedCall(id, onSubscribe.value)];
          }
        case Notification(wsId, payload) =>
          var cb := GetCallback(wsId);
          if cb.Some? {
            calls := calls + [NotifiedCall(cb.value, wsId, payload)];
          }
        case Other =>
      }
    }

    method GetCallback(wsId: nat) returns (cb: Callback)
      ensures cb == CallbackFor(State(), wsId)
    {
      if wsId !in maps_wsid_to_id {
        return None;
      }
      var id := maps_wsid_to_id[wsId];
      if id !in callback_map {
        return None;
      }
      return callback_map[id].cb;
    }
  }

  /** WebSocketSubscriber: hands out even request ids, so that id + 1 is free for the unsubscription. */
  class Subscriber {
    const sess: Session
    var curr_id: nat

    constructor (sess: Session)
      ensures this.sess == sess && curr_id == 0
    {
      this.sess := sess;
      curr_id := 0;
    }

    /** onAccountChange; unset is what the uninitialised ws_id happens to hold */
    method OnAccountChange(cb: Callback, onSubscribe: Callback, onUnsubscribe: Callback, unset: nat) returns (subId: int)
      requires curr_id < ID_LIMIT
      modifies this`curr_id, sess`callback_map, sess`written
      ensures subId == AsInt(old(curr_id)) && curr_id == (old(curr_id) + 2) % 0x1_0000_0000_0000_0000
      ensures sess.State() == Subscribing(old(sess.State()), Request(old(curr_id), cb, onSubscribe, onUnsubscribe, false, unset))
      ensures sess.written == old(sess.written) + [SubscribeRequest(old(curr_id))]
    {
      var req := Request(curr_id, cb, onSubscribe, onUnsubscribe, false, unset);
      sess.Subscribe(req);
      curr_id := (curr_id + 2) % 0x1_0000_0000_0000_0000;
      return AsInt(req.id);
    }

    method RemoveAccountChangeListener(subId: int)
      modifies sess`maps_wsid_to_id, sess`written
      ensures sess.State() == Unsubscribing(old(sess.State()), AsId(subId))
      ensures sess.written == old(sess.written) + UnsubscribeMessages(old(sess.State()), AsId(subId))
    {
      sess.Unsubscribe(AsId(subId));
    }
  }
}
