/**
  Runs of a client against a server.  The client subscribes and unsubscribes at will,
  but unsubscribes a request only once its subscription is confirmed.  The server answers
  each message at most once, gives every subscription an id of its own, and may send
  any notification at any time.  Messages may overtake each other in both directions.
 */
module SessionRuns {
  import opened Session
  import opened Wrappers

  datatype Step =
    | Subscribe(cb: Callback, onSubscribe: Callback, onUnsubscribe: Callback, unset: nat)
    | Unsubscribe(id: nat)
    | Accept(id: nat, wsId: nat)                // the server confirms a subscription
    | End(id: nat, wsId: nat, result: bool)     // the server answers an unsubscription
    | Refuse(request: ClientMessage)                // the server answers with an error
    | Notify(wsId: nat, payload: nat)
    | Read(msg: ServerMessage)

  /**
    The maps of the client, the next request id, the messages under way, the calls
    made, and the history: requests made, subscriptions given out by the server,
    confirmations read, and requests unsubscribed.
   */
  datatype State = State(
    client: Client,
    nextId: nat,
    toServer: multiset<ClientMessage>,
    toClient: multiset<ServerMessage>,
    calls: seq<Event>,
    requested: map<nat, Request>,
    given: map<nat, nat>,
    confirmed: map<nat, nat>,
    unsubscribed: set<nat>)

  const INITIAL: State := State(Client(map[], map[]), 0, multiset{}, multiset{}, [], map[], map[], map[], {})

  predicate Enabled(s: State, step: Step) {
    match step
    case Subscribe(_, _, _, _) => s.nextId + 2 < ID_LIMIT
    case Unsubscribe(id) => id in s.confirmed
    case Accept(id, wsId) => SubscribeRequest(id) in s.toServer && wsId !in s.given.Values
    case End(id, wsId, _) => UnsubscribeRequest(id, wsId) in s.toServer
    case Refuse(msg) => msg in s.toServer
    case Notify(_, _) => true
    case Read(msg) => msg in s.toClient
  }

  /** The request that a step makes. */
  function RequestOf(s: State, step: Step): Request
    requires step.Subscribe?
  {
    Request(s.nextId, step.cb, step.onSubscribe, step.onUnsubscribe, false, step.unset)
  }

  function Next(s: State, step: Step): State {
    match step
    case Subscribe(_, _, _, _) =>
      var req := RequestOf(s, step);
      s.(client := Subscribing(s.client, req), nextId := s.nextId + 2,
         toServer := s.toServer + multiset{SubscribeRequest(s.nextId)}, requested := s.requested[s.nextId := req])
    case Unsubscribe(id) =>
      s.(client := Unsubscribing(s.client, id), toServer := s.toServer + multiset(UnsubscribeMessages(s.client, id)),
         unsubscribed := s.unsubscribed + {id})
    case Accept(id, wsId) =>
      s.(toServer := s.toServer - multiset{SubscribeRequest(id)}, toClient := s.toClient + multiset{Confirmed(id, wsId)},
         given := s.given[id := wsId])
    case End(id, wsId, result) =>
      s.(toServer := s.toServer - multiset{UnsubscribeRequest(id, wsId)},
         toClient := s.toClient + multiset{Unsubscribed(id, result)})
    case Refuse(msg) =>
      s.(toServer := s.toServer - multiset{msg}, toClient := s.toClient + multiset{Other})
    case Notify(wsId, payload) =>
      s.(toClient := s.toClient + multiset{Notification(wsId, payload)})
    case Read(msg) =>
      s.(client := Reading(s.client, msg), toClient := s.toClient - multiset{msg},
         calls := s.calls + ReadingCalls(s.client, msg),
         confirmed := if msg.Confirmed? then s.confirmed[msg.id := msg.wsId] else s.confirmed)
  }

  // ----- Invariant -----

  /** Request ids are even and below the next one. */
  ghost predicate IdsInv(s: State) {
    && s.nextId % 2 == 0 && s.nextId < ID_LIMIT
    && (forall id :: id in s.requested ==> id % 2 == 0 && id < s.nextId)
    && s.confirmed.Keys <= s.given.Keys <= s.requested.Keys
    && s.unsubscribed <= s.confirmed.Keys
    && (forall id :: id in s.confirmed ==> s.confirmed[id] == s.given[id])
    && (forall i, j :: i in s.given && j in s.given && s.given[i] == s.given[j] ==> i == j)
  }

  /** Every message under way is one of a kind that the history accounts for. */
  ghost predicate MessagesInv(s: State) {
    && (forall id :: SubscribeRequest(id) in s.toServer ==>
          s.toServer[SubscribeRequest(id)] == 1 && id in s.requested && id !in s.given)
    && (forall uid: nat, wsId: nat :: UnsubscribeRequest(uid, wsId) in s.toServer ==> uid > 0 && uid - 1 in s.unsubscribed)
    && (forall id: nat, wsId: nat :: Confirmed(id, wsId) in s.toClient ==>
          s.toClient[Confirmed(id, wsId)] == 1 && id in s.given && s.given[id] == wsId && id !in s.confirmed)
    && (forall uid: nat, result :: Unsubscribed(uid, result) in s.toClient ==> uid > 0 && uid - 1 in s.unsubscribed)
  }

  /** callback_map holds the requests that were not unsubscribed, as far as they are confirmed. */
  ghost predicate CallbacksInv(s: State) {
    && (forall id :: id in s.client.callbacks ==>
          id in s.requested && Agrees(s.confirmed, s.client.callbacks[id], s.requested[id]))
    && (forall id :: id in s.requested && id !in s.client.callbacks ==> id in s.unsubscribed)
  }

  /** maps_wsid_to_id holds exactly the live subscriptions. */
  ghost predicate WsIdsInv(s: State) {
    && (forall wsId :: wsId in s.client.wsids ==> Live(s.confirmed, s.unsubscribed, s.client.wsids[wsId], wsId))
    && (forall id: nat, wsId: nat :: Live(s.confirmed, s.unsubscribed, id, wsId) ==>
          wsId in s.client.wsids && s.client.wsids[wsId] == id)
  }

  /** The maps of the client agree with the history. */
  ghost predicate ClientInv(s: State) {
    CallbacksInv(s) && WsIdsInv(s)
  }

  /** Request id was confirmed as subscription wsId to the client and has not been unsubscribed since. */
  ghost predicate Live(confirmed: map<nat, nat>, unsubscribed: set<nat>, id: nat, wsId: nat) {
    id in confirmed && confirmed[id] == wsId && id !in unsubscribed
  }

  ghost predicate Agrees(confirmed: map<nat, nat>, now: Request, was: Request) {
    && now.id == was.id && now.cb == was.cb && now.onSubscribe == was.onSubscribe && now.onUnsubscribe == was.onUnsubscribe
    && (now.subscribed <==> was.id in confirmed)
    && (now.subscribed ==> now.wsId == confirmed[was.id])
  }

  /** The calls made so far. */
  ghost predicate CallsInv(s: State) {
    && (forall k :: 0 <= k < |s.calls| ==> CallAccounted(s, s.calls[k]))
    && (forall j, k :: 0 <= j < k < |s.calls| && !s.calls[j].NotifiedCall? ==> s.calls[j] != s.calls[k])
  }

  /** A call about a subscription or its end follows a confirmation or an unsubscription of its request. */
  ghost predicate CallAccounted(s: State, e: Event) {
    match e
    case SubscribedCall(id, cb) => id in s.confirmed && id in s.requested && s.requested[id].onSubscribe == Some(cb)
    case UnsubscribedCall(id, cb) =>
      id in s.unsubscribed && id !in s.client.callbacks && id in s.requested && s.requested[id].onUnsubscribe == Some(cb)
    case NotifiedCall(_, _, _) => true
  }

  ghost predicate RequestIdsInv(s: State) {
    forall id :: id in s.requested ==> s.requested[id].id == id
  }

  ghost predicate Inv(s: State) {
    IdsInv(s) && RequestIdsInv(s) && MessagesInv(s) && ClientInv(s) && CallsInv(s)
  }

  /** An even id below the limit has an odd successor that is no request id. */
  lemma EvenSuccessor(id: nat, bound: nat)
    requires id % 2 == 0 && id < bound < ID_LIMIT
    ensures Next64(id) == id + 1 && Previous64(id + 1) == id && (id + 1) % 2 == 1
  {
  }

  lemma NextEven(id: nat)
    requires id % 2 == 0
    ensures (id + 2) % 2 == 0
  {
  }

  lemma SubscribeKeepsIds(s: State, step: Step)
    requires IdsInv(s) && RequestIdsInv(s) && step.Subscribe? && Enabled(s, step)
    ensures IdsInv(Next(s, step)) && RequestIdsInv(Next(s, step))
  {
    NextEven(s.nextId);
  }

  lemma SubscribeKeepsMessages(s: State, step: Step)
    requires IdsInv(s) && MessagesInv(s) && step.Subscribe? && Enabled(s, step)
    ensures MessagesInv(Next(s, step))
  {
  }

  lemma SubscribeKeepsClient(s: State, step: Step)
    requires IdsInv(s) && RequestIdsInv(s) && ClientInv(s) && step.Subscribe? && Enabled(s, step)
    ensures ClientInv(Next(s, step))
  {
  }

  lemma SubscribeKeepsCalls(s: State, step: Step)
    requires IdsInv(s) && ClientInv(s) && CallsInv(s) && step.Subscribe? && Enabled(s, step)
    ensures CallsInv(Next(s, step))
  {
  }

  lemma UnsubscribeKeepsIds(s: State, step: Step)
    requires IdsInv(s) && RequestIdsInv(s) && step.Unsubscribe? && Enabled(s, step)
    ensures IdsInv(Next(s, step)) && RequestIdsInv(Next(s, step))
  {
    hide UnsubscribeMessages, Unsubscribing;
  }

  lemma UnsubscribeKeepsMessages(s: State, step: Step)
    requires IdsInv(s) && MessagesInv(s) && step.Unsubscribe? && Enabled(s, step)
    ensures MessagesInv(Next(s, step))
  {
    hide Next64;
    EvenSuccessor(step.id, s.nextId);
  }

  lemma UnsubscribeKeepsClient(s: State, step: Step)
    requires IdsInv(s) && RequestIdsInv(s) && ClientInv(s) && step.Unsubscribe? && Enabled(s, step)
    ensures ClientInv(Next(s, step))
  {
    hide UnsubscribeMessages;
    var t := Next(s, step);
    forall id: nat, wsId: nat | Live(t.confirmed, t.unsubscribed, id, wsId)
      ensures wsId in t.client.wsids && t.client.wsids[wsId] == id
    {
      assert Live(s.confirmed, s.unsubscribed, id, wsId);
      if step.id in s.client.callbacks {
        assert s.client.callbacks[step.id].wsId == s.given[step.id];
      }
    }
  }

  lemma UnsubscribeKeepsCalls(s: State, step: Step)
    requires IdsInv(s) && ClientInv(s) && CallsInv(s) && step.Unsubscribe? && Enabled(s, step)
    ensures CallsInv(Next(s, step))
  {
    hide UnsubscribeMessages;
  }

  predicate ByServer(step: Step) {
    step.Accept? || step.End? || step.Refuse? || step.Notify?
  }

  lemma ServerKeepsIds(s: State, step: Step)
    requires IdsInv(s) && RequestIdsInv(s) && MessagesInv(s) && ByServer(step) && Enabled(s, step)
    ensures IdsInv(Next(s, step)) && RequestIdsInv(Next(s, step))
  {
  }

  lemma AcceptKeepsMessages(s: State, step: Step)
    requires IdsInv(s) && MessagesInv(s) && step.Accept? && Enabled(s, step)
    ensures MessagesInv(Next(s, step))
  {
    assert Confirmed(step.id, step.wsId) !in s.toClient;
  }

  lemma EndKeepsMessages(s: State, step: Step)
    requires IdsInv(s) && MessagesInv(s) && step.End? && Enabled(s, step)
    ensures MessagesInv(Next(s, step))
  {
  }

  lemma RefuseKeepsMessages(s: State, step: Step)
    requires MessagesInv(s) && (step.Refuse? || step.Notify?) && Enabled(s, step)
    ensures MessagesInv(Next(s, step))
  {
  }

  lemma ReadKeepsIds(s: State, step: Step)
    requires IdsInv(s) && RequestIdsInv(s) && MessagesInv(s) && step.Read? && Enabled(s, step)
    ensures IdsInv(Next(s, step)) && RequestIdsInv(Next(s, step))
  {
    hide Reading, ReadingCalls;
  }

  lemma ReadKeepsMessages(s: State, step: Step)
    requires IdsInv(s) && MessagesInv(s) && step.Read? && Enabled(s, step)
    ensures MessagesInv(Next(s, step))
  {
    hide Reading, ReadingCalls;
  }

  /** A confirmation is of a request that the client still holds and that is in no map yet. */
  lemma ConfirmationIsNew(s: State, id: nat, wsId: nat)
    requires IdsInv(s) && RequestIdsInv(s) && MessagesInv(s) && ClientInv(s) && Confirmed(id, wsId) in s.toClient
    ensures id in s.client.callbacks && id in s.requested && id !in s.confirmed && id !in s.unsubscribed
    ensures wsId !in s.client.wsids && wsId !in s.confirmed.Values
  {
  }

  lemma ConfirmedKeepsWsIds(s: State, step: Step)
    requires WsIdsInv(s) && step.Read? && step.msg.Confirmed? && Enabled(s, step)
    requires var id := step.msg.id; id in s.client.callbacks && id !in s.confirmed && id !in s.unsubscribed
    requires step.msg.wsId !in s.client.wsids
    ensures WsIdsInv(Next(s, step))
  {
    hide ReadingCalls;
    var t, id, wsId := Next(s, step), step.msg.id, step.msg.wsId;
    forall i: nat, w: nat | Live(t.confirmed, t.unsubscribed, i, w) ensures w in t.client.wsids && t.client.wsids[w] == i {
      if i != id {
        assert Live(s.confirmed, s.unsubscribed, i, w);
      }
    }
    forall w | w in t.client.wsids ensures Live(t.confirmed, t.unsubscribed, t.client.wsids[w], w) {
      if w != wsId {
        assert Live(s.confirmed, s.unsubscribed, s.client.wsids[w], w);
      }
    }
  }

  lemma ConfirmedKeepsCallbacks(s: State, step: Step)
    requires CallbacksInv(s) && RequestIdsInv(s) && step.Read? && step.msg.Confirmed? && Enabled(s, step)
    ensures CallbacksInv(Next(s, step))
  {
    hide ReadingCalls;
    var t := Next(s, step);
    forall i | i in t.client.callbacks ensures i in t.requested && Agrees(t.confirmed, t.client.callbacks[i], t.requested[i]) {
      assert Agrees(s.confirmed, s.client.callbacks[i], s.requested[i]);
    }
  }

  lemma ConfirmedKeepsClient(s: State, step: Step)
    requires IdsInv(s) && RequestIdsInv(s) && MessagesInv(s) && ClientInv(s)
    requires step.Read? && step.msg.Confirmed? && Enabled(s, step)
    ensures ClientInv(Next(s, step))
  {
    hide ReadingCalls, Reading, MessagesInv, IdsInv, CallbacksInv, WsIdsInv;
    ConfirmationIsNew(s, step.msg.id, step.msg.wsId);
    ConfirmedKeepsCallbacks(s, step);
    ConfirmedKeepsWsIds(s, step);
  }

  lemma ConfirmedKeepsCalls(s: State, step: Step)
    requires IdsInv(s) && MessagesInv(s) && ClientInv(s) && CallsInv(s) && RequestIdsInv(s)
    requires step.Read? && step.msg.Confirmed? && Enabled(s, step)
    ensures CallsInv(Next(s, step))
  {
    hide MessagesInv, IdsInv;
    ConfirmationIsNew(s, step.msg.id, step.msg.wsId);
    var t := Next(s, step);
    assert forall k :: 0 <= k < |s.calls| ==> CallAccounted(t, s.calls[k]) by {
      forall k | 0 <= k < |s.calls| ensures CallAccounted(t, s.calls[k]) {
        assert CallAccounted(s, s.calls[k]);
      }
    }
  }

  lemma UnsubscribedKeepsClient(s: State, step: Step)
    requires IdsInv(s) && RequestIdsInv(s) && MessagesInv(s) && ClientInv(s)
    requires step.Read? && step.msg.Unsubscribed? && Enabled(s, step)
    ensures ClientInv(Next(s, step))
  {
    hide ReadingCalls;
  }

  lemma UnsubscribedKeepsCalls(s: State, step: Step)
    requires IdsInv(s) && MessagesInv(s) && ClientInv(s) && CallsInv(s) && RequestIdsInv(s)
    requires step.Read? && step.msg.Unsubscribed? && Enabled(s, step)
    ensures CallsInv(Next(s, step))
  {
    hide IdsInv, Previous64;
    var t := Next(s, step);
    assert step.msg.id > 0 && step.msg.id - 1 in s.unsubscribed;
    OddPredecessor(step.msg.id);
    hide MessagesInv;
    assert forall k :: 0 <= k < |s.calls| ==> CallAccounted(t, s.calls[k]) by {
      forall k | 0 <= k < |s.calls| ensures CallAccounted(t, s.calls[k]) {
        assert CallAccounted(s, s.calls[k]);
      }
    }
  }

  lemma OddPredecessor(uid: nat)
    requires uid > 0
    ensures Previous64(uid) == uid - 1
  {
  }

  lemma SameClient(s: State, t: State)
    requires ClientInv(s) && t.client == s.client && t.requested == s.requested
    requires t.confirmed == s.confirmed && t.unsubscribed == s.unsubscribed
    ensures ClientInv(t)
  {
  }

  lemma SameCalls(s: State, t: State)
    requires CallsInv(s) && t.client == s.client && t.requested == s.requested && t.calls == s.calls
    requires t.confirmed == s.confirmed && t.unsubscribed == s.unsubscribed
    ensures CallsInv(t)
  {
  }

  lemma NotificationKeepsCalls(s: State, step: Step)
    requires CallsInv(s) && step.Read? && (step.msg.Notification? || step.msg.Other?) && Enabled(s, step)
    ensures CallsInv(Next(s, step))
  {
  }

  lemma StepKeepsInv(s: State, step: Step)
    requires Inv(s) && Enabled(s, step)
    ensures Inv(Next(s, step))
  {
    hide IdsInv, RequestIdsInv, MessagesInv, ClientInv, CallsInv;
    match step {
      case Subscribe(_, _, _, _) =>
        SubscribeKeepsIds(s, step);
        SubscribeKeepsMessages(s, step);
        SubscribeKeepsClient(s, step);
        SubscribeKeepsCalls(s, step);
      case Unsubscribe(_) =>
        UnsubscribeKeepsIds(s, step);
        UnsubscribeKeepsMessages(s, step);
        UnsubscribeKeepsClient(s, step);
        UnsubscribeKeepsCalls(s, step);
      case Read(msg) =>
        ReadKeepsIds(s, step);
        ReadKeepsMessages(s, step);
        if msg.Confirmed? {
          ConfirmedKeepsClient(s, step);
          ConfirmedKeepsCalls(s, step);
        } else if msg.Unsubscribed? {
          UnsubscribedKeepsClient(s, step);
          UnsubscribedKeepsCalls(s, step);
        } else {
          SameClient(s, Next(s, step));
          NotificationKeepsCalls(s, step);
        }
      case _ =>
        ServerKeepsIds(s, step);
        if step.Accept? {
          AcceptKeepsMessages(s, step);
        } else if step.End? {
          EndKeepsMessages(s, step);
        } else {
          RefuseKeepsMessages(s, step);
        }
        SameClient(s, Next(s, step));
        SameCalls(s, Next(s, step));
    }
  }

  // ----- Runs -----

  ghost predicate IsRun(states: seq<State>, steps: seq<Step>) {
    && |states| == |steps| + 1 && states[0] == INITIAL
    && (forall i :: 0 <= i < |steps| ==> Enabled(states[i], steps[i]) && states[i + 1] == Next(states[i], steps[i]))
  }

  lemma {:induction false} RunKeepsInv(states: seq<State>, steps: seq<Step>, n: nat)
    requires IsRun(states, steps) && n < |states|
    ensures Inv(states[n])
  {
    if n > 0 {
      RunKeepsInv(states, steps, n - 1);
      StepKeepsInv(states[n - 1], steps[n - 1]);
    }
  }

  /** Among the first n steps, the client read the confirmation of request id as subscription wsId. */
  ghost predicate ConfirmedBefore(steps: seq<Step>, n: nat, id: nat, wsId: nat)
    requires n <= |steps|
  {
    exists i :: 0 <= i < n && steps[i] == Read(Confirmed(id, wsId))
  }

  /** Among the first n steps, the client unsubscribed request id. */
  ghost predicate UnsubscribedBefore(steps: seq<Step>, n: nat, id: nat)
    requires n <= |steps|
  {
    exists i :: 0 <= i < n && steps[i] == Unsubscribe(id)
  }

  /** Among the first n steps, request id was made with the callback cb. */
  ghost predicate RequestedBefore(states: seq<State>, steps: seq<Step>, n: nat, id: nat, cb: Callback)
    requires n <= |steps| < |states|
  {
    exists i :: 0 <= i < n && steps[i].Subscribe? && states[i].nextId == id && steps[i].cb == cb
  }

  /** The history of a state is what the steps before it say. */
  lemma {:induction false} HistoryIsTrace(states: seq<State>, steps: seq<Step>, n: nat, id: nat, wsId: nat, cb: Callback)
    requires IsRun(states, steps) && n <= |steps|
    ensures id in states[n].confirmed && states[n].confirmed[id] == wsId <==> ConfirmedBefore(steps, n, id, wsId)
    ensures id in states[n].unsubscribed <==> UnsubscribedBefore(steps, n, id)
    ensures id in states[n].requested && states[n].requested[id].cb == cb <==> RequestedBefore(states, steps, n, id, cb)
  {
    if n > 0 {
      hide Inv, Enabled, Next, OverwritesNothing, ConfirmedBefore, UnsubscribedBefore, RequestedBefore;
      HistoryIsTrace(states, steps, n - 1, id, wsId, cb);
      RunKeepsInv(states, steps, n - 1);
      NothingIsOverwritten(states[n - 1], steps[n - 1]);
      HistoryStep(states[n - 1], steps[n - 1], id, wsId, cb);
      TraceStep(states, steps, n - 1, id, wsId, cb);
    } else {
      NoTrace(states, steps, id, wsId, cb);
    }
  }

  lemma NoTrace(states: seq<State>, steps: seq<Step>, id: nat, wsId: nat, cb: Callback)
    requires |states| == |steps| + 1
    ensures !ConfirmedBefore(steps, 0, id, wsId) && !UnsubscribedBefore(steps, 0, id)
    ensures !RequestedBefore(states, steps, 0, id, cb)
  {
  }

  lemma TraceStep(states: seq<State>, steps: seq<Step>, n: nat, id: nat, wsId: nat, cb: Callback)
    requires n < |steps| < |states|
    ensures ConfirmedBefore(steps, n + 1, id, wsId) <==>
            ConfirmedBefore(steps, n, id, wsId) || steps[n] == Read(Confirmed(id, wsId))
    ensures UnsubscribedBefore(steps, n + 1, id) <==> UnsubscribedBefore(steps, n, id) || steps[n] == Unsubscribe(id)
    ensures RequestedBefore(states, steps, n + 1, id, cb) <==>
            RequestedBefore(states, steps, n, id, cb) || (steps[n].Subscribe? && states[n].nextId == id && steps[n].cb == cb)
  {
    hide Next, Enabled;
  }

  /** The step makes a request or reads a confirmation for an id that had none. */
  ghost predicate OverwritesNothing(s: State, step: Step) {
    (step.Subscribe? ==> s.nextId !in s.requested)
    && (step.Read? && step.msg.Confirmed? ==> step.msg.id !in s.confirmed)
  }

  lemma NothingIsOverwritten(s: State, step: Step)
    requires Inv(s) && Enabled(s, step)
    ensures OverwritesNothing(s, step)
  {
    hide ClientInv, CallsInv;
  }

  /** A step adds what it says to the history. */
  lemma HistoryStep(s: State, step: Step, id: nat, wsId: nat, cb: Callback)
    requires Enabled(s, step) && OverwritesNothing(s, step)
    ensures var t := Next(s, step);
            && (id in t.confirmed && t.confirmed[id] == wsId <==>
                (id in s.confirmed && s.confirmed[id] == wsId) || step == Read(Confirmed(id, wsId)))
            && (id in t.unsubscribed <==> id in s.unsubscribed || step == Unsubscribe(id))
            && (id in t.requested && t.requested[id].cb == cb <==>
                (id in s.requested && s.requested[id].cb == cb) || (step.Subscribe? && s.nextId == id && step.cb == cb))
  {
    hide Reading, ReadingCalls, Unsubscribing, Subscribing, UnsubscribeMessages;
    match step {
      case Subscribe(_, _, _, _) =>
      case Unsubscribe(_) =>
      case Accept(_, _) =>
      case End(_, _, _) =>
      case Refuse(_) =>
      case Notify(_, _) =>
      case Read(_) =>
    }
  }

  /**
    A notification for wsId that is read after n steps calls the callback cb exactly
    when some request with that callback was confirmed as wsId and not unsubscribed
    before, and otherwise calls nothing.
   */
  lemma NotificationReachesItsRequest(states: seq<State>, steps: seq<Step>, n: nat, wsId: nat, payload: nat)
    requires IsRun(states, steps) && n < |steps| && steps[n] == Read(Notification(wsId, payload))
    ensures var calls := states[n + 1].calls[|states[n].calls|..];
            && states[n].calls <= states[n + 1].calls
            && (calls == [] || exists cb :: calls == [NotifiedCall(cb, wsId, payload)])
            && forall cb :: calls == [NotifiedCall(cb, wsId, payload)] <==>
                 exists id :: ConfirmedBefore(steps, n, id, wsId) && !UnsubscribedBefore(steps, n, id)
                              && RequestedBefore(states, steps, n, id, Some(cb))
  {
    hide Inv, Enabled, ConfirmedBefore, UnsubscribedBefore, RequestedBefore;
    var s, t := states[n], states[n + 1];
    assert t == Next(s, steps[n]);
    var calls := t.calls[|s.calls|..];
    assert calls == ReadingCalls(s.client, Notification(wsId, payload));
    RunKeepsInv(states, steps, n);
    forall cb: nat ensures calls == [NotifiedCall(cb, wsId, payload)] <==> CallbackFor(s.client, wsId) == Some(cb) {
      if CallbackFor(s.client, wsId).Some? {
        assert calls[0] == NotifiedCall(CallbackFor(s.client, wsId).value, wsId, payload);
      }
    }
    forall cb: nat
      ensures CallbackFor(s.client, wsId) == Some(cb) <==>
              exists id :: ConfirmedBefore(steps, n, id, wsId) && !UnsubscribedBefore(steps, n, id)
                           && RequestedBefore(states, steps, n, id, Some(cb))
    {
      forall id: nat ensures
        Live(s.confirmed, s.unsubscribed, id, wsId) && id in s.requested && s.requested[id].cb == Some(cb) <==>
        ConfirmedBefore(steps, n, id, wsId) && !UnsubscribedBefore(steps, n, id) && RequestedBefore(states, steps, n, id, Some(cb))
      {
        HistoryIsTrace(states, steps, n, id, wsId, Some(cb));
      }
      CallbackIsLive(s, wsId, cb);
    }
  }

  lemma CallbackIsLive(s: State, wsId: nat, cb: nat)
    requires Inv(s)
    ensures CallbackFor(s.client, wsId) == Some(cb) <==>
            exists id :: Live(s.confirmed, s.unsubscribed, id, wsId) && id in s.requested && s.requested[id].cb == Some(cb)
  {
    hide MessagesInv, CallsInv;
    if CallbackFor(s.client, wsId) == Some(cb) {
      var id := s.client.wsids[wsId];
      assert Live(s.confirmed, s.unsubscribed, id, wsId);
    }
    if id :| Live(s.confirmed, s.unsubscribed, id, wsId) && id in s.requested && s.requested[id].cb == Some(cb) {
      assert s.client.wsids[wsId] == id;
    }
  }

  /** The client holds request id, subscribed as w. */
  predicate HoldsAs(c: Client, id: nat, w: nat) {
    id in c.callbacks && c.callbacks[id].subscribed && c.callbacks[id].wsId == w
  }

  /**
    In every state of a run the maps agree: an entry w -> id of maps_wsid_to_id has id in
    callback_map, subscribed as w, and no two entries share an id.  So a subscription
    that is found always has its request.
   */
  lemma MapsAreConsistent(states: seq<State>, steps: seq<Step>, n: nat)
    requires IsRun(states, steps) && n < |states|
    ensures var c := states[n].client;
            && (forall w :: w in c.wsids ==> HoldsAs(c, c.wsids[w], w))
            && (forall v, w :: v in c.wsids && w in c.wsids && c.wsids[v] == c.wsids[w] ==> v == w)
  {
    RunKeepsInv(states, steps, n);
    var s := states[n];
    forall w | w in s.client.wsids
      ensures HoldsAs(s.client, s.client.wsids[w], w)
    {
      WsIdIsHeld(s, w);
    }
  }

  lemma WsIdIsHeld(s: State, w: nat)
    requires Inv(s) && w in s.client.wsids
    ensures HoldsAs(s.client, s.client.wsids[w], w)
  {
    hide MessagesInv, CallsInv;
    assert Live(s.confirmed, s.unsubscribed, s.client.wsids[w], w);
  }

  /** Subscription requests and their confirmations have even ids, unsubscriptions and their answers odd ones. */
  lemma IdsNeverCollide(states: seq<State>, steps: seq<Step>, n: nat)
    requires IsRun(states, steps) && n < |states|
    ensures var s := states[n];
            && (forall id: nat :: SubscribeRequest(id) in s.toServer ==> id % 2 == 0)
            && (forall id: nat, wsId: nat :: Confirmed(id, wsId) in s.toClient ==> id % 2 == 0)
            && (forall uid: nat, wsId: nat :: UnsubscribeRequest(uid, wsId) in s.toServer ==> uid % 2 == 1)
            && (forall uid: nat, result :: Unsubscribed(uid, result) in s.toClient ==> uid % 2 == 1)
  {
    hide IdsInv, MessagesInv, ClientInv, CallsInv, Enabled;
    RunKeepsInv(states, steps, n);
    EvenIds(states[n]);
    OddIds(states[n]);
  }

  lemma EvenIds(s: State)
    requires IdsInv(s) && MessagesInv(s)
    ensures forall id: nat :: SubscribeRequest(id) in s.toServer ==> id % 2 == 0
    ensures forall id: nat, wsId: nat :: Confirmed(id, wsId) in s.toClient ==> id % 2 == 0
  {
  }

  lemma OddIds(s: State)
    requires IdsInv(s) && MessagesInv(s)
    ensures forall uid: nat, wsId: nat :: UnsubscribeRequest(uid, wsId) in s.toServer ==> uid % 2 == 1
    ensures forall uid: nat, result :: Unsubscribed(uid, result) in s.toClient ==> uid % 2 == 1
  {
    assert forall id: nat :: id in s.unsubscribed ==> id in s.requested;
    forall uid: nat, wsId: nat | UnsubscribeRequest(uid, wsId) in s.toServer ensures uid % 2 == 1 {
      OddSuccessor(uid);
    }
    forall uid: nat, result | Unsubscribed(uid, result) in s.toClient ensures uid % 2 == 1 {
      OddSuccessor(uid);
    }
  }

  lemma OddSuccessor(uid: nat)
    requires uid > 0 && (uid - 1) % 2 == 0
    ensures uid % 2 == 1
  {
  }

  /** Every request in the history was made by a step. */
  lemma {:induction false} RequestWasMade(states: seq<State>, steps: seq<Step>, n: nat, id: nat) returns (i: nat)
    requires IsRun(states, steps) && n <= |steps| && id in states[n].requested
    ensures i < n && steps[i].Subscribe? && states[i].nextId == id
    ensures states[n].requested[id] == RequestOf(states[i], steps[i])
  {
    hide Enabled, Next;
    RequestStep(states[n - 1], steps[n - 1], id);
    if steps[n - 1].Subscribe? && states[n - 1].nextId == id {
      i := n - 1;
    } else {
      i := RequestWasMade(states, steps, n - 1, id);
    }
  }

  lemma RequestStep(s: State, step: Step, id: nat)
    requires id in Next(s, step).requested
    ensures if step.Subscribe? && s.nextId == id then Next(s, step).requested[id] == RequestOf(s, step)
            else id in s.requested && Next(s, step).requested[id] == s.requested[id]
  {
    hide RequestOf, Subscribing, Unsubscribing, UnsubscribeMessages, Reading, ReadingCalls;
  }

  /** Among the first n steps, request id was made with that on_subscribe, or that on_unsubscribe. */
  ghost predicate OnSubscribeGiven(states: seq<State>, steps: seq<Step>, n: nat, id: nat, cb: nat)
    requires n <= |steps| < |states|
  {
    exists i :: 0 <= i < n && steps[i].Subscribe? && states[i].nextId == id && steps[i].onSubscribe == Some(cb)
  }

  ghost predicate OnUnsubscribeGiven(states: seq<State>, steps: seq<Step>, n: nat, id: nat, cb: nat)
    requires n <= |steps| < |states|
  {
    exists i :: 0 <= i < n && steps[i].Subscribe? && states[i].nextId == id && steps[i].onUnsubscribe == Some(cb)
  }

  /** Such a call is of the handle that the request was made with. */
  lemma CallsAreTheirs(states: seq<State>, steps: seq<Step>, n: nat, e: Event)
    requires IsRun(states, steps) && n <= |steps| && CallAccounted(states[n], e)
    ensures e.SubscribedCall? ==> OnSubscribeGiven(states, steps, n, e.id, e.cb)
    ensures e.UnsubscribedCall? ==> OnUnsubscribeGiven(states, steps, n, e.id, e.cb)
  {
    hide Enabled, Next, IsRun;
    if !e.NotifiedCall? {
      var i := RequestWasMade(states, steps, n, e.id);
    }
  }

  /**
    on_subscribe and on_unsubscribe are called at most once for a request, with the handle
    given for it; the first only after its confirmation, the second only after it was unsubscribed.
   */
  lemma CalledAtMostOnce(states: seq<State>, steps: seq<Step>, n: nat)
    requires IsRun(states, steps) && n <= |steps|
    ensures var calls := states[n].calls;
            && (forall j, k :: 0 <= j < k < |calls| && calls[j].UnsubscribedCall? && calls[k].UnsubscribedCall? ==>
                  calls[j].id != calls[k].id)
            && (forall j, k :: 0 <= j < k < |calls| && calls[j].SubscribedCall? && calls[k].SubscribedCall? ==>
                  calls[j].id != calls[k].id)
            && (forall k :: 0 <= k < |calls| && calls[k].UnsubscribedCall? ==> UnsubscribedBefore(steps, n, calls[k].id))
            && (forall k :: 0 <= k < |calls| && calls[k].SubscribedCall? ==>
                  exists wsId :: ConfirmedBefore(steps, n, calls[k].id, wsId))
            && (forall k :: 0 <= k < |calls| && calls[k].UnsubscribedCall? ==>
                  OnUnsubscribeGiven(states, steps, n, calls[k].id, calls[k].cb))
            && (forall k :: 0 <= k < |calls| && calls[k].SubscribedCall? ==>
                  OnSubscribeGiven(states, steps, n, calls[k].id, calls[k].cb))
  {
    hide ConfirmedBefore, UnsubscribedBefore, OnSubscribeGiven, OnUnsubscribeGiven, Enabled, Next, IdsInv, MessagesInv, ClientInv;
    RunKeepsInv(states, steps, n);
    var s := states[n];
    forall j, k | 0 <= j < k < |s.calls| && !s.calls[j].NotifiedCall? && !s.calls[k].NotifiedCall?
      && s.calls[j].SubscribedCall? == s.calls[k].SubscribedCall?
      ensures s.calls[j].id != s.calls[k].id
    {
      assert CallAccounted(s, s.calls[j]) && CallAccounted(s, s.calls[k]);
    }
    forall k | 0 <= k < |s.calls|
      ensures s.calls[k].SubscribedCall? ==> OnSubscribeGiven(states, steps, n, s.calls[k].id, s.calls[k].cb)
      ensures s.calls[k].UnsubscribedCall? ==> OnUnsubscribeGiven(states, steps, n, s.calls[k].id, s.calls[k].cb)
    {
      assert CallAccounted(s, s.calls[k]);
      CallsAreTheirs(states, steps, n, s.calls[k]);
    }
    forall k | 0 <= k < |s.calls| && s.calls[k].UnsubscribedCall? ensures UnsubscribedBefore(steps, n, s.calls[k].id) {
      assert CallAccounted(s, s.calls[k]);
      HistoryIsTrace(states, steps, n, s.calls[k].id, 0, None);
    }
    forall k | 0 <= k < |s.calls| && s.calls[k].SubscribedCall?
      ensures exists wsId :: ConfirmedBefore(steps, n, s.calls[k].id, wsId)
    {
      assert CallAccounted(s, s.calls[k]);
      HistoryIsTrace(states, steps, n, s.calls[k].id, s.confirmed[s.calls[k].id], None);
    }
  }

  // ----- Unsubscribing before the confirmation -----

  /** Unsubscribing request id leaves the subscriptions of all other requests alone. */
  ghost predicate KeepsOthers(c: Client, id: nat) {
    forall w :: w in c.wsids && c.wsids[w] != id ==>
      w in Unsubscribing(c, id).wsids && Unsubscribing(c, id).wsids[w] == c.wsids[w]
  }

  /** For arbitrary maps: ws_id must name a subscription of this request or none. */
  lemma KeepsOthersIff(c: Client, id: nat)
    requires id in c.callbacks
    ensures KeepsOthers(c, id) <==> (c.callbacks[id].wsId in c.wsids ==> c.wsids[c.callbacks[id].wsId] == id)
  {
  }

  lemma KeepsOthersInState(s: State, id: nat)
    requires Inv(s) && id in s.client.callbacks
    ensures KeepsOthers(s.client, id) <==>
            id in s.confirmed
            || forall other: nat :: !Live(s.confirmed, s.unsubscribed, other, s.client.callbacks[id].wsId)
  {
    hide MessagesInv, CallsInv;
    var c := s.client;
    var w := c.callbacks[id].wsId;
    KeepsOthersIff(c, id);
    assert Agrees(s.confirmed, c.callbacks[id], s.requested[id]);
    if w in c.wsids {
      assert Live(s.confirmed, s.unsubscribed, c.wsids[w], w);
    }
  }

  /**
    In every run a request can be unsubscribed without harm to other subscriptions exactly
    when its confirmation was read, or its ws_id, unset until then, names no subscription
    that is confirmed and not unsubscribed.
   */
  lemma EarlyUnsubscribe(states: seq<State>, steps: seq<Step>, n: nat, id: nat)
    requires IsRun(states, steps) && n <= |steps| && id in states[n].client.callbacks
    ensures KeepsOthers(states[n].client, id) <==>
            (exists wsId :: ConfirmedBefore(steps, n, id, wsId))
            || forall other :: ConfirmedBefore(steps, n, other, states[n].client.callbacks[id].wsId) ==>
                 UnsubscribedBefore(steps, n, other)
  {
    hide ConfirmedBefore, UnsubscribedBefore, Enabled, Next, Inv, KeepsOthers;
    var s := states[n];
    var w := s.client.callbacks[id].wsId;
    RunKeepsInv(states, steps, n);
    KeepsOthersInState(s, id);
    forall v: nat ensures id in s.confirmed && s.confirmed[id] == v <==> ConfirmedBefore(steps, n, id, v) {
      HistoryIsTrace(states, steps, n, id, v, None);
    }
    forall i: nat
      ensures Live(s.confirmed, s.unsubscribed, i, w) <==> ConfirmedBefore(steps, n, i, w) && !UnsubscribedBefore(steps, n, i)
    {
      HistoryIsTrace(states, steps, n, i, w, None);
    }
    if id in s.confirmed {
      assert ConfirmedBefore(steps, n, id, s.confirmed[id]);
    }
  }

  /** A first request with callback 1 is confirmed as subscription 7. */
  lemma ConfirmedRun(steps: seq<Step>) returns (s1: State, s2: State, s3: State)
    requires steps == [Step.Subscribe(Some(1), None, None, 0), Accept(0, 7), Read(Confirmed(0, 7))]
    ensures Enabled(INITIAL, steps[0]) && s1 == Next(INITIAL, steps[0])
    ensures Enabled(s1, steps[1]) && s2 == Next(s1, steps[1])
    ensures Enabled(s2, steps[2]) && s3 == Next(s2, steps[2])
    ensures s3.client == Client(map[0 := Request(0, Some(1), None, None, true, 7)], map[7 := 0]) && s3.nextId == 2
  {
    var req := Request(0, Some(1), None, None, false, 0);
    s1 := INITIAL.(client := Client(map[0 := req], map[]), nextId := 2,
                   toServer := multiset{SubscribeRequest(0)}, requested := map[0 := req]);
    s2 := s1.(toServer := multiset{}, toClient := multiset{Confirmed(0, 7)}, given := map[0 := 7]);
    s3 := s2.(client := Client(map[0 := req.(subscribed := true, wsId := 7)], map[7 := 0]),
              toClient := multiset{}, confirmed := map[0 := 7]);
  }

  lemma RunOfFour(s1: State, s2: State, s3: State, s4: State, steps: seq<Step>)
    requires |steps| == 4
    requires Enabled(INITIAL, steps[0]) && s1 == Next(INITIAL, steps[0])
    requires Enabled(s1, steps[1]) && s2 == Next(s1, steps[1])
    requires Enabled(s2, steps[2]) && s3 == Next(s2, steps[2])
    requires Enabled(s3, steps[3]) && s4 == Next(s3, steps[3])
    ensures IsRun([INITIAL, s1, s2, s3, s4], steps)
  {
    hide Enabled, Next;
  }

  /** A second request is made, whose unset ws_id happens to be 7. */
  lemma SecondRequest(s3: State, early: Step) returns (s4: State)
    requires s3.client == Client(map[0 := Request(0, Some(1), None, None, true, 7)], map[7 := 0]) && s3.nextId == 2
    requires early == Step.Subscribe(Some(2), None, None, 7)
    ensures Enabled(s3, early) && s4 == Next(s3, early)
    ensures 2 in s4.client.callbacks && CallbackFor(s4.client, 7) == Some(1)
    ensures CallbackFor(Unsubscribing(s4.client, 2), 7) == None
  {
    s4 := Next(s3, early);
  }

  /**
    A run to a state in which unsubscribing the unconfirmed request 2, whose unset ws_id
    is 7, erases the subscription 7 of request 0, so that its notifications are dropped.
   */
  lemma EarlyUnsubscribeWitness() returns (states: seq<State>, steps: seq<Step>)
    ensures IsRun(states, steps) && |steps| == 4
    ensures var c := states[4].client;
            2 in c.callbacks && CallbackFor(c, 7) == Some(1) && CallbackFor(Unsubscribing(c, 2), 7) == None
  {
    hide IsRun, Enabled, Next, CallbackFor, Unsubscribing;
    var early := Step.Subscribe(Some(2), None, None, 7);
    steps := [Step.Subscribe(Some(1), None, None, 0), Accept(0, 7), Read(Confirmed(0, 7)), early];
    var s1, s2, s3 := ConfirmedRun(steps[..3]);
    var s4 := SecondRequest(s3, early);
    states := [INITIAL, s1, s2, s3, s4];
    RunOfFour(s1, s2, s3, s4, steps);
  }
}
