/** Which calls into user code and which messages the steps of a run cause (lib/websocket.cpp:78-94, 206-243). */
module SessionCalls {
  import opened Session
  import opened SessionRuns
  import opened Wrappers

  /** Step i makes request id. */
  predicate MakesAt(states: seq<State>, steps: seq<Step>, i: nat, id: nat)
    requires i < |steps| < |states|
  {
    steps[i].Subscribe? && states[i].nextId == id
  }

  /** Among the first n steps, the client read an answer to message uid, an unsubscription. */
  ghost predicate AnsweredBefore(steps: seq<Step>, n: nat, uid: nat)
    requires n <= |steps|
  {
    exists i, result :: 0 <= i < n && steps[i] == Read(Unsubscribed(uid, result))
  }

  /** The history keeps a request as it was made. */
  lemma {:induction false} RequestIsKept(states: seq<State>, steps: seq<Step>, i: nat, n: nat)
    requires IsRun(states, steps) && i < n <= |steps| && steps[i].Subscribe?
    ensures var id := states[i].nextId; id in states[n].requested && states[n].requested[id] == RequestOf(states[i], steps[i])
  {
    hide Inv, Enabled, Next, OverwritesNothing;
    assert states[n] == Next(states[n - 1], steps[n - 1]);
    KeptByStep(states[n - 1], steps[n - 1]);
    if i < n - 1 {
      RequestIsKept(states, steps, i, n - 1);
      RunKeepsInv(states, steps, n - 1);
      NothingIsOverwritten(states[n - 1], steps[n - 1]);
      if steps[n - 1].Subscribe? {
        NewId(states[n - 1], steps[n - 1]);
      }
    }
  }

  lemma KeptByStep(s: State, step: Step)
    ensures var t := Next(s, step);
            && (step.Subscribe? ==> t.requested == s.requested[s.nextId := RequestOf(s, step)])
            && (!step.Subscribe? ==> t.requested == s.requested)
  {
    hide Next, RequestOf;
    if step.Subscribe? { SubscribeRecords(s, step); } else { OthersRecordNothing(s, step); }
  }

  lemma SubscribeRecords(s: State, step: Step)
    requires step.Subscribe?
    ensures Next(s, step).requested == s.requested[s.nextId := RequestOf(s, step)]
  {
  }

  lemma OthersRecordNothing(s: State, step: Step)
    requires !step.Subscribe?
    ensures Next(s, step).requested == s.requested
  {
    hide Unsubscribing, UnsubscribeMessages, Reading, ReadingCalls;
    match step {
      case Unsubscribe(_) =>
      case Accept(_, _) =>
      case End(_, _, _) =>
      case Refuse(_) =>
      case Notify(_, _) =>
      case Read(_) =>
    }
  }

  lemma NewId(s: State, step: Step)
    requires OverwritesNothing(s, step) && step.Subscribe?
    ensures s.nextId !in s.requested
  {
  }

  /** A request under way or held was made by some step. */
  lemma MadeBefore(states: seq<State>, steps: seq<Step>, n: nat, id: nat)
    requires IsRun(states, steps) && n <= |steps| && id in states[n].requested
    ensures exists i :: 0 <= i < n && MakesAt(states, steps, i, id)
  {
    hide Enabled, Next, RequestOf;
    var i := RequestWasMade(states, steps, n, id);
    assert MakesAt(states, steps, i, id);
  }

  // ----- Confirmations -----

  /**
    Reading the confirmation of a request calls the on_subscribe that it was made with,
    once, and nothing if it was made without one.
   */
  lemma ConfirmationCalls(states: seq<State>, steps: seq<Step>, n: nat, id: nat, wsId: nat)
    requires IsRun(states, steps) && n < |steps| && steps[n] == Read(Confirmed(id, wsId))
    ensures exists i :: 0 <= i < n && MakesAt(states, steps, i, id)
    ensures forall i :: 0 <= i < n && MakesAt(states, steps, i, id) ==>
              states[n + 1].calls == states[n].calls +
                match steps[i].onSubscribe case None => [] case Some(cb) => [SubscribedCall(id, cb)]
  {
    hide Inv, Enabled, Next, RequestOf;
    var s := states[n];
    assert states[n + 1] == Next(s, steps[n]);
    RunKeepsInv(states, steps, n);
    ConfirmationFindsRequest(s, id, wsId);
    MadeBefore(states, steps, n, id);
    forall i | 0 <= i < n && MakesAt(states, steps, i, id)
      ensures s.requested[id].onSubscribe == steps[i].onSubscribe
    {
      RequestIsKept(states, steps, i, n);
      MadeWith(states[i], steps[i]);
    }
  }

  lemma MadeWith(s: State, step: Step)
    requires step.Subscribe?
    ensures var req := RequestOf(s, step); req.onSubscribe == step.onSubscribe && req.onUnsubscribe == step.onUnsubscribe
  {
  }

  lemma ConfirmationFindsRequest(s: State, id: nat, wsId: nat)
    requires Inv(s) && Enabled(s, Read(Confirmed(id, wsId)))
    ensures id in s.requested
    ensures Next(s, Read(Confirmed(id, wsId))).calls == s.calls +
              match s.requested[id].onSubscribe case None => [] case Some(cb) => [SubscribedCall(id, cb)]
  {
    hide CallsInv;
    ConfirmationIsNew(s, id, wsId);
    assert Agrees(s.confirmed, s.client.callbacks[id], s.requested[id]);
  }

  // ----- Answers to unsubscriptions -----

  /** A request is held from the step that makes it until an answer to its unsubscription is read. */
  lemma {:induction false} HeldUntilAnswered(states: seq<State>, steps: seq<Step>, n: nat, id: nat)
    requires IsRun(states, steps) && n <= |steps|
    ensures id in states[n].client.callbacks <==> id in states[n].requested && !AnsweredBefore(steps, n, id + 1)
    ensures AnsweredBefore(steps, n, id + 1) ==> id in states[n].requested
  {
    hide Inv, Enabled, Next, AnsweredBefore;
    if n > 0 {
      HeldUntilAnswered(states, steps, n - 1, id);
      RunKeepsInv(states, steps, n - 1);
      HeldStep(states[n - 1], steps[n - 1], id);
      AnsweredStep(steps, n - 1, id + 1);
      assert states[n] == Next(states[n - 1], steps[n - 1]);
    } else {
      NothingAnswered(steps, id + 1);
    }
  }

  predicate Answers(step: Step, uid: nat) {
    step.Read? && step.msg.Unsubscribed? && step.msg.id == uid
  }

  lemma AnsweredStep(steps: seq<Step>, n: nat, uid: nat)
    requires n < |steps|
    ensures AnsweredBefore(steps, n + 1, uid) <==> AnsweredBefore(steps, n, uid) || Answers(steps[n], uid)
  {
    if Answers(steps[n], uid) {
      assert steps[n] == Read(Unsubscribed(uid, steps[n].msg.result));
    }
  }

  lemma NothingAnswered(steps: seq<Step>, uid: nat)
    ensures !AnsweredBefore(steps, 0, uid)
  {
  }

  lemma HeldStep(s: State, step: Step, id: nat)
    requires Inv(s) && Enabled(s, step)
    ensures var t := Next(s, step);
            && (id in t.requested <==> id in s.requested || (step.Subscribe? && s.nextId == id))
            && (step.Subscribe? && s.nextId == id ==> id !in s.requested)
            && (id in t.client.callbacks <==>
                 (id in s.client.callbacks && !Answers(step, id + 1)) || (step.Subscribe? && s.nextId == id))
            && (Answers(step, id + 1) ==> id in s.requested)
  {
    hide Inv, Enabled, Next, OverwritesNothing;
    NothingIsOverwritten(s, step);
    if step.Subscribe? {
      NewId(s, step);
    }
    KeptByStep(s, step);
    if step.Read? && step.msg.Unsubscribed? {
      AnswerIsExpected(s, step.msg.id, step.msg.result);
    }
    CallbacksStep(s, step, id);
  }

  lemma AnswerIsExpected(s: State, uid: nat, result: bool)
    requires Inv(s) && Enabled(s, Read(Unsubscribed(uid, result)))
    ensures uid > 0 && uid - 1 in s.requested
  {
    hide CallsInv, ClientInv;
  }

  lemma CallbacksStep(s: State, step: Step, id: nat)
    requires step.Read? && step.msg.Unsubscribed? ==> step.msg.id > 0
    ensures id in Next(s, step).client.callbacks <==>
              (id in s.client.callbacks && !Answers(step, id + 1)) || (step.Subscribe? && s.nextId == id)
  {
    hide ReadingCalls, UnsubscribeMessages;
    match step {
      case Subscribe(_, _, _, _) =>
      case Unsubscribe(_) =>
      case Accept(_, _) =>
      case End(_, _, _) =>
      case Refuse(_) =>
      case Notify(_, _) =>
      case Read(msg) =>
        if msg.Unsubscribed? {
          OddPredecessor(msg.id);
        }
    }
  }

  /**
    Reading the first answer to an unsubscription calls the on_unsubscribe that the request was
    made with, once, and nothing if it was made without one; any further answer calls nothing.
   */
  lemma AnswerCalls(states: seq<State>, steps: seq<Step>, n: nat, id: nat, result: bool)
    requires IsRun(states, steps) && n < |steps| && steps[n] == Read(Unsubscribed(id + 1, result))
    ensures exists i :: 0 <= i < n && MakesAt(states, steps, i, id)
    ensures AnsweredBefore(steps, n, id + 1) ==> states[n + 1].calls == states[n].calls
    ensures !AnsweredBefore(steps, n, id + 1) ==> forall i :: 0 <= i < n && MakesAt(states, steps, i, id) ==>
              states[n + 1].calls == states[n].calls +
                match steps[i].onUnsubscribe case None => [] case Some(cb) => [UnsubscribedCall(id, cb)]
  {
    hide Inv, Enabled, Next, RequestOf, AnsweredBefore;
    var s := states[n];
    assert states[n + 1] == Next(s, steps[n]);
    RunKeepsInv(states, steps, n);
    AnswerIsExpected(s, id + 1, result);
    AnswerCallsHeld(s, id, result);
    HeldUntilAnswered(states, steps, n, id);
    MadeBefore(states, steps, n, id);
    forall i | 0 <= i < n && MakesAt(states, steps, i, id)
      ensures s.requested[id].onUnsubscribe == steps[i].onUnsubscribe
    {
      RequestIsKept(states, steps, i, n);
      MadeWith(states[i], steps[i]);
    }
  }

  lemma AnswerCallsHeld(s: State, id: nat, result: bool)
    requires Inv(s) && id in s.requested
    ensures Next(s, Read(Unsubscribed(id + 1, result))).calls == s.calls +
              if id !in s.client.callbacks then []
              else match s.requested[id].onUnsubscribe case None => [] case Some(cb) => [UnsubscribedCall(id, cb)]
  {
    hide CallsInv, Reading;
    OddPredecessor(id + 1);
    assert id in s.client.callbacks ==> Agrees(s.confirmed, s.client.callbacks[id], s.requested[id]);
  }

  // ----- Messages to the server -----

  /** Making a request sends it under the next id, and no other step sends one. */
  lemma SubscriptionSent(states: seq<State>, steps: seq<Step>, n: nat)
    requires IsRun(states, steps) && n < |steps| && steps[n].Subscribe?
    ensures states[n + 1].toServer == states[n].toServer + multiset{SubscribeRequest(states[n].nextId)}
  {
    assert states[n + 1] == Next(states[n], steps[n]);
  }

  /**
    Unsubscribing a confirmed request sends one message, with the id after that of the request
    and the subscription that it was confirmed as, until an answer was read; then nothing.
   */
  lemma UnsubscriptionSent(states: seq<State>, steps: seq<Step>, n: nat, id: nat, wsId: nat)
    requires IsRun(states, steps) && n < |steps| && steps[n] == Step.Unsubscribe(id) && ConfirmedBefore(steps, n, id, wsId)
    ensures states[n + 1].toServer == states[n].toServer +
              if AnsweredBefore(steps, n, id + 1) then multiset{} else multiset{UnsubscribeRequest(id + 1, wsId)}
  {
    hide Inv, Enabled, Next, AnsweredBefore, ConfirmedBefore;
    var s := states[n];
    assert states[n + 1] == Next(s, steps[n]);
    RunKeepsInv(states, steps, n);
    HistoryIsTrace(states, steps, n, id, wsId, None);
    HeldUntilAnswered(states, steps, n, id);
    NamesItsSubscription(s, id, wsId);
  }

  lemma NamesItsSubscription(s: State, id: nat, wsId: nat)
    requires Inv(s) && id in s.confirmed && s.confirmed[id] == wsId
    ensures id in s.requested
    ensures Next(s, Step.Unsubscribe(id)).toServer == s.toServer +
              if id in s.client.callbacks then multiset{UnsubscribeRequest(id + 1, wsId)} else multiset{}
  {
    hide MessagesInv, CallsInv;
    EvenSuccessor(id, s.nextId);
    assert id in s.client.callbacks ==> Agrees(s.confirmed, s.client.callbacks[id], s.requested[id]);
  }
}
