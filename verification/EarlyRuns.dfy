/**
  Runs in which requests are unsubscribed at any time, also before their confirmation
  is read (lib/websocket.cpp:66-94, 206-279).
 */
module EarlyRuns {
  import opened Session
  import opened SessionRuns
  import opened Wrappers

  /** Any request may be unsubscribed. */
  predicate EnabledEarly(s: State, step: Step) {
    step.Unsubscribe? || Enabled(s, step)
  }

  ghost predicate IsEarlyRun(states: seq<State>, steps: seq<Step>) {
    && |states| == |steps| + 1 && states[0] == INITIAL
    && (forall i :: 0 <= i < |steps| ==> EnabledEarly(states[i], steps[i]) && states[i + 1] == Next(states[i], steps[i]))
  }

  /** The step enters subscription wsId for request id. */
  predicate Enters(c: Client, step: Step, id: nat, wsId: nat) {
    step == Read(Confirmed(id, wsId)) && id in c.callbacks
  }

  /** The step erases subscription wsId, which the ws_id of the unsubscribed request names. */
  predicate Erases(c: Client, step: Step, wsId: nat) {
    step.Unsubscribe? && step.id in c.callbacks && c.callbacks[step.id].wsId == wsId
  }

  /** Step i enters wsId for id, and no later step before n enters or erases it. */
  ghost predicate LastEntered(states: seq<State>, steps: seq<Step>, i: nat, n: nat, id: nat, wsId: nat)
    requires i < n <= |steps| < |states|
  {
    && Enters(states[i].client, steps[i], id, wsId)
    && (forall j :: i < j < n ==>
          !Erases(states[j].client, steps[j], wsId) && forall other :: !Enters(states[j].client, steps[j], other, wsId))
  }

  ghost predicate EnteredBefore(states: seq<State>, steps: seq<Step>, n: nat, id: nat, wsId: nat)
    requires n <= |steps| < |states|
  {
    exists i: nat :: i < n && LastEntered(states, steps, i, n, id, wsId)
  }

  /** What one step does to an entry. */
  lemma EntryStep(s: State, step: Step, id: nat, wsId: nat)
    ensures var t := Next(s, step).client.wsids;
            (wsId in t && t[wsId] == id) <==>
              Enters(s.client, step, id, wsId)
              || (wsId in s.client.wsids && s.client.wsids[wsId] == id
                  && !Erases(s.client, step, wsId) && forall other :: !Enters(s.client, step, other, wsId))
  {
    hide ReadingCalls, UnsubscribeMessages;
    if step.Read? && step.msg.Confirmed? {
      assert forall other :: Enters(s.client, step, other, wsId) ==> other == step.msg.id;
      assert step.msg.wsId == wsId && step.msg.id in s.client.callbacks ==> Enters(s.client, step, step.msg.id, wsId);
    } else {
      assert forall other :: !Enters(s.client, step, other, wsId);
    }
  }

  lemma EnteredStep(states: seq<State>, steps: seq<Step>, n: nat, id: nat, wsId: nat)
    requires n < |steps| < |states|
    ensures EnteredBefore(states, steps, n + 1, id, wsId) <==>
              Enters(states[n].client, steps[n], id, wsId)
              || (EnteredBefore(states, steps, n, id, wsId)
                  && !Erases(states[n].client, steps[n], wsId) && forall other :: !Enters(states[n].client, steps[n], other, wsId))
  {
    hide Enters, Erases;
    if Enters(states[n].client, steps[n], id, wsId) {
      assert LastEntered(states, steps, n, n + 1, id, wsId);
    }
    if EnteredBefore(states, steps, n, id, wsId) {
      var i: nat :| i < n && LastEntered(states, steps, i, n, id, wsId);
      if !Erases(states[n].client, steps[n], wsId) && forall other :: !Enters(states[n].client, steps[n], other, wsId) {
        assert LastEntered(states, steps, i, n + 1, id, wsId);
      }
    }
    if EnteredBefore(states, steps, n + 1, id, wsId) {
      var i: nat :| i < n + 1 && LastEntered(states, steps, i, n + 1, id, wsId);
      if i < n {
        assert LastEntered(states, steps, i, n, id, wsId);
      }
    }
  }

  /** In any such run the entry of a subscription is the last one made for it and not erased since. */
  lemma {:induction false} EntryIsLastEntered(states: seq<State>, steps: seq<Step>, n: nat, id: nat, wsId: nat)
    requires IsEarlyRun(states, steps) && n <= |steps|
    ensures var wsids := states[n].client.wsids;
            wsId in wsids && wsids[wsId] == id <==> EnteredBefore(states, steps, n, id, wsId)
  {
    hide Next, EnabledEarly, EnteredBefore, Enters, Erases;
    if n > 0 {
      EntryIsLastEntered(states, steps, n - 1, id, wsId);
      EntryStep(states[n - 1], steps[n - 1], id, wsId);
      EnteredStep(states, steps, n - 1, id, wsId);
    } else {
      NothingEntered(states, steps, id, wsId);
    }
  }

  lemma NothingEntered(states: seq<State>, steps: seq<Step>, id: nat, wsId: nat)
    requires |steps| < |states|
    ensures !EnteredBefore(states, steps, 0, id, wsId)
  {
  }

  /**
    Wherever requests are unsubscribed, a notification calls the callback of a request that is
    still held and whose confirmation was the last step to enter or erase its subscription.
    So an unsubscription before the confirmation, which erases something else, does not keep
    the callback from being called.
   */
  lemma EarlyNotification(states: seq<State>, steps: seq<Step>, n: nat, wsId: nat, payload: nat, cb: nat)
    requires IsEarlyRun(states, steps) && n < |steps| && steps[n] == Read(Notification(wsId, payload))
    ensures states[n + 1].calls == states[n].calls + [NotifiedCall(cb, wsId, payload)] <==>
              exists id :: EnteredBefore(states, steps, n, id, wsId)
                           && id in states[n].client.callbacks && states[n].client.callbacks[id].cb == Some(cb)
  {
    hide EnabledEarly, EnteredBefore;
    var s := states[n];
    assert states[n + 1] == Next(s, steps[n]);
    var made := ReadingCalls(s.client, Notification(wsId, payload));
    assert states[n + 1].calls == s.calls + made;
    assert s.calls + made == s.calls + [NotifiedCall(cb, wsId, payload)] <==> made == [NotifiedCall(cb, wsId, payload)] by {
      assert (s.calls + made)[|s.calls|..] == made;
      assert (s.calls + [NotifiedCall(cb, wsId, payload)])[|s.calls|..] == [NotifiedCall(cb, wsId, payload)];
    }
    CallsTheCallback(s.client, wsId, payload, cb);
    forall id: nat
      ensures wsId in s.client.wsids && s.client.wsids[wsId] == id <==> EnteredBefore(states, steps, n, id, wsId)
    {
      EntryIsLastEntered(states, steps, n, id, wsId);
    }
  }

  lemma CallsTheCallback(c: Client, wsId: nat, payload: nat, cb: nat)
    ensures ReadingCalls(c, Notification(wsId, payload)) == [NotifiedCall(cb, wsId, payload)] <==>
              wsId in c.wsids && c.wsids[wsId] in c.callbacks && c.callbacks[c.wsids[wsId]].cb == Some(cb)
  {
    if CallbackFor(c, wsId).Some? {
      assert ReadingCalls(c, Notification(wsId, payload))[0] == NotifiedCall(CallbackFor(c, wsId).value, wsId, payload);
    }
  }

  // ----- A run of this kind -----

  const FIRST: Request := Request(0, Some(1), None, None, false, 0)

  const MADE: State := INITIAL.(client := Client(map[0 := FIRST], map[]), nextId := 2,
                                toServer := multiset{SubscribeRequest(0)}, requested := map[0 := FIRST])

  const GIVEN_UP: State := MADE.(toServer := multiset{SubscribeRequest(0), UnsubscribeRequest(1, 0)}, unsubscribed := {0})

  const ACCEPTED: State := GIVEN_UP.(toServer := multiset{UnsubscribeRequest(1, 0)}, toClient := multiset{Confirmed(0, 7)},
                                     given := map[0 := 7])

  const CONFIRMED: State := ACCEPTED.(client := Client(map[0 := FIRST.(subscribed := true, wsId := 7)], map[7 := 0]),
                                      toClient := multiset{}, confirmed := map[0 := 7])

  const NOTIFIED: State := CONFIRMED.(toClient := multiset{Notification(7, 5)})

  const CALLED: State := CONFIRMED.(calls := [NotifiedCall(1, 7, 5)])

  lemma IsMade()
    ensures EnabledEarly(INITIAL, Step.Subscribe(Some(1), None, None, 0))
    ensures MADE == Next(INITIAL, Step.Subscribe(Some(1), None, None, 0))
  {
  }

  lemma IsGivenUp()
    ensures GIVEN_UP == Next(MADE, Step.Unsubscribe(0))
  {
    assert MADE.client.wsids - {0} == map[];
  }

  lemma IsAccepted()
    ensures EnabledEarly(GIVEN_UP, Accept(0, 7)) && ACCEPTED == Next(GIVEN_UP, Accept(0, 7))
  {
  }

  lemma IsConfirmed()
    ensures EnabledEarly(ACCEPTED, Read(Confirmed(0, 7))) && CONFIRMED == Next(ACCEPTED, Read(Confirmed(0, 7)))
  {
  }

  lemma IsNotified()
    ensures EnabledEarly(CONFIRMED, Notify(7, 5)) && NOTIFIED == Next(CONFIRMED, Notify(7, 5))
  {
  }

  lemma IsCalled()
    ensures EnabledEarly(NOTIFIED, Read(Notification(7, 5))) && CALLED == Next(NOTIFIED, Read(Notification(7, 5)))
  {
  }

  /** The only request is unsubscribed before its confirmation, and its callback is called all the same. */
  lemma LateCallWitness() returns (states: seq<State>, steps: seq<Step>)
    ensures IsEarlyRun(states, steps) && |steps| == 6
    ensures steps[0].Subscribe? && steps[0].cb == Some(1) && steps[1] == Step.Unsubscribe(0)
    ensures states[6].calls == [NotifiedCall(1, 7, 5)]
  {
    hide Next, Enabled;
    IsMade();
    IsGivenUp();
    IsAccepted();
    IsConfirmed();
    IsNotified();
    IsCalled();
    steps := [Step.Subscribe(Some(1), None, None, 0), Step.Unsubscribe(0), Accept(0, 7), Read(Confirmed(0, 7)),
              Notify(7, 5), Read(Notification(7, 5))];
    states := [INITIAL, MADE, GIVEN_UP, ACCEPTED, CONFIRMED, NOTIFIED, CALLED];
  }
}
