/** The automation triggers of automation.h and the callback fan-out that
    reaches them. A subscriber is identified by the trigger it belongs to;
    what a trigger runs downstream is not modelled, only that it fires and
    with which arguments. */
module Automation {
  import opened PinpadTypes

  type TriggerId = nat

  /** A state-callback subscriber: the lambda of a PinpadAcceptedTrigger or
      of a PinpadRejectedTrigger. */
  datatype StateListener = AcceptedTrigger(id: TriggerId) | RejectedTrigger(id: TriggerId)

  /** Everything the component makes observable to automation, in order. */
  datatype Event =
    | StatusNotified(status: string)
    | PinpadAccepted(trigger: TriggerId, user: string, cmd: string)
    | PinpadRejected(trigger: TriggerId, user: string, cmd: string)
    | UserSelected(trigger: TriggerId, userId: string)
    | UserCommand(trigger: TriggerId, command: string)

  /** Whether subscriber `l` fires when the component is in `s`. */
  predicate Listens(l: StateListener, s: State)
  {
    (l.AcceptedTrigger? && s == PinAccepted) || (l.RejectedTrigger? && s == PinRejected)
  }

  /** One subscriber's body: fire with `(get_userid(), get_cmd())` when
      `is_accepted()` (resp. `is_rejected()`) holds at call time. */
  function OnStateCallback(l: StateListener, s: State, user: string, cmd: string): (r: Option<Event>)
    ensures r.Some? <==> Listens(l, s)
    ensures r.Some? ==> !r.value.StatusNotified? && r.value.trigger == l.id
    ensures r.Some? && s == PinAccepted ==> r.value == PinpadAccepted(l.id, user, cmd)
    ensures r.Some? && s == PinRejected ==> r.value == PinpadRejected(l.id, user, cmd)
  {
    match l
    case AcceptedTrigger(id) => if s == PinAccepted then Some(PinpadAccepted(id, user, cmd)) else None
    case RejectedTrigger(id) => if s == PinRejected then Some(PinpadRejected(id, user, cmd)) else None
  }

  /** `state_callback_.call()`: every subscriber in registration order. */
  function StateCallbackFanOut(ls: seq<StateListener>, s: State, user: string, cmd: string): (r: seq<Event>)
    ensures |r| <= |ls|
    ensures (s == Idle || s == Stopped) ==> r == []
    ensures forall e :: e in r ==>
              ((s == PinAccepted && e.PinpadAccepted?) || (s == PinRejected && e.PinpadRejected?))
              && e.user == user && e.cmd == cmd
              && exists l :: l in ls && l.id == e.trigger && Listens(l, s)
  {
    if ls == [] then []
    else
      var first := match OnStateCallback(ls[0], s, user, cmd)
        case Some(e) => [e]
        case None => [];
      first + StateCallbackFanOut(ls[1..], s, user, cmd)
  }

  /** Every subscriber that listens for `s` fires. */
  lemma {:induction false} FanOutFiresEveryListener(ls: seq<StateListener>, s: State, user: string, cmd: string, i: nat)
    requires i < |ls| && Listens(ls[i], s)
    ensures OnStateCallback(ls[i], s, user, cmd).Some?
    ensures OnStateCallback(ls[i], s, user, cmd).value in StateCallbackFanOut(ls, s, user, cmd)
    decreases i
  {
    if i > 0 {
      FanOutFiresEveryListener(ls[1..], s, user, cmd, i - 1);
      assert ls[1..][i - 1] == ls[i];
    }
  }

  /** The number of triggers fired is the number of subscribers listening. */
  function CountListening(ls: seq<StateListener>, s: State): nat
  {
    if ls == [] then 0 else (if Listens(ls[0], s) then 1 else 0) + CountListening(ls[1..], s)
  }

  lemma {:induction false} FanOutCount(ls: seq<StateListener>, s: State, user: string, cmd: string)
    ensures |StateCallbackFanOut(ls, s, user, cmd)| == CountListening(ls, s)
  {
    if ls != [] {
      FanOutCount(ls[1..], s, user, cmd);
    }
  }

  /** The subscribers of `ls` that listen for `s`, in registration order. */
  function ListeningIds(ls: seq<StateListener>, s: State): seq<TriggerId>
  {
    if ls == [] then [] else (if Listens(ls[0], s) then [ls[0].id] else []) + ListeningIds(ls[1..], s)
  }

  /** Triggers fire in registration order: the k-th event goes to the k-th
      subscriber that listens for `s`. */
  lemma {:induction false} FanOutInRegistrationOrder(ls: seq<StateListener>, s: State, user: string, cmd: string)
    ensures |StateCallbackFanOut(ls, s, user, cmd)| == |ListeningIds(ls, s)|
    ensures forall k :: 0 <= k < |ListeningIds(ls, s)| ==>
              !StateCallbackFanOut(ls, s, user, cmd)[k].StatusNotified?
              && StateCallbackFanOut(ls, s, user, cmd)[k].trigger == ListeningIds(ls, s)[k]
  {
    if ls != [] {
      FanOutInRegistrationOrder(ls[1..], s, user, cmd);
      var r, rest := StateCallbackFanOut(ls, s, user, cmd), StateCallbackFanOut(ls[1..], s, user, cmd);
      var ids, restIds := ListeningIds(ls, s), ListeningIds(ls[1..], s);
      if Listens(ls[0], s) {
        assert r == [OnStateCallback(ls[0], s, user, cmd).value] + rest;
        assert ids == [ls[0].id] + restIds;
      } else {
        assert r == rest;
        assert ids == restIds;
      }
    }
  }

  /** `user_selected_callback_.call(user_id)`: each subscribed trigger, in
      registration order, receives the user id unchanged. */
  function UserSelectedFanOut(ids: seq<TriggerId>, userId: string): (r: seq<Event>)
    ensures |r| == |ids|
    ensures forall k :: 0 <= k < |r| ==> r[k] == UserSelected(ids[k], userId)
  {
    if ids == [] then [] else [UserSelected(ids[0], userId)] + UserSelectedFanOut(ids[1..], userId)
  }

  /** `user_command_callback_.call(cmd)`: each subscribed trigger, in
      registration order, receives the command unchanged. */
  function UserCommandFanOut(ids: seq<TriggerId>, command: string): (r: seq<Event>)
    ensures |r| == |ids|
    ensures forall k :: 0 <= k < |r| ==> r[k] == UserCommand(ids[k], command)
  {
    if ids == [] then [] else [UserCommand(ids[0], command)] + UserCommandFanOut(ids[1..], command)
  }
}
