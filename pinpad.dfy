/** The pinpad component (`ESP32BLEPinpadComponent`): a polled state machine
    over STOPPED, IDLE, PIN_ACCEPTED and PIN_REJECTED that checks pins
    written to its rpc characteristic, holds each verdict for 500 ms,
    maintains the persisted HOTP counter and notifies automation triggers.

    The BLE service, its characteristics and the scheduler are not modelled
    as objects: the values the component writes into characteristics are
    string fields, and what the framework reports during a loop tick
    (the millisecond clock, whether the service is created and running,
    whether the preference store can load and save) arrives as a `Tick`. */
module Pinpad {
  import opened PinpadTypes
  import opened Decimal
  import opened CounterStore
  import opened PinCheck
  import opened Automation

  /** What the framework supplies to one `loop()` call. */
  datatype Tick = Tick(
    now: uint32,           // millis(), read once for the whole tick
    unixTime: int,         // the wall clock totp_generate reads
    serviceCreated: bool,  // service_->is_created()
    serviceRunning: bool,  // service_->is_running()
    loadOk: bool,          // whether preference loads succeed during the tick
    saveOk: bool)          // whether preference saves succeed during the tick

  /** The optional status indicator output and its level. */
  datatype StatusIndicator = Absent | Output(isOn: bool)

  function TurnOn(ind: StatusIndicator): StatusIndicator
  {
    if ind.Output? then Output(true) else Absent
  }

  function TurnOff(ind: StatusIndicator): StatusIndicator
  {
    if ind.Output? then Output(false) else Absent
  }

  /** How a loop tick spent in `s` drives the indicator: off in STOPPED and
      IDLE, on in PIN_ACCEPTED, untouched in PIN_REJECTED. */
  function DriveIndicator(ind: StatusIndicator, s: State): StatusIndicator
  {
    match s
    case Stopped => TurnOff(ind)
    case Idle => TurnOff(ind)
    case PinAccepted => TurnOn(ind)
    case PinRejected => ind
  }

  /** The text `set_state_` publishes on the status characteristic. */
  function StatusName(s: State): string
  {
    match s
    case Stopped => "stopped"
    case Idle => "idle"
    case PinAccepted => "accepted"
    case PinRejected => "rejected"
  }

  lemma StatusNamesDistinct(s: State, t: State)
    ensures StatusName(s) in {"stopped", "idle", "accepted", "rejected"}
    ensures StatusName(s) == StatusName(t) <==> s == t
  {
  }

  /** The text the security-mode characteristic carries. */
  function SecurityModeName(m: SecurityMode): string
  {
    match m
    case ModeNone => "none"
    case ModeHotp => "hotp"
    case ModeTotp => "totp"
  }

  /** What `set_state_(to)` makes observable when the state was `from`:
      nothing if they are equal, otherwise one status notification followed
      by one call of the state callbacks. */
  function StateChangeEvents(ls: seq<StateListener>, from: State, to: State, user: string, cmd: string): seq<Event>
  {
    if from == to then [] else [StatusNotified(StatusName(to))] + StateCallbackFanOut(ls, to, user, cmd)
  }

  /** The number of status notifications in an event sequence. */
  function NotificationCount(es: seq<Event>): nat
  {
    if es == [] then 0 else (if es[0].StatusNotified? then 1 else 0) + NotificationCount(es[1..])
  }

  lemma {:induction false} NotificationCountAppend(a: seq<Event>, b: seq<Event>)
    ensures NotificationCount(a + b) == NotificationCount(a) + NotificationCount(b)
    decreases |a|
  {
    if a != [] {
      assert (a + b)[1..] == a[1..] + b;
      NotificationCountAppend(a[1..], b);
    } else {
      assert a + b == b;
    }
  }

  lemma {:induction false} NoNotifications(es: seq<Event>)
    requires forall e :: e in es ==> !e.StatusNotified?
    ensures NotificationCount(es) == 0
    decreases |es|
  {
    if es != [] {
      assert es[0] in es;
      assert forall e :: e in es[1..] ==> e in es;
      NoNotifications(es[1..]);
    }
  }

  /** A state change notifies the status exactly once, and the triggers it
      fires are those listening for the new state. */
  lemma StateChangeNotifiesOnce(ls: seq<StateListener>, from: State, to: State, user: string, cmd: string)
    ensures NotificationCount(StateChangeEvents(ls, from, to, user, cmd)) == if from == to then 0 else 1
    ensures from != to ==> StateChangeEvents(ls, from, to, user, cmd)[0] == StatusNotified(StatusName(to))
    ensures (to == Idle || to == Stopped) ==> StateChangeEvents(ls, from, to, user, cmd) == (if from == to then [] else [StatusNotified(StatusName(to))])
  {
    if from != to {
      var fan := StateCallbackFanOut(ls, to, user, cmd);
      NoNotifications(fan);
      NotificationCountAppend([StatusNotified(StatusName(to))], fan);
    }
  }

  /** The STOPPED arm's start conditions: the service is created and running,
      a start was requested and setup has completed. */
  predicate StartConditions(t: Tick, shouldStart: bool, setupComplete: bool)
  {
    t.serviceCreated && shouldStart && setupComplete && t.serviceRunning
  }

  /** The state a loop tick's switch leaves behind, from state `s` entered
      at `entered`. */
  function PollOutcome(s: State, t: Tick, shouldStart: bool, setupComplete: bool, entered: uint32): State
  {
    match s
    case Stopped => if StartConditions(t, shouldStart, setupComplete) then Idle else Stopped
    case Idle => Idle
    case PinAccepted => if HoldExpired(t.now, entered) then Idle else PinAccepted
    case PinRejected => if HoldExpired(t.now, entered) then Idle else PinRejected
  }

  /** A tick's switch in `s` ends the verdict hold and clears the session. */
  predicate ClearsSession(s: State, t: Tick, entered: uint32)
  {
    (s == PinAccepted || s == PinRejected) && HoldExpired(t.now, entered)
  }

  /** A tick's switch in `s` increments the HOTP counter. */
  predicate BumpsCounter(s: State, mode: SecurityMode)
  {
    s == PinAccepted && mode == ModeHotp
  }

  class PinpadComponent {
    // The OTP generators of otp.h, not modelled.
    const hotpGenerate: HotpGenerator
    const totpGenerate: TotpGenerator

    var securityMode: SecurityMode
    // The configured passcode, one byte per element.
    var secretPasscode: seq<uint8>

    var shouldStart: bool
    var setupComplete: bool
    var state: State
    var incomingData: seq<uint8>
    var userId: string
    var cmdId: string

    // Subscribers of the three callback managers, in registration order.
    var stateCallbacks: seq<StateListener>
    var userSelectedCallbacks: seq<TriggerId>
    var userCommandCallbacks: seq<TriggerId>

    // The persisted HOTP counter preference.
    var hotpCounter: Option<uint32>

    // millis() when the current state was entered.
    var currentStateStart: uint32

    var statusIndicator: StatusIndicator

    // A stop() whose one-second timeout has not yet run.
    var stopPending: bool

    // Values the component writes into its characteristics.
    var statusValue: string
    var securityModeValue: string
    var hotpCounterValue: string
    var userIdValue: string
    var cmdValue: string
    var userCmdValue: string

    // Everything notified so far, in order.
    var events: seq<Event>

    /** Construction followed by `set_security_mode(mode, secret)`;
        `persisted` is what the preference store already holds. */
    constructor (mode: SecurityMode, secret: seq<uint8>, hotp: HotpGenerator, totp: TotpGenerator,
                 persisted: Option<uint32>)
      ensures state == Stopped && !shouldStart && !setupComplete && currentStateStart == 0
      ensures securityMode == mode && secretPasscode == secret
      ensures hotpGenerate == hotp && totpGenerate == totp && hotpCounter == persisted
      ensures incomingData == [] && userId == "" && cmdId == ""
      ensures stateCallbacks == [] && userSelectedCallbacks == [] && userCommandCallbacks == []
      ensures statusIndicator == Absent && !stopPending && events == []
    {
      hotpGenerate, totpGenerate := hotp, totp;
      securityMode, secretPasscode := mode, secret;
      shouldStart, setupComplete := false, false;
      state := Stopped;
      incomingData, userId, cmdId := [], "", "";
      stateCallbacks, userSelectedCallbacks, userCommandCallbacks := [], [], [];
      hotpCounter := persisted;
      currentStateStart := 0;
      statusIndicator := Absent;
      stopPending := false;
      statusValue, securityModeValue, hotpCounterValue := "", "", "";
      userIdValue, cmdValue, userCmdValue := "", "", "";
      events := [];
    }

    function IsActive(): bool
      reads this
    {
      state != Stopped
    }

    function IsAccepted(): bool
      reads this
    {
      state == PinAccepted
    }

    function IsRejected(): bool
      reads this
    {
      state == PinRejected
    }

    function GetUserId(): string
      reads this
    {
      userId
    }

    function GetCmd(): string
      reads this
    {
      cmdId
    }

    method AddOnStateCallback(l: StateListener)
      modifies this`stateCallbacks
      ensures stateCallbacks == old(stateCallbacks) + [l]
    {
      stateCallbacks := stateCallbacks + [l];
    }

    method AddOnUserSelectedCallback(trigger: TriggerId)
      modifies this`userSelectedCallbacks
      ensures userSelectedCallbacks == old(userSelectedCallbacks) + [trigger]
    {
      userSelectedCallbacks := userSelectedCallbacks + [trigger];
    }

    method AddOnUserCommandCallback(trigger: TriggerId)
      modifies this`userCommandCallbacks
      ensures userCommandCallbacks == old(userCommandCallbacks) + [trigger]
    {
      userCommandCallbacks := userCommandCallbacks + [trigger];
    }

    /** `set_status_indicator`: attach an output currently at level `isOn`. */
    method SetStatusIndicator(isOn: bool)
      modifies this`statusIndicator
      ensures statusIndicator == Output(isOn)
    {
      statusIndicator := Output(isOn);
    }

    /** The field effects of `setup()` and `setup_characteristics()`. */
    method Setup(loadOk: bool)
      modifies this`setupComplete, this`securityModeValue, this`hotpCounterValue, this`shouldStart
      ensures setupComplete
      ensures securityModeValue == SecurityModeName(securityMode)
      ensures hotpCounterValue == ToDecimal(Load(hotpCounter, loadOk) as nat)
      ensures shouldStart == (old(shouldStart) || state == Stopped)
    {
      securityModeValue := SecurityModeName(securityMode);
      var c := GetCurrentHotpCounter(loadOk);
      hotpCounterValue := ToDecimal(c as nat);
      setupComplete := true;
      Start();
    }

    /** `get_current_hotp_counter`: the stored counter, or 0 when the load
        fails or nothing was ever saved. */
    method GetCurrentHotpCounter(loadOk: bool) returns (c: uint32)
      ensures c == Load(hotpCounter, loadOk)
    {
      if loadOk && hotpCounter.Some? {
        c := hotpCounter.value;
      } else {
        c := 0;
      }
    }

    /** `increment_hotp_counter`: save the loaded value plus one (wrapping)
        and publish it; on a failed save return the loaded value. */
    method IncrementHotpCounter(loadOk: bool, saveOk: bool) returns (r: uint32)
      modifies this`hotpCounter, this`hotpCounterValue
      ensures saveOk ==> r == Add32(Load(old(hotpCounter), loadOk), 1)
      ensures !saveOk ==> r == Load(old(hotpCounter), loadOk)
      ensures hotpCounter == Increment(old(hotpCounter), loadOk, saveOk)
      ensures hotpCounterValue == if saveOk then ToDecimal(r as nat) else old(hotpCounterValue)
    {
      var current := GetCurrentHotpCounter(loadOk);
      var nextVal := Add32(current, 1);
      if saveOk {
        hotpCounter := Some(nextVal);
        hotpCounterValue := ToDecimal(nextVal as nat);
        r := nextVal;
      } else {
        Sub32UndoesAdd32(current, 1);
        r := Sub32(nextVal, 1);
      }
    }

    /** `set_state_`: a no-op for the current state; otherwise record the
        entry time, publish the status and call the state callbacks once,
        with the accessors reading the new state. */
    method SetState(s: State, now: uint32)
      modifies this`state, this`currentStateStart, this`statusValue, this`events
      ensures state == s
      ensures old(state) == s ==> currentStateStart == old(currentStateStart) && statusValue == old(statusValue)
      ensures old(state) != s ==> currentStateStart == now && statusValue == StatusName(s)
      ensures events == old(events) + StateChangeEvents(stateCallbacks, old(state), s, userId, cmdId)
    {
      if s == state {
        return;
      }
      state := s;
      currentStateStart := now;
      statusValue := StatusName(s);
      events := events + [StatusNotified(statusValue)];
      events := events + StateCallbackFanOut(stateCallbacks, state, GetUserId(), GetCmd());
    }

    /** `start()`: request a start, only while STOPPED. */
    method Start()
      modifies this`shouldStart
      ensures shouldStart == (old(shouldStart) || state == Stopped)
    {
      if state != Stopped {
        return;
      }
      shouldStart := true;
    }

    /** `stop()`: schedule the one-second stop timeout (rescheduling
        replaces a pending one). */
    method Stop()
      modifies this`stopPending
      ensures stopPending
    {
      stopPending := true;
    }

    /** The stop timeout running at `now`: the state becomes STOPPED.
        Session data is left as it is. */
    method StopTimeoutElapsed(now: uint32)
      modifies this`stopPending, this`state, this`currentStateStart, this`statusValue, this`events
      ensures !stopPending
      ensures state == (if old(stopPending) then Stopped else old(state))
      ensures events == old(events) + (if old(stopPending) then StateChangeEvents(stateCallbacks, old(state), Stopped, userId, cmdId) else [])
      ensures state == old(state) ==> currentStateStart == old(currentStateStart) && statusValue == old(statusValue)
      ensures state != old(state) ==> currentStateStart == now && statusValue == StatusName(Stopped)
    {
      if stopPending {
        stopPending := false;
        SetState(Stopped, now);
      }
    }

    /** The rpc characteristic's write handler: append a non-empty write. */
    method OnRpcWrite(data: seq<uint8>)
      modifies this`incomingData
      ensures incomingData == old(incomingData) + data
      ensures |old(incomingData)| <= |incomingData| && incomingData[..|old(incomingData)|] == old(incomingData)
    {
      if data != [] {
        incomingData := incomingData + data;
      }
    }

    /** The user-id characteristic's write handler. */
    method OnUserIdWrite(data: seq<uint8>)
      modifies this`userId, this`events
      ensures userId == BytesToString(data)
      ensures events == old(events) + UserSelectedFanOut(userSelectedCallbacks, userId)
    {
      userId := BytesToString(data);
      events := events + UserSelectedFanOut(userSelectedCallbacks, userId);
    }

    /** The cmd characteristic's write handler. */
    method OnCmdWrite(data: seq<uint8>)
      modifies this`cmdId, this`events
      ensures cmdId == BytesToString(data)
      ensures events == old(events) + UserCommandFanOut(userCommandCallbacks, cmdId)
    {
      cmdId := BytesToString(data);
      events := events + UserCommandFanOut(userCommandCallbacks, cmdId);
    }

    /** `clear_data`: forget the user and command, blank their
        characteristics and the user-commands characteristic. */
    method ClearData()
      modifies this`userId, this`cmdId, this`userIdValue, this`cmdValue, this`userCmdValue
      ensures userId == "" && cmdId == ""
      ensures userIdValue == "" && cmdValue == "" && userCmdValue == ""
    {
      userId, cmdId := "", "";
      userIdValue, cmdValue, userCmdValue := "", "", "";
    }

    /** `on_client_disconnect`, from any state. */
    method OnClientDisconnect(now: uint32)
      modifies this`incomingData, this`userId, this`cmdId, this`userIdValue, this`cmdValue, this`userCmdValue,
               this`state, this`currentStateStart, this`statusValue, this`events
      ensures incomingData == [] && userId == "" && cmdId == ""
      ensures userIdValue == "" && cmdValue == "" && userCmdValue == ""
      ensures state == Idle
      ensures events == old(events) + StateChangeEvents(stateCallbacks, old(state), Idle, "", "")
      ensures old(state) == Idle ==> currentStateStart == old(currentStateStart) && statusValue == old(statusValue)
      ensures old(state) != Idle ==> currentStateStart == now && statusValue == StatusName(Idle)
    {
      incomingData := [];
      ClearData();
      SetState(Idle, now);
    }

    /** The pin `validate_pin_` expects during tick `t`. */
    function ExpectedFor(t: Tick): string
      reads this`securityMode, this`secretPasscode, this`hotpCounter
    {
      ExpectedPin(securityMode, secretPasscode, Load(hotpCounter, t.loadOk), t.unixTime, hotpGenerate, totpGenerate)
    }

    /** `validate_pin_`: accept exactly the expected pin, in every state. */
    method ValidatePin(pin: string, t: Tick)
      modifies this`state, this`currentStateStart, this`statusValue, this`events
      ensures state == Verdict(pin, ExpectedFor(t))
      ensures state == PinAccepted <==> pin == ExpectedFor(t)
      ensures old(state) == state ==> currentStateStart == old(currentStateStart) && statusValue == old(statusValue)
      ensures old(state) != state ==> currentStateStart == t.now && statusValue == StatusName(state)
      ensures events == old(events) + StateChangeEvents(stateCallbacks, old(state), state, userId, cmdId)
    {
      var expected: string;
      match securityMode {
        case ModeHotp =>
          var counter := GetCurrentHotpCounter(t.loadOk);
          expected := ToDecimal(hotpGenerate(secretPasscode, counter) as nat);
        case ModeTotp =>
          expected := ToDecimal(totpGenerate(secretPasscode, t.unixTime) as nat);
        case ModeNone =>
          expected := BytesToString(secretPasscode);
      }
      if pin == expected {
        SetState(PinAccepted, t.now);
      } else {
        SetState(PinRejected, t.now);
      }
    }

    /** The state after the buffered rpc bytes are processed in tick `t`. */
    function IngestOutcome(t: Tick): State
      reads this`incomingData, this`state, this`securityMode, this`secretPasscode, this`hotpCounter
    {
      if incomingData == [] || |incomingData| > INPUT_MAX_LEN then state
      else Verdict(BytesToString(incomingData), ExpectedFor(t))
    }

    /** `process_incoming_data_`: check the buffer as a pin unless it is
        longer than INPUT_MAX_LEN; the buffer is emptied either way. */
    method ProcessIncomingData(t: Tick)
      modifies this`incomingData, this`state, this`currentStateStart, this`statusValue, this`events
      ensures incomingData == []
      ensures state == old(IngestOutcome(t)) && currentStateStart == old(IngestEntryTime(t))
      ensures |old(incomingData)| > INPUT_MAX_LEN ==> state == old(state) && events == old(events)
      ensures old(state) == state ==> currentStateStart == old(currentStateStart) && statusValue == old(statusValue)
      ensures old(state) != state ==> currentStateStart == t.now && statusValue == StatusName(state)
      ensures events == old(events) + StateChangeEvents(stateCallbacks, old(state), state, userId, cmdId)
    {
      if |incomingData| == 0 {
        return;
      }
      if |incomingData| <= INPUT_MAX_LEN {
        var candidatePin := BytesToString(incomingData);
        ValidatePin(candidatePin, t);
      }
      incomingData := [];
    }

    /** When the buffered bytes change the state in tick `t`, the entry time
        becomes the tick's clock reading. */
    function IngestEntryTime(t: Tick): uint32
      reads this`incomingData, this`state, this`securityMode, this`secretPasscode, this`hotpCounter,
            this`currentStateStart
    {
      if IngestOutcome(t) != state then t.now else currentStateStart
    }

    /** The first step of `loop()`: process the buffer when it holds data. */
    method IngestPending(t: Tick)
      modifies this`incomingData, this`state, this`currentStateStart, this`statusValue, this`events
      ensures incomingData == []
      ensures state == old(IngestOutcome(t)) && currentStateStart == old(IngestEntryTime(t))
      ensures statusValue == if state != old(state) then StatusName(state) else old(statusValue)
      ensures events == old(events) + StateChangeEvents(stateCallbacks, old(state), state, userId, cmdId)
    {
      if incomingData != [] {
        ProcessIncomingData(t);
      }
    }

    /** The hold check shared by the PIN_ACCEPTED and PIN_REJECTED arms of
        `loop()`: once more than 500 ms have passed since the state was
        entered, return to IDLE and clear the user and command. */
    method EndHoldIfExpired(now: uint32)
      modifies this`state, this`currentStateStart, this`statusValue, this`events,
               this`userId, this`cmdId, this`userIdValue, this`cmdValue, this`userCmdValue
      ensures HoldExpired(now, old(currentStateStart)) ==>
                state == Idle && userId == "" && cmdId == ""
                && userIdValue == "" && cmdValue == "" && userCmdValue == ""
                && events == old(events) + StateChangeEvents(stateCallbacks, old(state), Idle, old(userId), old(cmdId))
                && (old(state) != Idle ==> currentStateStart == now && statusValue == StatusName(Idle))
                && (old(state) == Idle ==> currentStateStart == old(currentStateStart) && statusValue == old(statusValue))
      ensures !HoldExpired(now, old(currentStateStart)) ==>
                state == old(state) && currentStateStart == old(currentStateStart) && statusValue == old(statusValue)
                && events == old(events) && userId == old(userId) && cmdId == old(cmdId)
                && userIdValue == old(userIdValue) && cmdValue == old(cmdValue) && userCmdValue == old(userCmdValue)
    {
      if HoldExpired(now, currentStateStart) {
        SetState(Idle, now);
        ClearData();
      }
    }

    /** The PIN_ACCEPTED arm of `loop()`: light the indicator, bump the
        counter in HOTP mode, then end the hold once it has expired. */
    method PollAccepted(t: Tick)
      requires state == PinAccepted
      modifies this`state, this`currentStateStart, this`statusValue, this`events,
               this`userId, this`cmdId, this`userIdValue, this`cmdValue, this`userCmdValue,
               this`statusIndicator, this`hotpCounter, this`hotpCounterValue
      ensures statusIndicator == TurnOn(old(statusIndicator))
      ensures hotpCounter == if securityMode == ModeHotp then Increment(old(hotpCounter), t.loadOk, t.saveOk) else old(hotpCounter)
      ensures hotpCounterValue == if securityMode == ModeHotp && t.saveOk
                                  then ToDecimal(Add32(Load(old(hotpCounter), t.loadOk), 1) as nat)
                                  else old(hotpCounterValue)
      ensures HoldExpired(t.now, old(currentStateStart)) ==>
                state == Idle && userId == "" && cmdId == ""
                && userIdValue == "" && cmdValue == "" && userCmdValue == ""
                && events == old(events) + StateChangeEvents(stateCallbacks, PinAccepted, Idle, old(userId), old(cmdId))
                && currentStateStart == t.now && statusValue == StatusName(Idle)
      ensures !HoldExpired(t.now, old(currentStateStart)) ==>
                state == PinAccepted && currentStateStart == old(currentStateStart) && statusValue == old(statusValue)
                && events == old(events) && userId == old(userId) && cmdId == old(cmdId)
                && userIdValue == old(userIdValue) && cmdValue == old(cmdValue) && userCmdValue == old(userCmdValue)
    {
      statusIndicator := TurnOn(statusIndicator);
      if securityMode == ModeHotp {
        var _ := IncrementHotpCounter(t.loadOk, t.saveOk);
      }
      EndHoldIfExpired(t.now);
    }

    /** The per-state switch of `loop()`, run on the state left by the
        buffer processing. */
    method PollState(t: Tick)
      modifies this`state, this`currentStateStart, this`statusValue, this`events,
               this`userId, this`cmdId, this`userIdValue, this`cmdValue, this`userCmdValue,
               this`shouldStart, this`statusIndicator, this`hotpCounter, this`hotpCounterValue
      ensures state == PollOutcome(old(state), t, old(shouldStart), setupComplete, old(currentStateStart))
      ensures shouldStart == (old(shouldStart) && !(old(state) == Stopped && StartConditions(t, old(shouldStart), setupComplete)))
      ensures currentStateStart == if state != old(state) then t.now else old(currentStateStart)
      ensures statusValue == if state != old(state) then StatusName(state) else old(statusValue)
      ensures events == old(events) + StateChangeEvents(stateCallbacks, old(state), state, old(userId), old(cmdId))
      ensures ClearsSession(old(state), t, old(currentStateStart)) ==>
                userId == "" && cmdId == "" && userIdValue == "" && cmdValue == "" && userCmdValue == ""
      ensures !ClearsSession(old(state), t, old(currentStateStart)) ==>
                userId == old(userId) && cmdId == old(cmdId) && userIdValue == old(userIdValue)
                && cmdValue == old(cmdValue) && userCmdValue == old(userCmdValue)
      ensures hotpCounter == if BumpsCounter(old(state), securityMode)
                             then Increment(old(hotpCounter), t.loadOk, t.saveOk)
                             else old(hotpCounter)
      ensures hotpCounterValue == if BumpsCounter(old(state), securityMode) && t.saveOk
                                  then ToDecimal(Add32(Load(old(hotpCounter), t.loadOk), 1) as nat)
                                  else old(hotpCounterValue)
      ensures statusIndicator == DriveIndicator(old(statusIndicator), old(state))
    {
      var now := t.now;
      match state {
        case Stopped =>
          statusIndicator := TurnOff(statusIndicator);
          if t.serviceCreated && shouldStart && setupComplete {
            if t.serviceRunning {
              SetState(Idle, now);
              shouldStart := false;
            }
          }
        case Idle =>
          statusIndicator := TurnOff(statusIndicator);
        case PinAccepted =>
          PollAccepted(t);
        case PinRejected =>
          EndHoldIfExpired(now);
      }
    }

    /** `loop()`: process buffered bytes, then act on the resulting state
        (entered at the resulting entry time). */
    method Loop(t: Tick)
      modifies this`incomingData, this`state, this`currentStateStart, this`statusValue, this`events,
               this`userId, this`cmdId, this`userIdValue, this`cmdValue, this`userCmdValue,
               this`shouldStart, this`statusIndicator, this`hotpCounter, this`hotpCounterValue
      ensures incomingData == []
      ensures state == PollOutcome(old(IngestOutcome(t)), t, old(shouldStart), setupComplete, old(IngestEntryTime(t)))
      ensures shouldStart == (old(shouldStart) && !(old(IngestOutcome(t)) == Stopped && StartConditions(t, old(shouldStart), setupComplete)))
      ensures currentStateStart == if state != old(IngestOutcome(t)) then t.now else old(IngestEntryTime(t))
      ensures statusValue == if state != old(state) then StatusName(state) else old(statusValue)
      ensures events == old(events)
                        + StateChangeEvents(stateCallbacks, old(state), old(IngestOutcome(t)), old(userId), old(cmdId))
                        + StateChangeEvents(stateCallbacks, old(IngestOutcome(t)), state, old(userId), old(cmdId))
      ensures ClearsSession(old(IngestOutcome(t)), t, old(IngestEntryTime(t))) ==>
                userId == "" && cmdId == "" && userIdValue == "" && cmdValue == "" && userCmdValue == ""
      ensures !ClearsSession(old(IngestOutcome(t)), t, old(IngestEntryTime(t))) ==>
                userId == old(userId) && cmdId == old(cmdId) && userIdValue == old(userIdValue)
                && cmdValue == old(cmdValue) && userCmdValue == old(userCmdValue)
      ensures hotpCounter == if BumpsCounter(old(IngestOutcome(t)), securityMode)
                             then Increment(old(hotpCounter), t.loadOk, t.saveOk)
                             else old(hotpCounter)
      ensures hotpCounterValue == if BumpsCounter(old(IngestOutcome(t)), securityMode) && t.saveOk
                                  then ToDecimal(Add32(Load(old(hotpCounter), t.loadOk), 1) as nat)
                                  else old(hotpCounterValue)
      ensures statusIndicator == DriveIndicator(old(statusIndicator), old(IngestOutcome(t)))
    {
      IngestPending(t);
      PollState(t);
    }
  }

  /** The accessors agree with one another. */
  lemma AccessorsConsistent(c: PinpadComponent)
    ensures c.IsActive() <==> c.state != Stopped
    ensures !(c.IsAccepted() && c.IsRejected())
    ensures c.IsAccepted() || c.IsRejected() ==> c.IsActive()
    ensures c.GetUserId() == c.userId && c.GetCmd() == c.cmdId
  {
  }
}
