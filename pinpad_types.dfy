/** Enumerations, constants and fixed-width arithmetic shared by the pinpad
    component (esp32_ble_pinpad_component.h). */
module PinpadTypes {

  /** A `uint8_t`. */
  newtype uint8 = x: int | 0 <= x < 0x100

  /** A `uint32_t`; all arithmetic on it wraps modulo 2^32 (Add32, Sub32). */
  newtype uint32 = x: int | 0 <= x < 0x1_0000_0000

  const TWO_POW_32: int := 0x1_0000_0000

  datatype Option<T> = None | Some(value: T)

  /** Longest rpc payload that is still checked as a pin. */
  const INPUT_MAX_LEN: nat := 255

  /** How long PIN_ACCEPTED / PIN_REJECTED are held before the pad reverts. */
  const VALIDATION_STATE_HOLD_MILLIS: uint32 := 500

  datatype State = Stopped | Idle | PinAccepted | PinRejected

  datatype SecurityMode = ModeNone | ModeHotp | ModeTotp

  /** The byte value of each `State` enumerator. */
  function StateCode(s: State): uint8
  {
    match s
    case Stopped => 0x00
    case Idle => 0x01
    case PinAccepted => 0x02
    case PinRejected => 0x03
  }

  /** The byte value of each `SecurityMode` enumerator. */
  function SecurityModeCode(m: SecurityMode): uint8
  {
    match m
    case ModeNone => 0x00
    case ModeHotp => 0x01
    case ModeTotp => 0x02
  }

  lemma StateCodesDistinct(s: State, t: State)
    ensures StateCode(s) == StateCode(t) <==> s == t
    ensures StateCode(s) <= 0x03
  {
  }

  lemma SecurityModeCodesDistinct(m: SecurityMode, n: SecurityMode)
    ensures SecurityModeCode(m) == SecurityModeCode(n) <==> m == n
    ensures SecurityModeCode(m) <= 0x02
  {
  }

  /** `a + b` on `uint32_t`: the sum modulo 2^32 (both operands are below
      2^32, so at most one wrap). */
  function Add32(a: uint32, b: uint32): uint32
  {
    if a as int + b as int < TWO_POW_32 then (a as int + b as int) as uint32
    else (a as int + b as int - TWO_POW_32) as uint32
  }

  /** `a - b` on `uint32_t`: the difference modulo 2^32. */
  function Sub32(a: uint32, b: uint32): uint32
  {
    if a >= b then (a as int - b as int) as uint32
    else (a as int - b as int + TWO_POW_32) as uint32
  }

  /** Add32 and Sub32 are addition and subtraction modulo 2^32. */
  lemma WrappingIsModular(a: uint32, b: uint32)
    ensures Add32(a, b) as int == (a as int + b as int) % TWO_POW_32
    ensures Sub32(a, b) as int == (a as int - b as int) % TWO_POW_32
  {
  }

  /** Subtracting undoes adding, across the wrap-around too. */
  lemma Sub32UndoesAdd32(a: uint32, b: uint32)
    ensures Sub32(Add32(a, b), b) == a
    ensures Add32(b, Sub32(a, b)) == a
  {
    var s := a as int + b as int;
    if s < TWO_POW_32 {
      assert Add32(a, b) as int == s;
    } else {
      assert Add32(a, b) as int == s - TWO_POW_32;
    }
    var d := a as int - b as int;
    if d >= 0 {
      assert Sub32(a, b) as int == d;
    } else {
      assert Sub32(a, b) as int == d + TWO_POW_32;
    }
  }

  /** `now - start` on `uint32_t`: the milliseconds since `start` on a clock
      that wraps every 2^32 ms. */
  function ElapsedMillis(now: uint32, start: uint32): uint32
  {
    Sub32(now, start)
  }

  /** The loop's test `now - current_state_start_ > VALIDATION_STATE_HOLD_MILLIS`. */
  predicate HoldExpired(now: uint32, start: uint32)
  {
    ElapsedMillis(now, start) > VALIDATION_STATE_HOLD_MILLIS
  }

  /** A reading taken `d` ms after `start` (wrapping) has expired the hold
      exactly when `d` exceeds 500 ms; at exactly 500 ms it has not. */
  lemma HoldExpiredIff(start: uint32, d: uint32)
    ensures HoldExpired(Add32(start, d), start) <==> d > 500
    ensures !HoldExpired(Add32(start, 500), start)
  {
    var s := start as int + d as int;
    if s < TWO_POW_32 {
      assert Add32(start, d) as int == s;
    } else {
      assert Add32(start, d) as int == s - TWO_POW_32;
    }
    assert ElapsedMillis(Add32(start, d), start) == d;
    var s5 := start as int + 500;
    if s5 < TWO_POW_32 {
      assert Add32(start, 500) as int == s5;
    } else {
      assert Add32(start, 500) as int == s5 - TWO_POW_32;
    }
    assert ElapsedMillis(Add32(start, 500), start) == 500;
  }

  /** `std::string(bytes.begin(), bytes.end())`: one character per byte. */
  function BytesToString(bytes: seq<uint8>): (s: string)
    ensures |s| == |bytes|
    ensures forall i :: 0 <= i < |s| ==> s[i] as int == bytes[i] as int
  {
    if bytes == [] then [] else BytesToString(bytes[..|bytes| - 1]) + [(bytes[|bytes| - 1] as int) as char]
  }

  /** Distinct byte strings give distinct `std::string`s. */
  lemma BytesToStringInjective(a: seq<uint8>, b: seq<uint8>)
    requires BytesToString(a) == BytesToString(b)
    ensures a == b
  {
    var sa, sb := BytesToString(a), BytesToString(b);
    assert |a| == |b|;
    forall i | 0 <= i < |a|
      ensures a[i] == b[i]
    {
      assert a[i] as int == sa[i] as int == sb[i] as int == b[i] as int;
    }
  }
}
