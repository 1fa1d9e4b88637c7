# BLE pinpad controller, modelled in Dafny

This project models the controller of the ESPHome `esp32_ble_pinpad` component
(`ESP32BLEPinpadComponent`). A peer writes a pin to the rpc characteristic. The
component checks the pin on its next `loop()` tick and enters PIN_ACCEPTED or
PIN_REJECTED. It holds that verdict for more than 500 ms and then falls back to
IDLE, clearing the selected user and command. In HOTP mode it increments the
persisted counter, and it notifies the automation triggers of `automation.h`.

Files and modules:

- `pinpad_types.dfy` (`PinpadTypes`): the `State` and `SecurityMode` enumerations with their byte codes. It also holds `INPUT_MAX_LEN` (255), `VALIDATION_STATE_HOLD_MILLIS` (500), `uint32_t` arithmetic written out modulo 2^32, the hold test `now - current_state_start_ > 500`, and the byte-to-`std::string` conversion.
- `decimal.dfy` (`Decimal`): `std::to_string` on unsigned values, its inverse, and the zero-padded 6-digit rendering of section 5.3 of RFC 4226.
- `counter_store.dfy` (`CounterStore`): the preference that stores the HOTP counter. A load or save can fail.
- `pin_check.dfy` (`PinCheck`): the expected pin of `validate_pin_` in each security mode, and the verdict.
- `automation.dfy` (`Automation`): the four triggers and the callback fan-out that reaches them.
- `pinpad.dfy` (`Pinpad`): the component as a class. Its fields are those of the header (state, `should_start_`, `setup_complete_`, the incoming buffer, user and command, subscriber lists, the persisted counter, the entry time, the indicator, and the values written to characteristics). Its methods are `loop()`, `set_state_`, `start`, `stop`, `process_incoming_data_`, `validate_pin_`, the counter accessors, `clear_data`, `on_client_disconnect`, and the three write handlers. The `events` field records, in order, both the status notifications sent to the peer through the status characteristic and the automation triggers fired.

What the framework provides during one `loop()` tick arrives as a `Tick` value. That covers `millis()`, the wall clock read by TOTP, whether the service is created and running, and whether preference loads and saves succeed. The HOTP and TOTP generators of `otp.h` are functions given to the constructor. The configured secret is a sequence of bytes. The NONE mode's expected pin is those bytes as a `std::string`, as the pin itself is.

## Behaviour as written

The model follows the code, including where the code departs from the behaviour one might expect:

- Pin checks run from `loop()` in every state, even STOPPED (esp32_ble_pinpad_component.cpp:134-135).
- NONE mode compares the pin against the configured secret. It does not accept every pin (esp32_ble_pinpad_component.cpp:282-284).
- The verdict is held while `now - entry <= 500` on wrapping `uint32_t` arithmetic. The revert happens at 501 ms, not at 500 ms.
- In HOTP mode the counter is incremented on every loop tick that runs the PIN_ACCEPTED arm, including the tick that accepts the pin and the tick that reverts to IDLE. It is not incremented once per attempt, and never after a rejection (esp32_ble_pinpad_component.cpp:161-180).
- If a counter load fails, increments start again from 0. A failed load followed by a successful save therefore stores 1.
- Expected OTP codes are rendered with `std::to_string` and are not zero-padded. A code below 100000, typed in its 6-digit form, is always rejected.
- `stop()` only schedules the move to STOPPED. It does not clear the user, the command or the buffer.
- `on_client_disconnect` moves to IDLE from any state, STOPPED included.
- `user_command_callback_` is used but not declared in the header's field list. The model gives it a field, `userCommandCallbacks`.

## Model

| member | source | states |
|---|---|---|
| PinpadTypes.StateCodesDistinct | components/esp32_ble_pinpad/esp32_ble_pinpad_component.h:38-43 | the four State codes are 0x00..0x03 and pairwise distinct |
| PinpadTypes.SecurityModeCodesDistinct | components/esp32_ble_pinpad/esp32_ble_pinpad_component.h:45-49 | the three SecurityMode codes are 0x00..0x02 and pairwise distinct |
| PinpadTypes.WrappingIsModular | components/esp32_ble_pinpad/esp32_ble_pinpad_component.cpp:124 | the model's uint32_t addition and subtraction are exactly arithmetic modulo 2^32 |
| PinpadTypes.Sub32UndoesAdd32 | components/esp32_ble_pinpad/esp32_ble_pinpad_component.cpp:124-130 | `(x + 1) - 1 == x` on uint32_t even at 2^32 - 1, so a failed save returns the value it started from |
| PinpadTypes.HoldExpiredIff | components/esp32_ble_pinpad/esp32_ble_pinpad_component.cpp:168-179 | d ms after entry (wrapping), the hold test holds iff d > 500; at exactly 500 ms it does not |
| PinpadTypes.BytesToString | components/esp32_ble_pinpad/esp32_ble_pinpad_component.cpp:251 | the candidate pin has one character per buffered byte, with the byte's value, in order |
| PinpadTypes.BytesToStringInjective | components/esp32_ble_pinpad/esp32_ble_pinpad_component.cpp:251 | two byte strings with the same `std::string` are equal, so comparing strings is comparing bytes |
| Decimal.ToDecimal | components/esp32_ble_pinpad/esp32_ble_pinpad_component.cpp:270 | std::to_string yields a non-empty string of decimal digits with no leading zero unless the value is 0 |
| Decimal.ParseToDecimal | components/esp32_ble_pinpad/esp32_ble_pinpad_component.cpp:270 | reading a rendering back as a decimal number gives the value rendered |
| Decimal.ToDecimalInjective | components/esp32_ble_pinpad/esp32_ble_pinpad_component.cpp:279 | distinct codes have distinct expected strings |
| Decimal.ToDecimalLengthBound | components/esp32_ble_pinpad/esp32_ble_pinpad_component.cpp:264-270 | a value below 10^k renders in at most k digits |
| Decimal.ZeroPadded | components/esp32_ble_pinpad/esp32_ble_pinpad_component.cpp:264-268 | the RFC 4226 rendering of a code: decimal digits, exactly `width` of them when the code fits |
| Decimal.ZeroPaddedValue | components/esp32_ble_pinpad/esp32_ble_pinpad_component.cpp:264-268 | the padded rendering denotes the code itself: reading it back as a decimal number gives n |
| Decimal.LeadingZeroRenderingsDiffer | components/esp32_ble_pinpad/esp32_ble_pinpad_component.cpp:264-270 | for a code below 100000 the 6-digit rendering starts with '0' and differs from std::to_string's |
| CounterStore.IncrementFaults | components/esp32_ble_pinpad/esp32_ble_pinpad_component.cpp:114-131 | an increment whose save fails leaves the store as it was; one whose load fails and save succeeds stores 1 |
| CounterStore.IncrementsAdvanceCounter | components/esp32_ble_pinpad/esp32_ble_pinpad_component.cpp:114-131 | from a stored value v, n fault-free increments store v + n modulo 2^32 |
| PinCheck.ExpectedPin | components/esp32_ble_pinpad/esp32_ble_pinpad_component.cpp:259-286 | in HOTP and TOTP mode the expected pin is a non-empty digit string without leading zeros |
| PinCheck.NoneModeAcceptsOnlySecret | components/esp32_ble_pinpad/esp32_ble_pinpad_component.cpp:282-296 | NONE mode accepts an rpc payload iff its bytes are exactly the secret's; the secret with one byte appended is rejected |
| PinCheck.HotpAcceptsOnlyCurrentCode | components/esp32_ble_pinpad/esp32_ble_pinpad_component.cpp:262-296 | HOTP mode accepts a pin iff it is the rendering of hotp_generate(secret, current counter) |
| PinCheck.HotpCountersDisagree | components/esp32_ble_pinpad/esp32_ble_pinpad_component.cpp:262-271 | no pin is accepted at two counters whose generated codes differ |
| PinCheck.TotpIgnoresCounter | components/esp32_ble_pinpad/esp32_ble_pinpad_component.cpp:273-281 | the TOTP expected pin does not depend on the HOTP counter |
| PinCheck.OtpModesRejectNonCanonical | components/esp32_ble_pinpad/esp32_ble_pinpad_component.cpp:270-290 | in the OTP modes, an empty pin, a pin with a non-digit, or a pin with a leading zero is rejected |
| PinCheck.HotpLeadingZeroCodeRejected | components/esp32_ble_pinpad/esp32_ble_pinpad_component.cpp:264-270 | a HOTP code below 100000 entered as its 6 RFC 4226 digits, a string that denotes the code itself, is rejected |
| Automation.OnStateCallback | components/esp32_ble_pinpad/automation.h:10-30 | a trigger fires iff it is an accepted trigger and the pad is accepted, or a rejected trigger and the pad is rejected; it fires with (user, cmd) read at that moment |
| Automation.StateCallbackFanOut | components/esp32_ble_pinpad/automation.h:13-28 | one state-callback call fires no more events than there are subscribers; entering IDLE or STOPPED fires none; every event is of the new verdict's kind, carries (user, cmd) and comes from a subscriber listening for the new state |
| Automation.FanOutFiresEveryListener | components/esp32_ble_pinpad/automation.h:13-17 | every subscriber listening for the new state fires |
| Automation.FanOutInRegistrationOrder | components/esp32_ble_pinpad/automation.h:10-30 | triggers fire in registration order: the k-th event goes to the k-th subscriber listening for the new state |
| Automation.FanOutCount | components/esp32_ble_pinpad/automation.h:24-28 | the number of triggers fired equals the number of subscribers listening for the new state |
| Automation.UserSelectedFanOut | components/esp32_ble_pinpad/automation.h:39-46 | each user-selected trigger, in registration order, gets the user id unchanged |
| Automation.UserCommandFanOut | components/esp32_ble_pinpad/automation.h:31-38 | each user-command trigger, in registration order, gets the command unchanged |
| Pinpad.StatusNamesDistinct | components/esp32_ble_pinpad/esp32_ble_pinpad_component.cpp:194-209 | each state publishes exactly one of "stopped"/"idle"/"accepted"/"rejected", a different one per state |
| Pinpad.StateChangeNotifiesOnce | components/esp32_ble_pinpad/esp32_ble_pinpad_component.cpp:184-214 | a state change notifies the status exactly once, first; no change notifies nothing; entering IDLE or STOPPED fires no trigger |
| Pinpad.AccessorsConsistent | components/esp32_ble_pinpad/esp32_ble_pinpad_component.h:69-80 | is_active iff not STOPPED; is_accepted and is_rejected never both hold and each implies is_active; get_userid/get_cmd return the fields |
| Pinpad.PinpadComponent.constructor | components/esp32_ble_pinpad/esp32_ble_pinpad_component.h:87-116 | the pad starts STOPPED, with should_start_ and setup_complete_ false, entry time 0, empty buffer, user and cmd, and no subscribers |
| Pinpad.PinpadComponent.AddOnStateCallback | components/esp32_ble_pinpad/esp32_ble_pinpad_component.h:72 | appends exactly one state subscriber; its frame leaves every other field unchanged |
| Pinpad.PinpadComponent.AddOnUserSelectedCallback | components/esp32_ble_pinpad/esp32_ble_pinpad_component.h:73-75 | appends exactly one user-selected subscriber and changes nothing else |
| Pinpad.PinpadComponent.AddOnUserCommandCallback | components/esp32_ble_pinpad/esp32_ble_pinpad_component.h:76-78 | appends exactly one user-command subscriber and changes nothing else |
| Pinpad.PinpadComponent.SetStatusIndicator | components/esp32_ble_pinpad/esp32_ble_pinpad_component.h:82 | attaches the indicator output |
| Pinpad.PinpadComponent.Setup | components/esp32_ble_pinpad/esp32_ble_pinpad_component.cpp:26-111 | setup marks setup_complete_, publishes the mode name and the loaded counter, then requests a start |
| Pinpad.PinpadComponent.GetCurrentHotpCounter | components/esp32_ble_pinpad/esp32_ble_pinpad_component.cpp:114-121 | returns what a load of the store reports: the stored counter, or 0 when the load fails or nothing is stored |
| Pinpad.PinpadComponent.IncrementHotpCounter | components/esp32_ble_pinpad/esp32_ble_pinpad_component.cpp:123-131 | the store becomes one increment of the old store; on a successful save it publishes and returns loaded + 1 (mod 2^32); on a failed save it returns the loaded value and changes nothing |
| Pinpad.PinpadComponent.SetState | components/esp32_ble_pinpad/esp32_ble_pinpad_component.cpp:184-214 | the same state changes nothing; otherwise it sets the state, the entry time and the status text, then calls the state callbacks once with the new state, user and cmd |
| Pinpad.PinpadComponent.Start | components/esp32_ble_pinpad/esp32_ble_pinpad_component.cpp:216-223 | sets should_start_ only when STOPPED |
| Pinpad.PinpadComponent.Stop | components/esp32_ble_pinpad/esp32_ble_pinpad_component.cpp:225-231 | schedules the stop; stopping twice schedules it once |
| Pinpad.PinpadComponent.StopTimeoutElapsed | components/esp32_ble_pinpad/esp32_ble_pinpad_component.cpp:227-230 | a pending stop moves to STOPPED through set_state_: entry time, "stopped" status text and notifications only if the state changed; session data is left as it is |
| Pinpad.PinpadComponent.OnRpcWrite | components/esp32_ble_pinpad/esp32_ble_pinpad_component.cpp:49-53 | a write appends its bytes after the existing buffer, keeping the prefix; an empty write changes nothing |
| Pinpad.PinpadComponent.OnUserIdWrite | components/esp32_ble_pinpad/esp32_ble_pinpad_component.cpp:87-91 | stores the written user id and forwards it, unchanged, to every user-selected trigger |
| Pinpad.PinpadComponent.OnCmdWrite | components/esp32_ble_pinpad/esp32_ble_pinpad_component.cpp:97-101 | stores the written command and forwards it, unchanged, to every user-command trigger |
| Pinpad.PinpadComponent.ClearData | components/esp32_ble_pinpad/esp32_ble_pinpad_component.cpp:305-312 | empties user and cmd and blanks the user, cmd and user-commands characteristic values |
| Pinpad.PinpadComponent.OnClientDisconnect | components/esp32_ble_pinpad/esp32_ble_pinpad_component.cpp:299-303 | from any state: empty buffer, user and cmd, state IDLE; entry time, status text and the state callback change only if the state changed |
| Pinpad.PinpadComponent.ValidatePin | components/esp32_ble_pinpad/esp32_ble_pinpad_component.cpp:257-297 | ends in PIN_ACCEPTED iff the pin equals the expected pin, otherwise PIN_REJECTED; its frame excludes the counter, which it never changes |
| Pinpad.PinpadComponent.ProcessIncomingData | components/esp32_ble_pinpad/esp32_ble_pinpad_component.cpp:240-255 | the buffer is empty afterwards on every path; a buffer over 255 bytes leaves state and events unchanged; otherwise the state is the pin's verdict |
| Pinpad.PinpadComponent.IngestPending | components/esp32_ble_pinpad/esp32_ble_pinpad_component.cpp:134-135 | the buffer ends empty; the state and entry time are those the buffered pin leads to, with status text and notifications only on a change |
| Pinpad.PinpadComponent.EndHoldIfExpired | components/esp32_ble_pinpad/esp32_ble_pinpad_component.cpp:168-179 | once more than 500 ms have passed since entry: IDLE with user and cmd cleared; otherwise nothing changes |
| Pinpad.PinpadComponent.PollAccepted | components/esp32_ble_pinpad/esp32_ble_pinpad_component.cpp:161-173 | lights the indicator, applies one counter increment in HOTP mode only, and past the hold returns to IDLE with the session cleared and one "idle" notification; otherwise state, session and events are unchanged |
| Pinpad.PinpadComponent.PollState | components/esp32_ble_pinpad/esp32_ble_pinpad_component.cpp:136-181 | STOPPED moves to IDLE and clears should_start_ exactly when the four start conditions hold; the verdict states revert past the hold; only PIN_ACCEPTED in HOTP mode touches the counter; the indicator is off, on or untouched by state |
| Pinpad.PinpadComponent.Loop | components/esp32_ble_pinpad/esp32_ble_pinpad_component.cpp:133-182 | one tick: the buffer ends empty, the state is the switch's outcome on the state after pin checking, events are the checking's state change then the switch's, and the counter is bumped once iff HOTP mode and the post-check state is PIN_ACCEPTED |

## Left out

- BLE plumbing: service and characteristic creation, descriptors, advertising, `notify()` transport, and `service_->start()/stop()` are framework I/O. The STOPPED arm's call to `service_->start()` when the service exists but is not running has no modelled effect. Whether the service is created and running comes in through the `Tick`.
- The OTP generators of `otp.h` (HMAC-based HOTP and TOTP) are not part of this model. They are given as uninterpreted functions returning a `uint32_t`. TOTP's wall clock is the tick's `unixTime`.
- The preferences backend is reduced to an optional stored value. The `Tick` says whether loads and saves succeed, so all loads in one tick succeed or fail together, and so do all saves.
- `millis()` is read once per tick. The source reads `now` after `process_incoming_data_` has run (esp32_ble_pinpad_component.cpp:134-136), and `set_state_` reads the clock again for the entry time (esp32_ble_pinpad_component.cpp:191). The model uses one value for both. This is sound because the entry time a pin check records is never later than the `now` the switch then compares it with. With equal values the elapsed time is 0, so a verdict is never reverted in the tick that reached it, as in the source.
- The one-second `set_timeout` of `stop()` is a pending flag. `StopTimeoutElapsed` applies it.
- Logging (`ESP_LOG*`), `dump_config`, `get_setup_priority` and `set_user_commands` are not modelled. Neither is the build-time configuration in `__init__.py`.
- Concurrency: BLE write handlers are modelled as serialized events between `loop()` calls.
- State-callback subscribers are only the automation triggers. What a trigger's automation does downstream is not modelled, only that it fires and with which arguments.
- `security_mode_` is uninitialised in the constructor. The model takes the mode and secret at construction, as the generated setup code calls `set_security_mode` right after construction.
