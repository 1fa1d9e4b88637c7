/** The pin comparison of `validate_pin_`: which string a submitted pin must
    equal in each security mode. The OTP generators are not modelled; they
    are passed in as functions of the secret and the moving factor. */
module PinCheck {
  import opened PinpadTypes
  import opened Decimal

  /** `otp::hotp_generate(secret, counter, 6)` on the secret's bytes. */
  type HotpGenerator = (seq<uint8>, uint32) -> uint32

  /** `otp::totp_generate(secret)` on the secret's bytes, at wall-clock time
      `unixTime`. */
  type TotpGenerator = (seq<uint8>, int) -> uint32

  /** The expected pin: the secret's bytes as a string in NONE mode,
      otherwise the unpadded decimal rendering of the generated code. */
  function ExpectedPin(mode: SecurityMode, secret: seq<uint8>, counter: uint32, unixTime: int,
                       hotp: HotpGenerator, totp: TotpGenerator): (r: string)
    ensures mode != ModeNone ==> |r| >= 1 && IsDigits(r) && (r[0] == '0' ==> |r| == 1)
  {
    match mode
    case ModeHotp => ToDecimal(hotp(secret, counter) as nat)
    case ModeTotp => ToDecimal(totp(secret, unixTime) as nat)
    case ModeNone => BytesToString(secret)
  }

  /** The state `validate_pin_` asks for. */
  function Verdict(pin: string, expected: string): State
  {
    if pin == expected then PinAccepted else PinRejected
  }

  /** NONE mode accepts exactly the rpc payload whose bytes are the
      configured secret's, and nothing else. */
  lemma NoneModeAcceptsOnlySecret(payload: seq<uint8>, secret: seq<uint8>, counter: uint32, unixTime: int,
                                  hotp: HotpGenerator, totp: TotpGenerator)
    ensures Verdict(BytesToString(payload), ExpectedPin(ModeNone, secret, counter, unixTime, hotp, totp)) == PinAccepted
            <==> payload == secret
    ensures Verdict(BytesToString(secret + [0x3F]), ExpectedPin(ModeNone, secret, counter, unixTime, hotp, totp))
            == PinRejected
  {
    if BytesToString(payload) == BytesToString(secret) {
      BytesToStringInjective(payload, secret);
    }
    assert |BytesToString(secret + [0x3F])| != |BytesToString(secret)|;
  }

  /** HOTP mode accepts exactly the rendering of the code for the current
      counter, whatever the clock says. */
  lemma HotpAcceptsOnlyCurrentCode(pin: string, secret: seq<uint8>, counter: uint32, unixTime: int,
                                   hotp: HotpGenerator, totp: TotpGenerator)
    ensures Verdict(pin, ExpectedPin(ModeHotp, secret, counter, unixTime, hotp, totp)) == PinAccepted
            <==> pin == ToDecimal(hotp(secret, counter) as nat)
  {
  }

  /** Two counters whose generated codes differ never accept the same pin. */
  lemma HotpCountersDisagree(pin: string, secret: seq<uint8>, c1: uint32, c2: uint32, unixTime: int,
                             hotp: HotpGenerator, totp: TotpGenerator)
    requires hotp(secret, c1) != hotp(secret, c2)
    ensures Verdict(pin, ExpectedPin(ModeHotp, secret, c1, unixTime, hotp, totp)) == PinRejected
         || Verdict(pin, ExpectedPin(ModeHotp, secret, c2, unixTime, hotp, totp)) == PinRejected
  {
    if pin == ToDecimal(hotp(secret, c1) as nat) && pin == ToDecimal(hotp(secret, c2) as nat) {
      ToDecimalInjective(hotp(secret, c1) as nat, hotp(secret, c2) as nat);
    }
  }

  /** TOTP mode ignores the HOTP counter. */
  lemma TotpIgnoresCounter(secret: seq<uint8>, c1: uint32, c2: uint32, unixTime: int,
                           hotp: HotpGenerator, totp: TotpGenerator)
    ensures ExpectedPin(ModeTotp, secret, c1, unixTime, hotp, totp)
         == ExpectedPin(ModeTotp, secret, c2, unixTime, hotp, totp)
  {
  }

  /** In the OTP modes a pin holding a non-digit, or a zero-padded pin, is
      always rejected. */
  lemma OtpModesRejectNonCanonical(pin: string, mode: SecurityMode, secret: seq<uint8>, counter: uint32,
                                   unixTime: int, hotp: HotpGenerator, totp: TotpGenerator)
    requires mode != ModeNone
    requires !IsDigits(pin) || (|pin| >= 2 && pin[0] == '0') || pin == []
    ensures Verdict(pin, ExpectedPin(mode, secret, counter, unixTime, hotp, totp)) == PinRejected
  {
  }

  /** A HOTP code below 100000, typed as the six digits section 5.3 of
      RFC 4226 prescribes (with its leading zero), is rejected. */
  lemma HotpLeadingZeroCodeRejected(secret: seq<uint8>, counter: uint32, unixTime: int,
                                    hotp: HotpGenerator, totp: TotpGenerator)
    requires hotp(secret, counter) < 100000
    ensures Verdict(ZeroPadded(hotp(secret, counter) as nat, 6),
                    ExpectedPin(ModeHotp, secret, counter, unixTime, hotp, totp)) == PinRejected
    ensures ParseDecimal(ZeroPadded(hotp(secret, counter) as nat, 6)) == hotp(secret, counter) as nat
  {
    LeadingZeroRenderingsDiffer(hotp(secret, counter) as nat);
    ZeroPaddedValue(hotp(secret, counter) as nat, 6);
  }
}
