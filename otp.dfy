/**
 * One-time passwords (server/routes.ts:21-23, 43-44): a six-digit code
 * drawn uniformly from [100000, 999999], valid for five minutes.
 */
module Otp {
  import opened Text

  /** How long a session's code stays valid: five minutes, in milliseconds. */
  const OtpLifetimeMs: int := 5 * 60 * 1000

  /** The code for one draw of `Math.random()`, which lies in [0, 1). */
  function OtpCode(draw: real): (code: nat)
    requires 0.0 <= draw < 1.0
    ensures 100000 <= code <= 999999
  {
    (100000.0 + draw * 900000.0).Floor
  }

  /** `generateOtp()`: the decimal rendering of the code, always six digits
      with no leading zero. */
  function GenerateOtp(draw: real): (otp: string)
    requires 0.0 <= draw < 1.0
    ensures |otp| == 6 && AllDigits(otp) && otp[0] != '0'
    ensures ParseNat(otp) == OtpCode(draw)
  {
    var code := OtpCode(draw);
    assert Pow10(5) == 100000 && Pow10(6) == 1000000;
    NatToStringLength(code, 6);
    ParseNatToString(code);
    NatToString(code)
  }

  /** The expiry instant of a session issued at `now`: 300000 ms, five
      minutes, later. */
  function ExpiresAt(now: int): (expiry: int)
    ensures expiry - now == 300000
  {
    now + OtpLifetimeMs
  }

  /** The verification compares the expiry with the clock strictly: a
      session has expired once the clock has passed its expiry instant. */
  function Expired(expiresAt: int, now: int): (expired: bool)
    ensures !expired <==> now <= expiresAt
  {
    expiresAt < now
  }

  /** A code issued at `issued` is accepted, as far as expiry goes, at
      every instant up to and including five minutes after issue, and never
      later. */
  lemma {:induction false} ValidForFiveMinutes(issued: int, now: int)
    ensures !Expired(ExpiresAt(issued), now) <==> now <= issued + 300000
  {
  }
}
