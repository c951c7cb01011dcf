/** Microsecond deadlines on a 64-bit wrapping clock (pico_aer_rx/hal/hal_time.c). */
module HalTime {
  import opened Words

  /** `hal_time_deadline_us`. */
  function Deadline(now: U64, timeout: U32): U64 {
    if now + timeout < TWO64 then now + timeout else now + timeout - TWO64
  }

  /** 64-bit subtraction, wrapping. */
  function WrapSub(a: U64, b: U64): U64 {
    if a >= b then a - b else a - b + TWO64
  }

  /** The C cast of `uint64_t` to `int64_t`. */
  function AsSigned(x: U64): int {
    if x < TWO63 then x else x - TWO64
  }

  /** `hal_time_expired`: a signed comparison of the wrapped difference. */
  predicate Expired(deadline: U64, now: U64) {
    AsSigned(WrapSub(deadline, now)) <= 0
  }

  /** The clock `elapsed` microseconds after it read `start`. */
  function After(start: U64, elapsed: nat): U64 {
    (start + elapsed) % TWO64
  }

  /** A deadline reads as expired exactly when the timeout has passed, up to 2^63 microseconds
      beyond it and from any start, wrapped or not; and it reads as pending again after that. */
  lemma ExpiredIffTimeoutPassed(start: U64, timeout: U32, elapsed: nat)
    ensures Expired(Deadline(start, timeout), After(start, elapsed)) <==>
            (elapsed as int - timeout) % TWO64 <= TWO63
    ensures elapsed <= timeout + TWO63 ==>
            (Expired(Deadline(start, timeout), After(start, elapsed)) <==> elapsed >= timeout)
  {
    var d, now := Deadline(start, timeout), After(start, elapsed);
    var late := (elapsed as int - timeout) % TWO64;
    WrapSubIs(d, now, start + timeout, start + elapsed);
    assert WrapSub(d, now) == (timeout as int - elapsed) % TWO64;
    NegMod(elapsed as int - timeout);
  }

  lemma WrapSubIs(d: U64, now: U64, dd: nat, nn: nat)
    requires d == dd % TWO64 && now == nn % TWO64
    ensures WrapSub(d, now) == (dd - nn) % TWO64
  {
    var q := dd / TWO64 - nn / TWO64;
    if d >= now {
      DivUnique(dd - nn, TWO64, q, d - now);
    } else {
      DivUnique(dd - nn, TWO64, q - 1, d - now + TWO64);
    }
  }

  lemma NegMod(x: int)
    ensures (-x) % TWO64 == if x % TWO64 == 0 then 0 else TWO64 - x % TWO64
  {
    var q, r := x / TWO64, x % TWO64;
    if r == 0 {
      DivUnique(-x, TWO64, -q, 0);
    } else {
      DivUnique(-x, TWO64, -q - 1, TWO64 - r);
    }
  }

  /** Past 2^63 microseconds beyond the timeout the comparison is wrong. */
  lemma ExpiryForgetsEventually()
    ensures !Expired(Deadline(0, 10), After(0, 10 + TWO63 + 1))
  {
  }
}
