/** The reconnect delay of the MQTT client on 32-bit unsigned words. */
module MqttBackoff {
  import opened Bytes
  import opened Words

  const BASE_SEC: nat := 30
  const MAX_SEC: nat := 300

  /** x << n on uint32_t; the language defines it only for n < 32. */
  function Shl32(x: nat, n: nat): nat
    requires n < 32
  {
    (x * Pow2(n)) % WORD
  }

  function Min(a: nat, b: nat): nat {
    if a < b then a else b
  }

  /** mqtt_backoff_sec, where its shift is defined. */
  function BackoffSec(retries: int): nat
    requires retries <= 35
  {
    if retries <= 3 then 5 else Min(Shl32(BASE_SEC, retries - 4), MAX_SEC)
  }

  /** The intended schedule: quick retries, then doubling from 30 s up to a cap. */
  function Intended(retries: int): nat {
    if retries <= 3 then 5 else Min(BASE_SEC * Pow2(retries - 4), MAX_SEC)
  }

  lemma {:induction false} Pow2Grows(m: nat, n: nat)
    requires m <= n
    ensures Pow2(m) <= Pow2(n)
  {
    if m < n { Pow2Grows(m, n - 1); }
  }

  lemma Pow2Values()
    ensures Pow2(4) == 16 && Pow2(27) == 0x800_0000 && Pow2(28) == 0x1000_0000 && Pow2(29) == 0x2000_0000
    ensures Pow2(30) == 0x4000_0000 && Pow2(31) == 0x8000_0000
  {
    assert Pow2(8) == 0x100;
    assert Pow2(16) == 0x1_0000;
    assert Pow2(24) == 0x100_0000;
  }

  /** The wrapped shift, by where it stands: exact up to 27, still above the cap up to 30, zero at 31. */
  lemma ShiftRanges(n: nat)
    requires n < 32
    ensures n <= 27 ==> Shl32(BASE_SEC, n) == BASE_SEC * Pow2(n)
    ensures 28 <= n <= 30 ==> Shl32(BASE_SEC, n) > MAX_SEC
    ensures Shl32(BASE_SEC, n) == 0 <==> n == 31
  {
    Pow2Values();
    if n <= 27 {
      Pow2Grows(n, 27);
      SmallMod(BASE_SEC * Pow2(n));
    }
  }

  lemma SmallMod(x: nat)
    requires x < WORD
    ensures x % WORD == x
  {
  }

  /** The code follows the intended schedule exactly up to retry 34; at retry 35 the delay collapses to
      zero. */
  lemma BackoffFollowsIntentIff(retries: int)
    requires retries <= 35
    ensures BackoffSec(retries) == Intended(retries) <==> retries <= 34
    ensures retries == 35 ==> BackoffSec(retries) == 0
  {
    if retries >= 4 {
      ShiftRanges(retries - 4);
      Pow2Values();
      if retries >= 8 {
        Pow2Grows(4, retries - 4);
      }
    }
  }

  /** The intended schedule is monotone and stays within 5 to 300 seconds for every retry count; 300 is
      reached at retry 8, not at retry 7. */
  lemma {:induction false} IntendedShape(a: int, b: int)
    requires a <= b
    ensures 5 <= Intended(a) <= Intended(b) <= MAX_SEC
    ensures Intended(a) == MAX_SEC <==> a >= 8
    ensures a == 7 ==> Intended(a) == 240
  {
    Pow2Values();
    assert Pow2(3) == 8;
    if a >= 4 {
      Pow2Grows(a - 4, b - 4);
      if a >= 8 {
        Pow2Grows(4, a - 4);
      } else {
        Pow2Grows(a - 4, 3);
      }
    } else if b >= 4 {
      Pow2Grows(0, b - 4);
    }
  }
}
