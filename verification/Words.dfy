/** Unsigned 32-bit counters. */
module Words {
  const WORD: nat := 0x1_0000_0000

  /** n++ on uint32_t */
  function Inc(n: nat): nat {
    (n + 1) % WORD
  }

  lemma IncMod(a: nat)
    ensures Inc(a % WORD) == (a + 1) % WORD
  {
  }

  /** The difference of two wrapped counters is the wrapped difference. */
  lemma ModDifference(a: nat, b: nat)
    ensures (a % WORD - b % WORD) % WORD == (a - b) % WORD
  {
    assert a - b == (a % WORD - b % WORD) + WORD * (a / WORD - b / WORD);
  }
}
