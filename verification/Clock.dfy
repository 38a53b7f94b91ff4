/** The 32-bit millisecond clock and its arithmetic. */
module Clock {

  const WRAP := 0x1_0000_0000

  type uint32 = x: int | 0 <= x < WRAP

  /** What a uint32_t keeps of a number. */
  function Low(n: nat): uint32 {
    n % WRAP
  }

  function Increment(count: uint32): uint32 {
    if count == WRAP - 1 then 0 else count + 1
  }

  /** uint32_t subtraction. */
  function Elapsed(now: uint32, since: uint32): uint32 {
    if now >= since then now - since else now - since + WRAP
  }

  lemma IncrementWraps(n: nat)
    ensures Increment(Low(n)) == Low(n + 1)
  {
    assert n == n / WRAP * WRAP + Low(n);
    if Low(n) == WRAP - 1 {
      assert n + 1 == (n / WRAP + 1) * WRAP;
    } else {
      assert n + 1 == n / WRAP * WRAP + (Low(n) + 1);
    }
  }
}
