/** The SysTick countdown: the interrupt handler lowers it by one per tick
    but never below zero, and `Delay` sets it to the requested tick count
    before waiting for it to reach zero. */
module TimingDelay {
  import opened CTypes

  /** One tick of `TimingDelay_Decrement`. */
  function Decrement(c: U32): U32 {
    if c != 0 then c - 1 else c
  }

  /** The assignment with which `Delay(n)` arms the countdown. */
  function Delay(n: U32): U32 {
    n
  }

  /** The countdown after `k` ticks. */
  function Ticks(c: U32, k: nat): U32 {
    if k == 0 then c else Ticks(Decrement(c), k - 1)
  }

  /** A tick leaves a zero countdown at zero and lowers a positive one by
      exactly one; in particular it never wraps below zero. */
  lemma DecrementSaturates(c: U32)
    ensures c == 0 ==> Decrement(c) == 0
    ensures c > 0 ==> Decrement(c) as int == c as int - 1
  {
  }

  /** After `k` ticks a countdown started at `c` stands at `c - k`, or at
      zero once `k` reaches `c`. */
  lemma {:induction false} TicksSaturate(c: U32, k: nat)
    ensures Ticks(c, k) as int == if k >= c as int then 0 else c as int - k
  {
    if k > 0 {
      TicksSaturate(Decrement(c), k - 1);
    }
  }

  /** Once `Delay(n)` has armed the countdown, it reads zero after `k` ticks
      exactly when `k >= n`: the wait ends after at least `n` ticks and no
      sooner. */
  lemma DelayElapses(n: U32, k: nat)
    ensures Ticks(Delay(n), k) == 0 <==> k >= n as int
  {
    TicksSaturate(Delay(n), k);
  }
}
