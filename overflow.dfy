/** The loop counter of sendMessages (line 167) is a Java `int`. This module follows it
    with 32-bit wrap-around, to show what the guard `i <= numberOfMessages` does when
    numberOfMessages is Integer.MAX_VALUE. */
module CounterOverflow {

  const IntMin: int := -0x8000_0000
  const IntMax: int := 0x7FFF_FFFF

  predicate IsInt(x: int)
  {
    IntMin <= x <= IntMax
  }

  /** `i++` on a Java int: two's-complement addition of one. */
  function Increment(i: int): (r: int)
    requires IsInt(i)
    ensures IsInt(r)
    ensures i < IntMax ==> r == i + 1
    ensures i == IntMax ==> r == IntMin
  {
    (i + 1 - IntMin) % 0x1_0000_0000 + IntMin
  }

  /** The value of `i` on the p-th pass of the loop, as the JVM computes it. */
  function CounterAtPass(p: nat): (i: int)
    requires p >= 1
    ensures IsInt(i)
  {
    if p == 1 then 1 else Increment(CounterAtPass(p - 1))
  }

  /** Up to Integer.MAX_VALUE passes the counter is the pass number. */
  lemma {:induction false} CounterIsPassNumber(p: nat)
    requires 1 <= p <= IntMax
    ensures CounterAtPass(p) == p
  {
    if p > 1 {
      CounterIsPassNumber(p - 1);
    }
  }

  /** As written, with numberOfMessages = Integer.MAX_VALUE: after pass Integer.MAX_VALUE
      the counter wraps to Integer.MIN_VALUE, the guard still holds, and pass
      Integer.MAX_VALUE + 1 runs; since every int satisfies the guard, so does every
      later pass, and the loop sends without end instead of Integer.MAX_VALUE times. */
  lemma GuardHoldsAfterWrap(p: nat, numberOfMessages: int)
    requires p >= 1 && numberOfMessages == IntMax
    ensures CounterAtPass(p) <= numberOfMessages
    ensures p == IntMax + 1 ==> CounterAtPass(p) == IntMin
  {
    if p == IntMax + 1 {
      CounterIsPassNumber(IntMax);
    }
  }
}
