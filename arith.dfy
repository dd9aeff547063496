/** Facts about multiplication used by the row and block arithmetic, each
    proved from the one before so that no proof depends on the solver's
    nonlinear search. */
module Arith {

  lemma MulSucc(a: nat, c: nat)
    ensures (a + 1) * c == a * c + c
  {
  }

  lemma {:induction false} MulMonotone(a: nat, b: nat, c: nat)
    requires a <= b
    ensures a * c <= b * c
  {
    if a < b {
      MulMonotone(a, b - 1, c);
      MulSucc(b - 1, c);
    }
  }

  /** Slot k of block i lies before block `count`: i*n + k < count*n. */
  lemma SlotInBlocks(i: nat, k: nat, n: nat, count: nat)
    requires i < count && k < n
    ensures i * n + k < count * n
    ensures (i + 1) * n <= count * n
  {
    MulSucc(i, n);
    MulMonotone(i + 1, count, n);
  }
}
