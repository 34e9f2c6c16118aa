/** Words, pointers and bits of the target. */
module Machine {
  /** One more than the largest 32-bit number. */
  const WORD: int := 0x1_0000_0000

  const NULL: int := 0

  /** Addresses from here on stand for error codes. */
  const ERR_BASE: int := 0xFFFF_F000

  /** A pointer the code takes for one: neither null nor an error code. */
  predicate IsValid(p: int) { p != NULL && p < ERR_BASE }

  function Pow2(k: nat): nat { if k == 0 then 1 else 2 * Pow2(k - 1) }

  /** Bit `i` of `n`. */
  predicate HasBit(n: nat, i: nat) { if i == 0 then n % 2 == 1 else HasBit(n / 2, i - 1) }

  lemma {:induction false} TopBit(n: nat, i: nat)
    requires n < Pow2(i + 1)
    ensures HasBit(n, i) <==> Pow2(i) <= n
  {
    if 0 < i { TopBit(n / 2, i - 1); }
  }
}
