/** Powers of two, shared by the growth policy of the growable array and by
    the slot count of the hash map. */
module PowersOfTwo {

  /** 2^k. */
  function Pow2(k: nat): (p: nat)
    ensures p >= 1
    ensures k >= 1 ==> p >= 2 && p % 2 == 0
  {
    if k == 0 then 1 else 2 * Pow2(k - 1)
  }

  /** A power of two, recognised by halving: 1, or an even number whose half is one. */
  predicate IsPowerOfTwo(p: nat)
    decreases p
  {
    p == 1 || (p >= 2 && p % 2 == 0 && IsPowerOfTwo(p / 2))
  }

  /** Between two distinct powers of two there is at least a factor of two:
      the step from one to the next is a doubling. */
  lemma {:induction false} PowersOfTwoDoubleApart(a: nat, b: nat)
    requires IsPowerOfTwo(a) && IsPowerOfTwo(b)
    requires a < b
    ensures 2 * a <= b
    decreases b
  {
    if a != 1 {
      PowersOfTwoDoubleApart(a / 2, b / 2);
    }
  }
}
