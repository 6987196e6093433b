/**
 * The growth rule of the vector: a full vector reallocates to twice its size,
 * or to one slot when it is empty. Consequently the capacity after n appends
 * to an empty vector is the least power of two that is at least n, and it has
 * been doubled at every reallocation.
 */
module Growth {

  /** The capacity a full vector of `size` elements reallocates to
    * (`size_ == 0 ? 1 : size_ * 2`): room for at least one more element, and
    * never more than double. */
  function Grown(size: nat): (c: nat)
    ensures size < c
    ensures size > 0 ==> c == 2 * size
    ensures size == 0 ==> c == 1
  {
    if size == 0 then 1 else 2 * size
  }

  /** The capacity after one append to a vector with `size` elements and
    * capacity `cap`: it never shrinks, changes only when the vector is full,
    * and always leaves room for the appended element. */
  function CapacityAfterAppend(size: nat, cap: nat): (c: nat)
    ensures cap <= c
    ensures c != cap ==> size == cap
    ensures size <= cap ==> size < c
  {
    if size == cap then Grown(size) else cap
  }

  /** The capacity after `n` appends to an empty vector: it holds all of
    * them and, once there is one, is less than twice their number. */
  function CapacityAfterAppends(n: nat): (c: nat)
    ensures n <= c
    ensures n > 0 ==> c < 2 * n
  {
    if n == 0 then 0 else CapacityAfterAppend(n - 1, CapacityAfterAppends(n - 1))
  }

  /** How many of the first `n` appends to an empty vector reallocated. */
  function Reallocations(n: nat): nat
  {
    if n == 0 then 0
    else Reallocations(n - 1) + (if n - 1 == CapacityAfterAppends(n - 1) then 1 else 0)
  }

  function Pow2(k: nat): (p: nat)
    ensures p >= 1
  {
    if k == 0 then 1 else 2 * Pow2(k - 1)
  }

  lemma {:induction false} Pow2Monotone(j: nat, k: nat)
    ensures j <= k <==> Pow2(j) <= Pow2(k)
  {
    if j > 0 && k > 0 {
      Pow2Monotone(j - 1, k - 1);
    }
  }

  /** After n >= 1 appends from empty the capacity holds all n elements, is less
    * than 2n, and is 2^(r-1) where r is the number of reallocations so far: the
    * capacity doubled at each reallocation, so there were about log2(n) of them. */
  lemma {:induction false} GrowthLaw(n: nat)
    requires n >= 1
    ensures Reallocations(n) >= 1
    ensures CapacityAfterAppends(n) == Pow2(Reallocations(n) - 1)
    ensures n <= CapacityAfterAppends(n) < 2 * n
  {
    if n > 1 {
      GrowthLaw(n - 1);
    }
  }

  /** The capacity after n >= 1 appends from empty is the least power of two
    * that is at least n. */
  lemma CapacityIsLeastPowerOfTwo(n: nat, k: nat)
    requires n >= 1 && Pow2(k) >= n
    ensures CapacityAfterAppends(n) <= Pow2(k)
  {
    GrowthLaw(n);
    var r := Reallocations(n) - 1;
    if r > 0 {
      Pow2Monotone(k, r - 1);
      Pow2Monotone(r, k);
    }
  }
}
