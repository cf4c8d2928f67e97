/** Integer instantiations of the small generic helpers of the engine's
    common header: selection (Max, Min, Clamp), linear interpolation, the
    bound-ordering step of RandomRange and the XOR combiner of the pair hash. */
module Common {

  /** Max: `y` when `x < y`, otherwise `x`. */
  function Max(x: int, y: int): (r: int)
    ensures r >= x && r >= y
    ensures r == x || r == y
  {
    if x < y then y else x
  }

  /** Min: `x` when `x < y`, otherwise `y`. In the header the cast binds to
      the comparison, not to the result; at integer types the cast boolean is
      non-zero exactly when the comparison holds, so the selection is the same. */
  function Min(x: int, y: int): (r: int)
    ensures r <= x && r <= y
    ensures r == x || r == y
  {
    if x < y then x else y
  }

  /** Clamp is Max(lo, Min(x, hi)). */
  function Clamp(x: int, lo: int, hi: int): (r: int)
    ensures lo <= hi ==> lo <= r <= hi
    ensures lo <= x <= hi ==> r == x
    ensures x < lo ==> r == lo
    ensures lo <= hi && hi < x ==> r == hi
    ensures hi < lo ==> r == lo
  {
    Max(lo, Min(x, hi))
  }

  /** Clamping a clamped value with the same bounds changes nothing. */
  lemma ClampIdempotent(x: int, lo: int, hi: int)
    ensures Clamp(Clamp(x, lo, hi), lo, hi) == Clamp(x, lo, hi)
  {
  }

  /** Clamp preserves the order of its inputs. */
  lemma ClampMonotone(x: int, y: int, lo: int, hi: int)
    requires x <= y
    ensures Clamp(x, lo, hi) <= Clamp(y, lo, hi)
  {
  }

  /** Lerp at integer weight `t`: `a + (b - a) * t`. */
  function Lerp(a: int, b: int, t: int): (r: int)
    ensures t == 0 ==> r == a
    ensures t == 1 ==> r == b
  {
    a + (b - a) * t
  }

  /** Each unit step of the weight moves the result by `b - a`. */
  lemma LerpStep(a: int, b: int, t: int)
    ensures Lerp(a, b, t + 1) == Lerp(a, b, t) + (b - a)
  {
  }

  /** The first step of RandomRange: the bounds are swapped whenever `min`
      equals Max(min, max), that is whenever `min >= max` (also when equal). */
  method OrderBounds(min: int, max: int) returns (lo: int, hi: int)
    ensures lo <= hi
    ensures min < max ==> lo == min && hi == max
    ensures max <= min ==> lo == max && hi == min
  {
    lo, hi := min, max;
    if lo == Max(lo, hi) {
      lo, hi := hi, lo;
    }
  }

  /** `std::size_t` on a 64-bit target. */
  type SizeT = bv64

  /** The pair hash: the hash of the first component XOR the hash of the second. */
  function PairHash<A, B>(h1: A -> SizeT, h2: B -> SizeT, p: (A, B)): (r: SizeT)
    ensures r ^ h2(p.1) == h1(p.0)
    ensures r ^ h1(p.0) == h2(p.1)
  {
    h1(p.0) ^ h2(p.1)
  }

  /** With one component type (one hash function), swapping the components
      gives the same hash. */
  lemma PairHashSymmetric<A>(h: A -> SizeT, a: A, b: A)
    ensures PairHash(h, h, (a, b)) == PairHash(h, h, (b, a))
  {
  }

  /** A pair of equal components hashes to zero. */
  lemma PairHashEqualIsZero<A>(h: A -> SizeT, a: A)
    ensures PairHash(h, h, (a, a)) == 0
  {
  }
}
