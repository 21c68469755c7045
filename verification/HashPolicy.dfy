/** How a table turns a hash into a slot index and picks its sizes. */
module HashPolicy {
  import opened Arithmetic

  const GOLDEN: nat := 11400714819323198485

  /** The smallest exponent from `k` on whose power of two is at least `n`. */
  function CeilLog2(n: nat, k: nat): (r: nat)
    ensures r >= k && Pow2(r) >= n
    ensures r == k || Pow2(r - 1) < n
    decreases n - Pow2(k)
  {
    if Pow2(k) >= n then k else CeilLog2(n, k + 1)
  }

  function Max(a: nat, b: nat): nat { if a < b then b else a }

  /** A sizing policy: which slot counts a table may have, where a hash lands in a table of a
      given slot count, how an index past the end is folded back, and which size serves a
      request.  A slot count of 1 is that of a table without memory of its own. */
  datatype Policy = Policy(
      limit: nat,
      admits: nat -> bool,
      indexForHash: (nat, nat) -> nat,
      keepInRange: (nat, nat) -> nat,
      nextSizeOver: nat -> nat) {

    ghost predicate Valid() {
      && admits(1)
      && (forall hash, slots :: admits(slots) && slots >= 1 ==> indexForHash(hash, slots) < Max(2, slots))
      && (forall index: nat, slots: nat :: slots >= 1 ==> keepInRange(index, slots) == index % slots)
      && (forall size :: 0 < size <= limit ==> nextSizeOver(size) >= size && admits(nextSizeOver(size)))
    }
  }

  /** The first of `sizes[i..]` that is at least `size`, or the last one. */
  function LowerBound(sizes: seq<nat>, size: nat, i: nat): (r: nat)
    requires i < |sizes|
    ensures r in sizes && (r >= size || r == sizes[|sizes| - 1])
    decreases |sizes| - i
  {
    if i == |sizes| - 1 || sizes[i] >= size then sizes[i] else LowerBound(sizes, size, i + 1)
  }

  /** Sizes from an ascending list, indices by remainder. */
  function PrimeNumber(sizes: seq<nat>): Policy
    requires |sizes| > 0
  {
    Policy(
      sizes[|sizes| - 1],
      (slots: nat) => slots == 1 || slots in sizes,
      (hash: nat, slots: nat) => if slots == 0 then 0 else hash % slots,
      (index: nat, slots: nat) => if index < slots || slots == 0 then index else index % slots,
      (size: nat) => LowerBound(sizes, size, 0))
  }

  predicate IsPow2(n: nat) { n == Pow2(CeilLog2(n, 0)) }

  /** Sizes are powers of two; masking by size - 1 is the remainder by the size. */
  function PowerOfTwo(): Policy {
    Policy(
      Pow2(63),
      (slots: nat) => IsPow2(slots),
      (hash: nat, slots: nat) => if slots == 0 then 0 else hash % slots,
      (index: nat, slots: nat) => if slots == 0 then 0 else index % slots,
      (size: nat) => Pow2(CeilLog2(size, 0)))
  }

  function Quotient(x: nat, unit: nat): (q: nat)
    requires unit > 0
  {
    x / unit
  }

  /** The top `log` bits of the low 64 bits of `x`. */
  function TopBits(x: nat, log: nat): (r: nat) {
    Quotient(x % Pow2(64), Pow2(if log <= 64 then 64 - log else 0))
  }

  /** Sizes are powers of two, indices the top bits of the hash times the golden ratio. */
  function Fibonacci(): Policy {
    Policy(
      Pow2(63),
      (slots: nat) => IsPow2(slots) && CeilLog2(slots, 0) <= 63,
      (hash: nat, slots: nat) => TopBits(GOLDEN * hash, if slots == 1 then 1 else CeilLog2(slots, 0)),
      (index: nat, slots: nat) => if slots == 0 then 0 else index % slots,
      (size: nat) => Max(2, Pow2(CeilLog2(size, 0))))
  }

  lemma QuotientBound(x: nat, unit: nat, width: nat)
    requires unit > 0 && x < width * unit
    ensures Quotient(x, unit) < width
  {
  }

  lemma TopBitsBound(x: nat, log: nat)
    requires log <= 64
    ensures TopBits(x, log) < Pow2(log)
  {
    Pow2Adds(log, 64 - log);
    QuotientBound(x % Pow2(64), Pow2(64 - log), Pow2(log));
  }

  lemma {:induction false} CeilLog2OfPow2(k: nat)
    ensures CeilLog2(Pow2(k), 0) == k
  {
    var l := CeilLog2(Pow2(k), 0);
    if l > k { Pow2Grows(k, l - 1); } else if l < k { Pow2Grows(l, k - 1); }
  }

  lemma SmallRemainder(index: nat, slots: nat)
    requires index < slots
    ensures index % slots == index
  {
  }

  /** Any ascending list of sizes from 2 on is a policy for all requests up to its last size. */
  lemma PrimeNumberValid(sizes: seq<nat>)
    requires |sizes| > 0 && forall i :: 0 <= i < |sizes| ==> 2 <= sizes[i] <= sizes[|sizes| - 1]
    ensures PrimeNumber(sizes).Valid()
  {
    forall index: nat, slots: nat | index < slots ensures index % slots == index { SmallRemainder(index, slots); }
  }

  lemma PowerOfTwoValid()
    ensures PowerOfTwo().Valid()
  {
    var policy := PowerOfTwo();
    CeilLog2OfPow2(0);
    forall size: nat ensures policy.admits(policy.nextSizeOver(size)) {
      CeilLog2OfPow2(CeilLog2(size, 0));
    }
  }

  lemma FibonacciSize(size: nat)
    requires 0 < size <= Pow2(63)
    ensures size <= Max(2, Pow2(CeilLog2(size, 0))) && Fibonacci().admits(Max(2, Pow2(CeilLog2(size, 0))))
  {
    var k := CeilLog2(size, 0);
    CeilLog2OfPow2(k);
    CeilLog2OfPow2(1);
    assert Pow2(1) == 2;
    if k > 63 { Pow2Grows(63, k - 1); }
    if k > 1 { Pow2Grows(1, k); }
  }

  /** The Fibonacci policy is sound for every request up to 2^63: a hash lands inside the table,
      in an unallocated table in its first two slots. */
  lemma FibonacciValid()
    ensures Fibonacci().Valid()
  {
    var policy := Fibonacci();
    CeilLog2OfPow2(0);
    CeilLog2OfPow2(1);
    assert Pow2(1) == 2;
    forall hash: nat, slots: nat | policy.admits(slots)
      ensures policy.indexForHash(hash, slots) < Max(2, slots)
    {
      TopBitsBound(GOLDEN * hash, if slots == 1 then 1 else CeilLog2(slots, 0));
    }
    forall size: nat | 0 < size <= policy.limit
      ensures policy.nextSizeOver(size) >= size && policy.admits(policy.nextSizeOver(size))
    {
      FibonacciSize(size);
    }
  }

  lemma AdmitsOne(policy: Policy)
    requires policy.Valid()
    ensures policy.admits(1)
  {
  }

  lemma SizeFits(policy: Policy, m: nat)
    requires policy.Valid() && m > 0
    ensures m <= policy.limit ==> policy.nextSizeOver(m) >= m && policy.admits(policy.nextSizeOver(m))
  {
  }
}
