/** When a table has to grow, and how much memory keeps growing from failing. */
module Growth {
  import opened Arithmetic
  import opened HashPolicy
  import opened Sequences
  import JumpTable
  import MapSpec

  datatype Kind = Flat | Bytell

  /** n divided by the load factor, rounded up. */
  function BucketsFor(n: nat, load: real): (r: nat)
    requires load > 0.0
    ensures n > 0 ==> r > 0
  {
    var q := n as real / load;
    assert q >= 0.0 && (n > 0 ==> q > 0.0);
    if q.Floor as real == q then q.Floor else q.Floor + 1
  }

  lemma BucketsForGrows(n: nat, n': nat, load: real)
    requires load > 0.0 && n <= n'
    ensures BucketsFor(n, load) <= BucketsFor(n', load)
  {
    assert n as real / load <= n' as real / load;
  }

  /** n items are within the load of a table of this many slots. */
  predicate Carries(load: real, n: nat, slots: nat) { n as real <= slots as real * load }

  lemma CarriesLess(load: real, n: nat, slots: nat, n': nat, slots': nat)
    requires load > 0.0 && Carries(load, n, slots) && n' <= n && slots <= slots'
    ensures Carries(load, n', slots')
  {
    assert slots as real * load <= slots' as real * load;
  }

  lemma CarriesNothing(load: real, slots: nat)
    requires load > 0.0
    ensures Carries(load, 0, slots)
  {
  }

  /** A table within its load needs no more buckets than it has. */
  lemma LoadFits(n: nat, load: real, slots: nat)
    requires load > 0.0 && Carries(load, n, slots)
    ensures BucketsFor(n, load) <= slots
  {
    var q := n as real / load;
    assert q * load == n as real;
    assert q <= slots as real;
  }

  /** Floor of the binary logarithm. */
  function Log2(n: nat): (r: nat) {
    if n <= 1 then 0 else 1 + Log2(n / 2)
  }

  lemma {:induction false} Log2Grows(n: nat, n': nat)
    requires n <= n'
    ensures Log2(n) <= Log2(n')
  {
    if n > 1 { Log2Grows(n / 2, n' / 2); }
  }

  lemma {:induction false} Log2OfPow2(k: nat)
    ensures Log2(Pow2(k)) == k
  {
    if k > 0 { Log2OfPow2(k - 1); }
  }

  const MIN_LOOKUPS: nat := 4

  function Lookups(slots: nat): nat { Max(MIN_LOOKUPS, Log2(slots)) }

  /** A table of a power of two of slots looks at as many slots as the exponent says, and at four at least. */
  lemma LookupsOfPow2(k: nat)
    ensures Lookups(Pow2(k)) == if k < 4 then 4 else k
  {
    Log2OfPow2(k);
  }

  /** A table of this many slots takes one more item beside n others without growing, wherever
      the items hash to. */
  ghost predicate Roomy(kind: Kind, load: real, n: nat, slots: nat) {
    && slots >= 2 && Carries(load, n + 1, slots)
    && match kind
       case Flat => n < Lookups(slots)
       case Bytell => n + 2 < |JumpTable.JUMP_DISTANCES| && JumpTable.JUMP_DISTANCES[n + 2] < slots
  }

  /** The number of buckets a growing table asks for. */
  function Request(kind: Kind, lazy: nat, load: real, n: nat, slots: nat): nat
    requires load > 0.0
  {
    Max(Max(lazy, Max(if kind.Flat? then 4 else 10, 2 * (if slots <= 1 then 0 else slots))), BucketsFor(n, load))
  }

  /** No request up to m makes the allocator throw. */
  ghost predicate Grants(policy: Policy, maxBuckets: nat, m: nat) {
    m <= maxBuckets && forall k :: 0 < k <= m ==> policy.nextSizeOver(k) <= maxBuckets
  }

  /** From every size that may be too small for one more item beside n, the next growth fits in memory. */
  ghost predicate Ample(kind: Kind, policy: Policy, maxBuckets: nat, lazy: nat, load: real, n: nat) {
    && load > 0.0
    && forall slots :: 1 <= slots <= maxBuckets && policy.admits(slots) && !Roomy(kind, load, n, slots) ==>
                         Grants(policy, maxBuckets, Request(kind, lazy, load, n, slots))
  }

  /** There is memory for n items, wherever they hash to. */
  ghost predicate Enough(kind: Kind, policy: Policy, maxBuckets: nat, lazy: nat, load: real, n: nat) {
    n == 0 || Ample(kind, policy, maxBuckets, lazy, load, n - 1)
  }

  lemma RoomyForLess(kind: Kind, load: real, n: nat, slots: nat, n': nat)
    requires Roomy(kind, load, n, slots) && n' <= n
    ensures Roomy(kind, load, n', slots)
  {
    hide JumpTable.JUMP_DISTANCES;
    if kind.Bytell? && n' < n {
      JumpTable.JumpsGrow(0, 1);
      JumpTable.JumpsGrow(n' + 2, n + 2);
    }
  }

  lemma AmpleForLess(kind: Kind, policy: Policy, maxBuckets: nat, lazy: nat, load: real, n: nat, lazy': nat, n': nat)
    requires Ample(kind, policy, maxBuckets, lazy, load, n) && lazy' <= lazy && n' <= n
    ensures Ample(kind, policy, maxBuckets, lazy', load, n')
  {
    BucketsForGrows(n', n, load);
    forall slots | 1 <= slots <= maxBuckets && policy.admits(slots) && !Roomy(kind, load, n', slots)
      ensures Grants(policy, maxBuckets, Request(kind, lazy', load, n', slots))
    {
      if Roomy(kind, load, n, slots) { RoomyForLess(kind, load, n, slots, n'); }
      assert Request(kind, lazy', load, n', slots) <= Request(kind, lazy, load, n, slots);
    }
  }

  lemma EnoughForLess(kind: Kind, policy: Policy, maxBuckets: nat, lazy: nat, load: real, n: nat, lazy': nat, n': nat)
    requires Enough(kind, policy, maxBuckets, lazy, load, n) && lazy' <= lazy && n' <= n
    ensures Enough(kind, policy, maxBuckets, lazy', load, n')
  {
    hide Ample;
    if n' > 0 { AmpleForLess(kind, policy, maxBuckets, lazy, load, n - 1, lazy', n' - 1); }
  }

  /** A size from the given one on is too small for n items and one more, and the next growth does not fit
      in memory. */
  ghost predicate Refused(kind: Kind, policy: Policy, maxBuckets: nat, lazy: nat, load: real, n: nat, from: nat,
                          tooSmall: iset<nat>)
    requires load > 0.0
  {
    exists slots: nat :: slots in tooSmall && 0 < slots && from <= slots <= maxBuckets && policy.admits(slots) &&
      !Grants(policy, maxBuckets, Request(kind, lazy, load, n, slots))
  }

  lemma RefusedMore(kind: Kind, policy: Policy, maxBuckets: nat, lazy: nat, load: real, n: nat, from: nat,
                    tooSmall: iset<nat>, lazy': nat, n': nat, from': nat, tooSmall': iset<nat>)
    requires load > 0.0 && Refused(kind, policy, maxBuckets, lazy, load, n, from, tooSmall)
    requires lazy <= lazy' && n <= n' && from' <= from && tooSmall <= tooSmall'
    ensures Refused(kind, policy, maxBuckets, lazy', load, n', from', tooSmall')
  {
    var slots: nat :| slots in tooSmall && 0 < slots && from <= slots <= maxBuckets && policy.admits(slots) &&
      !Grants(policy, maxBuckets, Request(kind, lazy, load, n, slots));
    BucketsForGrows(n, n', load);
    assert Request(kind, lazy, load, n, slots) <= Request(kind, lazy', load, n', slots);
  }

  /** Memory that is enough for any items is never refused. */
  lemma EnoughIsNotRefused(kind: Kind, policy: Policy, maxBuckets: nat, lazy: nat, load: real, n: nat, from: nat,
                           tooSmall: iset<nat>)
    requires load > 0.0 && Enough(kind, policy, maxBuckets, lazy, load, n + 1)
    requires forall slots: nat :: slots in tooSmall ==> !Roomy(kind, load, n, slots)
    ensures !Refused(kind, policy, maxBuckets, lazy, load, n, from, tooSmall)
  {
  }

  /** No size that is not roomy makes a growing table ask for more than top. */
  ghost predicate Covers(kind: Kind, policy: Policy, load: real, n: nat, top: nat) {
    forall slots :: 1 <= slots && policy.admits(slots) && !Roomy(kind, load, n, slots) ==> 2 * slots <= top
  }

  /** Memory up to a request that covers the growth from every size that is not roomy. */
  lemma AmpleMemory(kind: Kind, policy: Policy, maxBuckets: nat, lazy: nat, load: real, n: nat, top: nat)
    requires load > 0.0 && top >= 10 && BucketsFor(n, load) <= top && lazy <= top && Grants(policy, maxBuckets, top)
    requires Covers(kind, policy, load, n, top)
    ensures Ample(kind, policy, maxBuckets, lazy, load, n)
  {
    forall slots | 1 <= slots <= maxBuckets && policy.admits(slots) && !Roomy(kind, load, n, slots)
      ensures Grants(policy, maxBuckets, Request(kind, lazy, load, n, slots))
    {
      assert 2 * slots <= top;
    }
  }

  lemma HalfLoad(n: nat, slots: nat)
    requires 2 * n <= slots
    ensures n as real <= slots as real * 0.5
  {
  }

  lemma {:induction false} Pow2Beyond(n: nat)
    ensures Pow2(n + 3) >= 2 * n + 8
  {
    if n > 0 { Pow2Beyond(n - 1); }
  }

  lemma FlatRoomy(k: nat, j: nat)
    requires 4 <= k <= j
    ensures Roomy(Flat, 0.5, k - 1, Pow2(j))
  {
    Pow2Beyond(k - 3);
    Pow2Grows(k, j);
    Log2OfPow2(j);
    hide Pow2, Log2;
    HalfLoad(k, Pow2(j));
  }

  lemma FlatPowerRoomy(k: nat, j: nat)
    requires k >= 4
    ensures Roomy(Flat, 0.5, k - 1, Pow2(j)) || 2 * Pow2(j) <= Pow2(k)
  {
    hide Roomy;
    if j < k {
      Pow2Grows(j, k - 1);
    } else {
      FlatRoomy(k, j);
    }
  }

  lemma AdmitsPowers(policy: Policy, slots: nat)
    requires (policy == PowerOfTwo() || policy == Fibonacci()) && policy.admits(slots)
    ensures slots == Pow2(CeilLog2(slots, 0))
  {
  }

  lemma FlatGrowthCovered(policy: Policy, k: nat)
    requires (policy == PowerOfTwo() || policy == Fibonacci()) && k >= 4
    ensures Covers(Flat, policy, 0.5, k - 1, Pow2(k))
  {
    hide Roomy, Pow2;
    forall slots | 1 <= slots && policy.admits(slots) && !Roomy(Flat, 0.5, k - 1, slots) ensures 2 * slots <= Pow2(k) {
      AdmitsPowers(policy, slots);
      FlatPowerRoomy(k, CeilLog2(slots, 0));
    }
  }

  lemma NextPowerBelow(m: nat, k: nat)
    requires m <= Pow2(k)
    ensures Pow2(CeilLog2(m, 0)) <= Pow2(k)
  {
    var l := CeilLog2(m, 0);
    if l > k { Pow2Grows(k, l - 1); } else { Pow2Grows(l, k); }
  }

  lemma PowerOfTwoFits(policy: Policy, k: nat, maxBuckets: nat)
    requires (policy == PowerOfTwo() || policy == Fibonacci()) && k >= 1 && Pow2(k) <= maxBuckets
    ensures Grants(policy, maxBuckets, Pow2(k))
  {
    Pow2Grows(1, k);
    assert Pow2(1) == 2;
    forall m: nat | 0 < m <= Pow2(k) ensures policy.nextSizeOver(m) <= maxBuckets {
      NextPowerBelow(m, k);
      assert policy.nextSizeOver(m) <= Max(2, Pow2(CeilLog2(m, 0)));
    }
  }

  /** A flat table of power-of-two sizes at half load has memory for k items, however they hash, once
      it may have 2^k slots. */
  lemma FlatEnough(policy: Policy, maxBuckets: nat, lazy: nat, k: nat)
    requires (policy == PowerOfTwo() || policy == Fibonacci()) && k >= 4 && lazy <= Pow2(k) <= maxBuckets
    ensures Enough(Flat, policy, maxBuckets, lazy, 0.5, k)
  {
    hide Roomy, Grants, CeilLog2, Pow2, Ample, Covers;
    Pow2Beyond(k - 3);
    FlatGrowthCovered(policy, k);
    PowerOfTwoFits(policy, k, maxBuckets);
    AmpleMemory(Flat, policy, maxBuckets, lazy, 0.5, k - 1, Pow2(k));
  }

  lemma BytellPowerRoomy(n: nat, k: nat, j: nat)
    requires n + 2 < |JumpTable.JUMP_DISTANCES| && JumpTable.JUMP_DISTANCES[n + 2] < Pow2(k)
    requires k >= 1 && 16 * (n + 1) <= 15 * Pow2(k)
    ensures Roomy(Bytell, 0.9375, n, Pow2(j)) || 2 * Pow2(j) <= Pow2(k)
  {
    hide JumpTable.JUMP_DISTANCES;
    Pow2Grows(1, k);
    if j < k { Pow2Grows(j, k - 1); } else { Pow2Grows(k, j); }
  }

  lemma BytellGrowthCovered(policy: Policy, n: nat, k: nat)
    requires policy == PowerOfTwo() || policy == Fibonacci()
    requires n + 2 < |JumpTable.JUMP_DISTANCES| && JumpTable.JUMP_DISTANCES[n + 2] < Pow2(k)
    requires k >= 1 && 16 * (n + 1) <= 15 * Pow2(k)
    ensures Covers(Bytell, policy, 0.9375, n, Pow2(k))
  {
    hide Roomy, Pow2, JumpTable.JUMP_DISTANCES;
    forall slots | 1 <= slots && policy.admits(slots) && !Roomy(Bytell, 0.9375, n, slots)
      ensures 2 * slots <= Pow2(k)
    {
      AdmitsPowers(policy, slots);
      BytellPowerRoomy(n, k, CeilLog2(slots, 0));
    }
  }

  lemma AtLeastSixteen(k: nat)
    requires k >= 4
    ensures Pow2(k) >= 16
  {
    Pow2Grows(4, k);
  }

  lemma BucketsAtDefaultLoad(n: nat, buckets: nat)
    requires 16 * n <= 15 * buckets
    ensures BucketsFor(n, 0.9375) <= buckets
  {
    assert n as real / (0.9375) == n as real * 16.0 / 15.0;
  }

  /** A Bytell table of power-of-two sizes at its default load has memory for n items, however they
      hash, once it may have a power of two of slots that exceeds the jump of index n + 1. */
  lemma BytellEnough(policy: Policy, maxBuckets: nat, lazy: nat, n: nat, k: nat)
    requires policy == PowerOfTwo() || policy == Fibonacci()
    requires n + 1 < |JumpTable.JUMP_DISTANCES| && JumpTable.JUMP_DISTANCES[n + 1] < Pow2(k)
    requires k >= 4 && 16 * n <= 15 * Pow2(k) && lazy <= Pow2(k) <= maxBuckets
    ensures Enough(Bytell, policy, maxBuckets, lazy, 0.9375, n)
  {
    hide JumpTable.JUMP_DISTANCES, PowerOfTwo, Fibonacci, Roomy, Grants, Pow2, Ample, BucketsFor, Covers;
    if n > 0 {
      AtLeastSixteen(k);
      BucketsAtDefaultLoad(n - 1, Pow2(k));
      BytellGrowthCovered(policy, n - 1, k);
      PowerOfTwoFits(policy, k, maxBuckets);
      AmpleMemory(Bytell, policy, maxBuckets, lazy, 0.9375, n - 1, Pow2(k));
    }
  }

  lemma {:induction false} FirstAtMost(sizes: seq<nat>, m: nat, i: nat, j: nat)
    requires i <= j < |sizes| && m <= sizes[j] && Rising(sizes)
    ensures LowerBound(sizes, m, i) <= sizes[j]
    decreases j - i
  {
    if i < j && sizes[i] < m { FirstAtMost(sizes, m, i + 1, j); }
  }

  /** A list of sizes serves all requests up to any of its sizes that memory can hold. */
  lemma PrimeNumberFits(sizes: seq<nat>, j: nat, maxBuckets: nat)
    requires j < |sizes| && sizes[j] <= maxBuckets && Rising(sizes)
    ensures Grants(PrimeNumber(sizes), maxBuckets, sizes[j])
  {
    forall m: nat | 0 < m <= sizes[j] ensures PrimeNumber(sizes).nextSizeOver(m) <= maxBuckets {
      FirstAtMost(sizes, m, 0, j);
    }
  }

  lemma GrowthFits(kind: Kind, policy: Policy, maxBuckets: nat, lazy: nat, load: real, n: nat, slots: nat)
    requires Enough(kind, policy, maxBuckets, lazy, load, n + 1) && 1 <= slots <= maxBuckets && policy.admits(slots)
    requires !Roomy(kind, load, n, slots)
    ensures Grants(policy, maxBuckets, Request(kind, lazy, load, n, slots))
  {
  }

  /** A rehash the operation asks for, with n items in the table, is within memory. */
  ghost predicate OpFits<K, V>(policy: Policy, maxBuckets: nat, load: real, op: MapSpec.Op<K, V>, n: nat) {
    op.Rehash? ==> load > 0.0 && Grants(policy, maxBuckets, Max(op.buckets, BucketsFor(n, load)))
  }

  /** There is memory for every step of a run that starts with n items: for these and all it adds. */
  ghost predicate RunFits<K, V>(kind: Kind, policy: Policy, maxBuckets: nat, lazy: nat, load: real, n: nat,
                                ops: seq<MapSpec.Op<K, V>>) {
    && Enough(kind, policy, maxBuckets, lazy, load, n + MapSpec.Adds(ops))
    && forall i :: 0 <= i < |ops| ==> OpFits(policy, maxBuckets, load, ops[i], n + MapSpec.Adds(ops))
  }

  lemma StepFits<K, V>(kind: Kind, policy: Policy, maxBuckets: nat, lazy: nat, load: real, n: nat,
                       ops: seq<MapSpec.Op<K, V>>, i: nat, lazy': nat, n': nat)
    requires RunFits(kind, policy, maxBuckets, lazy, load, n, ops) && i < |ops| && lazy' <= lazy
    requires n' <= n + MapSpec.Adds(ops[..i])
    ensures Enough(kind, policy, maxBuckets, lazy', load, n' + MapSpec.AddsOne(ops[i]))
    ensures OpFits(policy, maxBuckets, load, ops[i], n')
  {
    hide Enough;
    MapSpec.AddsSoFar(ops, i);
    var most := n + MapSpec.Adds(ops);
    EnoughForLess(kind, policy, maxBuckets, lazy, load, most, lazy', n' + MapSpec.AddsOne(ops[i]));
    assert OpFits(policy, maxBuckets, load, ops[i], most);
    if ops[i].Rehash? { BucketsForGrows(n', most, load); }
  }

  /** No rehash of the run asks for more than the given number of buckets. */
  ghost predicate RehashesWithin<K, V>(ops: seq<MapSpec.Op<K, V>>, buckets: nat) {
    forall i :: 0 <= i < |ops| && ops[i].Rehash? ==> ops[i].buckets <= buckets
  }

  lemma RunIsWithin<K, V>(kind: Kind, policy: Policy, maxBuckets: nat, lazy: nat, load: real, n: nat,
                          ops: seq<MapSpec.Op<K, V>>, top: nat)
    requires Enough(kind, policy, maxBuckets, lazy, load, n) && MapSpec.Adds(ops) <= n && RehashesWithin(ops, top)
    requires load > 0.0 && BucketsFor(n, load) <= top && Grants(policy, maxBuckets, top)
    ensures RunFits(kind, policy, maxBuckets, lazy, load, 0, ops)
  {
    hide Enough, BucketsFor;
    EnoughForLess(kind, policy, maxBuckets, lazy, load, n, lazy, MapSpec.Adds(ops));
    BucketsForGrows(MapSpec.Adds(ops), n, load);
  }

  /** With memory for 2^k slots, every run on a new flat table that emplaces at most k times fits. */
  lemma FlatRunFits<K, V>(policy: Policy, maxBuckets: nat, lazy: nat, k: nat, ops: seq<MapSpec.Op<K, V>>)
    requires (policy == PowerOfTwo() || policy == Fibonacci()) && k >= 4 && lazy <= Pow2(k) <= maxBuckets
    requires MapSpec.Adds(ops) <= k && RehashesWithin(ops, Pow2(k))
    ensures RunFits(Flat, policy, maxBuckets, lazy, 0.5, 0, ops)
  {
    hide Enough, RunFits, Grants, Pow2, RehashesWithin;
    FlatEnough(policy, maxBuckets, lazy, k);
    PowerOfTwoFits(policy, k, maxBuckets);
    Pow2Beyond(k - 3);
    RunIsWithin(Flat, policy, maxBuckets, lazy, 0.5, k, ops, Pow2(k));
  }

  /** The same of a Bytell table and runs that emplace at most n times. */
  lemma BytellRunFits<K, V>(policy: Policy, maxBuckets: nat, lazy: nat, n: nat, k: nat, ops: seq<MapSpec.Op<K, V>>)
    requires policy == PowerOfTwo() || policy == Fibonacci()
    requires n + 1 < |JumpTable.JUMP_DISTANCES| && JumpTable.JUMP_DISTANCES[n + 1] < Pow2(k)
    requires k >= 4 && 16 * n <= 15 * Pow2(k) && lazy <= Pow2(k) <= maxBuckets
    requires MapSpec.Adds(ops) <= n && RehashesWithin(ops, Pow2(k))
    ensures RunFits(Bytell, policy, maxBuckets, lazy, 0.9375, 0, ops)
  {
    hide JumpTable.JUMP_DISTANCES, Enough, RunFits, Grants, Pow2, RehashesWithin, BucketsFor;
    BytellEnough(policy, maxBuckets, lazy, n, k);
    PowerOfTwoFits(policy, k, maxBuckets);
    BucketsAtDefaultLoad(n, Pow2(k));
    RunIsWithin(Bytell, policy, maxBuckets, lazy, 0.9375, n, ops, Pow2(k));
  }
}
