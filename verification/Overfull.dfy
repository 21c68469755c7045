/** Keys that no table can hold, whatever memory there is: emplacing them grows a table until the
    allocator refuses. */
module Overfull {
  import opened Arithmetic
  import opened Slots
  import opened HashPolicy
  import opened Chains
  import opened Growth
  import JumpTable
  import MapSpec
  import RobinHood
  import FlatHashTable
  import BytellHashTable

  /** A run that emplaces the given keys, each with its number as value. */
  function Emplaces<K>(keys: seq<K>): (ops: seq<MapSpec.Op<K, nat>>)
    ensures |ops| == |keys|
  {
    seq(|keys|, i requires 0 <= i < |keys| => MapSpec.Op.Emplace(Item(keys[i], i)))
  }

  lemma {:induction false} AllEmplaced<K>(keys: seq<K>, n: nat)
    requires n <= |keys|
    ensures forall i :: 0 <= i < n ==> keys[i] in MapSpec.After(map[], Emplaces(keys)[..n])
  {
    if n > 0 {
      AllEmplaced(keys, n - 1);
      assert Emplaces(keys)[..n][..n - 1] == Emplaces(keys)[..n - 1];
    }
  }

  lemma AllKeysEmplaced<K>(keys: seq<K>)
    ensures forall i :: 0 <= i < |keys| ==> keys[i] in MapSpec.After(map[], Emplaces(keys))
  {
    hide Emplaces, MapSpec.After;
    AllEmplaced(keys, |keys|);
    assert Emplaces(keys)[..|keys|] == Emplaces(keys);
  }

  lemma {:induction false} Log2Below(n: nat, k: nat)
    requires n < Pow2(k) && k > 0
    ensures Log2(n) < k
  {
    if n > 1 { Log2Below(n / 2, k - 1); }
  }

  lemma UnallocatedIsEmpty<K, V>(sh: RobinHood.Shape<K>, s: seq<Slot<K, V>>, at: map<K, nat>, m: map<K, V>)
    requires RobinHood.Settled(sh, s) && Holds(s, at, m) && sh.slots < 2
    ensures m.Keys == {}
  {
  }

  /** No table of fewer than 2^(k + 1) slots holds more than k keys of one home. */
  lemma TooManyOfOneHome<K, V>(sh: RobinHood.Shape<K>, s: seq<Slot<K, V>>, at: map<K, nat>, m: map<K, V>, ks: set<K>,
                               home: nat, k: nat)
    requires RobinHood.Settled(sh, s) && Holds(s, at, m) && forall key :: key in ks ==> sh.Home(key) == home
    requires k >= 4 && sh.slots < Pow2(k + 1) && |ks| > k
    requires sh.slots >= 2 ==> sh.maxLookups == Lookups(sh.slots)
    ensures !(ks <= m.Keys)
  {
    hide RobinHood.Settled, Holds;
    if ks <= m.Keys {
      if sh.slots < 2 {
        UnallocatedIsEmpty(sh, s, at, m);
      } else {
        FlatHashTable.SameHomeLimit(sh, s, at, m, ks, home);
        Log2Below(sh.slots, k + 1);
      }
    }
  }

  function Numbers(n: nat): (r: seq<nat>)
    ensures |r| == n && forall i :: 0 <= i < n ==> r[i] == i
  {
    seq(n, i => i)
  }

  lemma FlatLacks(table: FlatHashTable.FlatTable<nat, nat>, h: nat, k: nat, n: nat)
    requires table.Valid() && forall key :: table.hash(key) == h
    requires k >= 4 && table.maxBuckets < Pow2(k + 1) && n > k
    ensures exists i :: 0 <= i < n && Numbers(n)[i] !in table.contents
  {
    hide Policy.Valid, RobinHood.Settled, Holds, FlatHashTable.Marked, Lookups, Pow2;
    var ks := FlatHashTable.Interval(0, n);
    FlatHashTable.IntervalCount(0, n);
    table.LooseFacts();
    TooManyOfOneHome(table.TableShape(), table.entries[..], table.at, table.contents, ks,
                     table.policy.indexForHash(h, table.slots), k);
    var key :| key in ks && key !in table.contents;
    assert Numbers(n)[key] == key;
  }

  /** Whatever the policy, emplacing more than k keys of one hash in a flat table fails when there is
      no memory for 2^(k + 1) slots. */
  method OverfillFlat(policy: Policy, maxBuckets: nat, buckets: nat, h: nat, k: nat, n: nat) returns (ok: bool)
    requires policy.Valid() && 1 <= maxBuckets <= policy.limit
    requires k >= 4 && maxBuckets < Pow2(k + 1) && n > k
    ensures !ok
  {
    hide Policy.Valid, FlatHashTable.FlatTable.Valid, MapSpec.After, MapSpec.Replies, RunFits, Emplaces, Pow2;
    var table := new FlatHashTable.FlatTable<nat, nat>(policy, key => h, maxBuckets, buckets);
    var keys, answers := Numbers(n), [];
    ok, answers := table.Run(Emplaces(keys));
    if ok {
      AllKeysEmplaced(keys);
      FlatLacks(table, h, k, n);
    }
  }

  lemma PoliciesValid(policy: Policy)
    requires policy == PowerOfTwo() || policy == Fibonacci()
    ensures policy.Valid()
  {
    FibonacciValid();
    PowerOfTwoValid();
  }

  /** With memory for 2^k slots a run that emplaces at most k times succeeds, wherever its keys hash to. */
  method FillFlat<K(==), V>(policy: Policy, hash: K -> nat, maxBuckets: nat, buckets: nat, ghost k: nat,
                            ops: seq<MapSpec.Op<K, V>>)
      returns (ok: bool, answers: seq<MapSpec.Answer<V>>)
    requires policy == PowerOfTwo() || policy == Fibonacci()
    requires k >= 4 && 4 * buckets <= Pow2(k) <= maxBuckets <= policy.limit
    requires MapSpec.Adds(ops) <= k && RehashesWithin(ops, Pow2(k))
    ensures ok && answers == MapSpec.Replies(map[], ops)
  {
    PoliciesValid(policy);
    hide Policy.Valid, FlatHashTable.FlatTable.Valid, MapSpec.After, MapSpec.Replies, RunFits, RehashesWithin, Pow2;
    var table := new FlatHashTable.FlatTable<K, V>(policy, hash, maxBuckets, buckets);
    FlatRunFits(policy, maxBuckets, 4 * buckets, k, ops);
    ok, answers := table.Run(ops);
  }

  lemma {:induction false} EmplacesAdd<K>(keys: seq<K>, n: nat)
    requires n <= |keys|
    ensures MapSpec.Adds(Emplaces(keys)[..n]) == n
  {
    if n > 0 {
      EmplacesAdd(keys, n - 1);
      assert Emplaces(keys)[..n][..n - 1] == Emplaces(keys)[..n - 1];
    }
  }

  lemma EmplacesFit<K>(keys: seq<K>, buckets: nat)
    ensures MapSpec.Adds(Emplaces(keys)) == |keys| && RehashesWithin(Emplaces(keys), buckets)
  {
    EmplacesAdd(keys, |keys|);
    assert Emplaces(keys)[..|keys|] == Emplaces(keys);
  }

  /** The bound is exact: n keys of one hash go into a flat table that may have 2^k but not 2^(k + 1)
      slots just when n is at most k. */
  method EmplaceOneHash(policy: Policy, maxBuckets: nat, buckets: nat, h: nat, k: nat, n: nat) returns (ok: bool)
    requires policy == PowerOfTwo() || policy == Fibonacci()
    requires k >= 4 && 4 * buckets <= Pow2(k) <= maxBuckets <= policy.limit && maxBuckets < Pow2(k + 1)
    ensures ok <==> n <= k
  {
    hide Pow2, Emplaces, RehashesWithin, MapSpec.Replies;
    if n > k {
      PoliciesValid(policy);
      ok := OverfillFlat(policy, maxBuckets, buckets, h, k, n);
    } else {
      var keys, answers := Numbers(n), [];
      EmplacesFit(keys, Pow2(k));
      ok, answers := FillFlat<nat, nat>(policy, key => h, maxBuckets, buckets, k, Emplaces(keys));
    }
  }

  /** Two keys of hash 0, and one for every jump distance. */
  function PatternHash(k: nat): nat {
    if 2 <= k < |JumpTable.JUMP_DISTANCES| + 1 then JumpTable.JUMP_DISTANCES[k - 1] else 0
  }

  /** A policy that takes the remainder of the hash. */
  ghost predicate TakesRemainder(policy: Policy) {
    forall h: nat, slots: nat :: slots >= 1 ==> policy.indexForHash(h, slots) == h % slots
  }

  lemma RemainderPolicies(sizes: seq<nat>)
    requires |sizes| > 0
    ensures TakesRemainder(PowerOfTwo()) && TakesRemainder(PrimeNumber(sizes))
  {
  }

  lemma LinkedShape<K, V>(sh: Shape<K>, s: seq<Slot<K, V>>, up: seq<int>, rank: seq<nat>)
    requires Linked(sh, s, up, rank)
    ensures sh.Valid() && (sh.slots == 1 ==> forall p :: 0 <= p < |s| ==> s[p].item == None)
  {
  }

  /** The numbers below 127 fit in no table of any size. */
  lemma PatternFitsNowhere<V>(sh: Shape<nat>, s: seq<Slot<nat, V>>, at: map<nat, nat>, m: map<nat, V>, up: seq<int>,
                              rank: seq<nat>)
    requires Linked(sh, s, up, rank) && Holds(s, at, m) && sh.jumps == JumpTable.JUMP_DISTANCES
    requires sh.hash == PatternHash && TakesRemainder(sh.policy)
    ensures exists i :: 0 <= i < 127 && Numbers(127)[i] !in m
  {
    hide JumpTable.JUMP_DISTANCES, Severed, Holds, Policy.Valid;
    JumpTable.JumpsGrow(0, 1);
    LinkedShape(sh, s, up, rank);
    var others := seq(NUM_JUMPS, i => i + 1);
    assert Numbers(127)[0] == 0 && Numbers(127)[1] == 1;
    assert forall i :: 0 < i < NUM_JUMPS ==> others[i] == Numbers(127)[i + 1];
    forall i | 0 < i < NUM_JUMPS ensures sh.Home(others[i]) == sh.Hop(sh.Home(0), i) {
      BytellHashTable.HopIsHome(sh, 0, i);
    }
    BytellHashTable.NoTableHolds(sh, s, at, m, up, rank, 0, 1, others);
  }

  lemma BytellLacks(table: BytellHashTable.BytellTable<nat, nat>)
    requires table.Valid() && table.hash == PatternHash && TakesRemainder(table.policy)
    ensures exists i :: 0 <= i < 127 && Numbers(127)[i] !in table.contents
  {
    hide Policy.Valid, Severed, Holds, BytellHashTable.Tagged, BytellHashTable.Bounded, PatternHash, TakesRemainder;
    PatternFitsNowhere(table.TableShape(), table.entries[..], table.at, table.contents, table.up, table.rank);
  }

  /** Whatever memory there is, emplacing the 127 numbers in a Bytell table fails. */
  method OverfillBytell(policy: Policy, maxBuckets: nat, blockSize: nat, buckets: nat) returns (ok: bool)
    requires policy.Valid() && TakesRemainder(policy) && 1 <= maxBuckets <= policy.limit
    requires blockSize >= BytellHashTable.MIN_BLOCK
    ensures !ok
  {
    hide Policy.Valid, TakesRemainder, BytellHashTable.BytellTable.Valid, MapSpec.After, MapSpec.Replies, RunFits;
    hide Emplaces, PatternHash;
    var table := new BytellHashTable.BytellTable<nat, nat>(policy, PatternHash, maxBuckets, blockSize, buckets);
    var keys, answers := Numbers(127), [];
    ok, answers := table.Run(Emplaces(keys));
    if ok {
      AllKeysEmplaced(keys);
      BytellLacks(table);
    }
  }

  /** So it does for the powers of two and for any list of prime sizes. */
  method OverfillRemainder(policy: Policy, ghost sizes: seq<nat>, maxBuckets: nat, blockSize: nat, buckets: nat)
      returns (ok: bool)
    requires |sizes| > 0 && (policy == PowerOfTwo() || policy == PrimeNumber(sizes))
    requires policy.Valid() && 1 <= maxBuckets <= policy.limit && blockSize >= BytellHashTable.MIN_BLOCK
    ensures !ok
  {
    hide Policy.Valid, TakesRemainder;
    RemainderPolicies(sizes);
    ok := OverfillBytell(policy, maxBuckets, blockSize, buckets);
  }

  /** With memory for a power of two of slots that exceeds the jump of index n + 1, a run that emplaces
      at most n times succeeds, wherever its keys hash to. */
  method FillBytell<K(==, !new), V(!new)>(policy: Policy, hash: K -> nat, maxBuckets: nat, blockSize: nat, buckets: nat,
                              ghost n: nat, ghost k: nat, ops: seq<MapSpec.Op<K, V>>)
      returns (ok: bool, answers: seq<MapSpec.Answer<V>>)
    requires policy == PowerOfTwo() || policy == Fibonacci()
    requires n + 1 < |JumpTable.JUMP_DISTANCES| && JumpTable.JUMP_DISTANCES[n + 1] < Pow2(k)
    requires k >= 4 && 16 * n <= 15 * Pow2(k) && buckets <= Pow2(k) <= maxBuckets <= policy.limit
    requires blockSize >= BytellHashTable.MIN_BLOCK && MapSpec.Adds(ops) <= n && RehashesWithin(ops, Pow2(k))
    ensures ok && answers == MapSpec.Replies(map[], ops)
  {
    PoliciesValid(policy);
    hide Policy.Valid, BytellHashTable.BytellTable.Valid, MapSpec.After, MapSpec.Replies, RunFits, RehashesWithin, Pow2;
    hide JumpTable.JUMP_DISTANCES;
    var table := new BytellHashTable.BytellTable<K, V>(policy, hash, maxBuckets, blockSize, buckets);
    BytellRunFits(policy, maxBuckets, buckets, n, k, ops);
    ok, answers := table.Run(ops);
  }

  const GOLDEN_INVERSE: nat := 17428512612931826493

  /** Two keys of hash 0, and for every table size and every jump one that is at home there. */
  datatype Aimed = Twin(first: bool) | At(log: nat, jump: nat)

  function AimedHash(a: Aimed): nat {
    match a
    case Twin(_) => 0
    case At(log, jump) =>
      if log <= 64 && jump < |JumpTable.JUMP_DISTANCES|
      then GOLDEN_INVERSE * (JumpTable.JUMP_DISTANCES[jump] % Pow2(log) * Pow2(64 - log)) % Pow2(64) else 0
  }

  /** Multiplying by the golden ratio undoes multiplying by its inverse. */
  lemma GoldenUndoes(y: nat)
    requires y < Pow2(64)
    ensures GOLDEN * (GOLDEN_INVERSE * y % Pow2(64)) % Pow2(64) == y
  {
    Pow2Of64();
    var m, t := Pow2(64), 10771413168148108919;
    assert GOLDEN * GOLDEN_INVERSE == t * m + 1;
    var q, r := GOLDEN_INVERSE * y / m, GOLDEN_INVERSE * y % m;
    assert GOLDEN_INVERSE * y == q * m + r;
    assert GOLDEN * r + (GOLDEN * q) * m == y + (t * y) * m;
    MultipleVanishes(GOLDEN * r, GOLDEN * q, m);
    MultipleVanishes(y, t * y, m);
  }

  lemma FibonacciHome(h: nat, log: nat)
    requires 1 <= log <= 63
    ensures Fibonacci().indexForHash(h, Pow2(log)) == TopBits(GOLDEN * h, log)
  {
    hide TopBits;
    CeilLog2OfPow2(log);
    Pow2Grows(1, log);
    assert Pow2(1) == 2;
  }

  lemma WholeQuotient(v: nat, unit: nat)
    requires unit > 0
    ensures Quotient(v * unit, unit) == v
  {
    DivisionUnique(v * unit, v, 0, unit);
  }

  lemma TopOf(x: nat, log: nat, v: nat)
    requires log <= 64 && x % Pow2(64) == v * Pow2(64 - log)
    ensures TopBits(x, log) == v
  {
    hide Pow2;
    WholeQuotient(v, Pow2(64 - log));
  }

  lemma FoldsBack(policy: Policy, index: nat, slots: nat)
    requires policy.Valid() && slots >= 1
    ensures policy.keepInRange(index, slots) == index % slots
  {
  }

  /** In a table of 2^log slots, the key aimed at a jump is at home where the jump leads from 0. */
  lemma AimedHome(sh: Shape<Aimed>, log: nat, j: nat)
    requires sh.Valid() && sh.policy == Fibonacci() && sh.hash == AimedHash && sh.jumps == JumpTable.JUMP_DISTANCES
    requires 1 <= log <= 63 && sh.slots == Pow2(log) && j < NUM_JUMPS
    ensures sh.Home(At(log, j)) == sh.jumps[j] % sh.slots && sh.Home(At(log, j)) == sh.Hop(0, j)
  {
    hide JumpTable.JUMP_DISTANCES, TopBits, Fibonacci, Pow2, Policy.Valid;
    var v, unit := sh.jumps[j] % sh.slots, Pow2(64 - log);
    FibonacciHome(AimedHash(At(log, j)), log);
    Pow2Adds(log, 64 - log);
    Bigger(v, sh.slots, unit);
    GoldenUndoes(v * unit);
    TopOf(GOLDEN * AimedHash(At(log, j)), log, v);
    FoldsBack(sh.policy, sh.jumps[j], sh.slots);
  }

  /** All keys that are aimed at some jump in some table of at most 2^63 slots. */
  function AimedKeys(): (keys: seq<Aimed>)
    ensures |keys| == 7877
  {
    seq(7877, n requires 0 <= n => if n < 2 then Twin(n == 0) else At((n - 2) / 125 + 1, (n - 2) % 125 + 1))
  }

  lemma AimedAt(log: nat, j: nat)
    requires 1 <= log <= 63 && 1 <= j <= 125
    ensures At(log, j) == AimedKeys()[2 + (log - 1) * 125 + (j - 1)]
  {
  }

  lemma LogInRange(slots: nat)
    requires slots > 1 && Fibonacci().admits(slots)
    ensures 1 <= CeilLog2(slots, 0) <= 63 && slots == Pow2(CeilLog2(slots, 0))
  {
  }

  lemma TwinHome(sh: Shape<Aimed>, log: nat)
    requires sh.policy == Fibonacci() && sh.hash == AimedHash && 1 <= log <= 63 && sh.slots == Pow2(log)
    ensures sh.Home(Twin(true)) == 0 && sh.Home(Twin(false)) == 0
  {
    hide TopBits, Fibonacci, Pow2;
    FibonacciHome(0, log);
    TopOf(0, log, 0);
  }

  /** They fit in no table of any size. */
  lemma AimedFitNowhere<V>(sh: Shape<Aimed>, s: seq<Slot<Aimed, V>>, at: map<Aimed, nat>, m: map<Aimed, V>,
                           up: seq<int>, rank: seq<nat>)
    requires Linked(sh, s, up, rank) && Holds(s, at, m) && sh.jumps == JumpTable.JUMP_DISTANCES
    requires sh.hash == AimedHash && sh.policy == Fibonacci()
    ensures exists n :: 0 <= n < 7877 && AimedKeys()[n] !in m
  {
    hide JumpTable.JUMP_DISTANCES, Severed, Policy.Valid, CeilLog2, Pow2, AimedHash;
    JumpTable.JumpsGrow(0, 1);
    LinkedShape(sh, s, up, rank);
    var keys := AimedKeys();
    assert keys[0] == Twin(true) && keys[1] == Twin(false);
    var log := CeilLog2(sh.slots, 0);
    if sh.slots > 1 && forall n :: 0 <= n < 7877 ==> keys[n] in m {
      var others := seq(NUM_JUMPS, i requires 0 <= i => At(log, i));
      LogInRange(sh.slots);
      TwinHome(sh, log);
      forall i | 0 < i < NUM_JUMPS ensures others[i] in m && sh.Home(others[i]) == sh.Hop(0, i) {
        AimedHome(sh, log, i);
        AimedAt(log, i);
      }
      BytellHashTable.NoTableHolds(sh, s, at, m, up, rank, Twin(true), Twin(false), others);
    }
  }

  lemma FibonacciLacks(table: BytellHashTable.BytellTable<Aimed, nat>)
    requires table.Valid() && table.hash == AimedHash && table.policy == Fibonacci()
    ensures exists n :: 0 <= n < 7877 && AimedKeys()[n] !in table.contents
  {
    hide Policy.Valid, Severed, Holds, BytellHashTable.Tagged, BytellHashTable.Bounded, AimedHash;
    AimedFitNowhere(table.TableShape(), table.entries[..], table.at, table.contents, table.up, table.rank);
  }

  /** Whatever memory there is, emplacing the aimed keys in a Bytell table of the default policy fails. */
  method OverfillFibonacci(maxBuckets: nat, blockSize: nat, buckets: nat) returns (ok: bool)
    requires 1 <= maxBuckets <= Fibonacci().limit && blockSize >= BytellHashTable.MIN_BLOCK
    ensures !ok
  {
    FibonacciValid();
    hide Policy.Valid, BytellHashTable.BytellTable.Valid, MapSpec.After, MapSpec.Replies, RunFits, Emplaces, AimedHash;
    hide AimedKeys, Fibonacci;
    var table := new BytellHashTable.BytellTable<Aimed, nat>(Fibonacci(), AimedHash, maxBuckets, blockSize, buckets);
    var keys, answers := AimedKeys(), [];
    ok, answers := table.Run(Emplaces(keys));
    if ok {
      AllKeysEmplaced(keys);
      FibonacciLacks(table);
    }
  }
}
