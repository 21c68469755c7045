/** The hit statistics a block cache keeps in its lookups: totals, and a ring of the last thousand
    outcomes with a running count of the hits among them. */
module BlockCaches {
  import opened Arithmetic

  const WINDOW := 1000

  function Hits(outcomes: seq<bool>): nat {
    if outcomes == [] then 0
    else Hits(outcomes[..|outcomes| - 1]) + if outcomes[|outcomes| - 1] then 1 else 0
  }

  function Last(outcomes: seq<bool>, n: nat): seq<bool> {
    if |outcomes| <= n then outcomes else outcomes[|outcomes| - n..]
  }

  lemma {:induction false} HitsWithoutFirst(outcomes: seq<bool>)
    requires outcomes != []
    ensures Hits(outcomes) == Hits(outcomes[1..]) + if outcomes[0] then 1 else 0
    decreases |outcomes|
  {
    var n := |outcomes| - 1;
    if n > 0 {
      HitsWithoutFirst(outcomes[..n]);
      assert outcomes[..n][1..] == outcomes[1..][..n - 1];
    }
  }

  lemma HitsOneMore(outcomes: seq<bool>, next: bool)
    ensures Hits(outcomes + [next]) == Hits(outcomes) + if next then 1 else 0
  {
    assert (outcomes + [next])[..|outcomes|] == outcomes;
  }

  /** Sliding the window by one outcome counts the new one in and the one that falls out, out. */
  lemma WindowSlides(outcomes: seq<bool>, next: bool, n: nat)
    requires n > 0
    ensures Hits(Last(outcomes + [next], n)) + (if |outcomes| >= n && outcomes[|outcomes| - n] then 1 else 0)
            == Hits(Last(outcomes, n)) + if next then 1 else 0
    ensures |outcomes| >= n && outcomes[|outcomes| - n] ==> Hits(Last(outcomes, n)) > 0
  {
    var all, window := outcomes + [next], Last(outcomes, n);
    HitsOneMore(window, next);
    if |outcomes| >= n {
      assert Last(all, n) == (window + [next])[1..];
      HitsWithoutFirst(window + [next]);
      HitsWithoutFirst(window);
    } else {
      assert Last(all, n) == window + [next];
    }
  }

  /** The ring holds the last outcomes, each at its number modulo the size of the ring. */
  ghost predicate Mirrors(ring: seq<bool>, outcomes: seq<bool>) {
    |ring| == WINDOW && forall i :: 0 <= i < |outcomes| && |outcomes| - WINDOW <= i ==> ring[i % WINDOW] == outcomes[i]
  }

  lemma MirrorsNext(ring: seq<bool>, outcomes: seq<bool>, next: bool)
    requires Mirrors(ring, outcomes)
    ensures |outcomes| >= WINDOW ==> ring[|outcomes| % WINDOW] == outcomes[|outcomes| - WINDOW]
    ensures Mirrors(ring[|outcomes| % WINDOW := next], outcomes + [next])
  {
    var n := |outcomes|;
    if n >= WINDOW { OneMultipleVanishes(n - WINDOW, WINDOW); }
    forall i | 0 <= i < n && n + 1 - WINDOW <= i ensures i % WINDOW != n % WINDOW { DistinctMod(i, n, WINDOW); }
  }

  class BlockCache {
    var totalAccessCount: nat
    var totalHitCount: nat
    var last1000HitCount: nat
    const last1000Hit: array<bool>
    ghost var outcomes: seq<bool>

    ghost predicate Valid()
      reads this, last1000Hit
    {
      && last1000Hit.Length == WINDOW
      && totalAccessCount == |outcomes| && totalHitCount == Hits(outcomes)
      && last1000HitCount == Hits(Last(outcomes, WINDOW))
      && Mirrors(last1000Hit[..], outcomes)
    }

    /** The ring starts with whatever the given memory holds. */
    constructor (ring: array<bool>)
      requires ring.Length == WINDOW
      ensures Valid() && outcomes == [] && last1000Hit == ring
    {
      totalAccessCount, totalHitCount, last1000HitCount := 0, 0, 0;
      last1000Hit := ring;
      outcomes := [];
    }

    /** A lookup, `found` telling whether the block map has the block. */
    method Get(found: bool)
      requires Valid()
      modifies this, last1000Hit
      ensures Valid() && outcomes == old(outcomes) + [found]
    {
      hide Mirrors, Hits, Last;
      ghost var before := outcomes;
      HitsOneMore(before, found);
      MirrorsNext(last1000Hit[..], before, found);
      WindowSlides(before, found, WINDOW);
      totalAccessCount := totalAccessCount + 1;
      var index := totalAccessCount;
      if index > 1000 && last1000Hit[(index - 1) % 1000] {
        last1000HitCount := last1000HitCount - 1;
      }
      if found {
        totalHitCount := totalHitCount + 1;
        last1000HitCount := last1000HitCount + 1;
        last1000Hit[(index - 1) % 1000] := true;
      } else {
        last1000Hit[(index - 1) % 1000] := false;
      }
      outcomes := before + [found];
      assert last1000Hit[..] == old(last1000Hit[..])[|before| % WINDOW := found];
    }
  }

  /** After any run of lookups, and whatever the ring held at first, the running count is the number
      of hits among the last thousand lookups. */
  method RunLookups(ring: array<bool>, found: seq<bool>) returns (accesses: nat, hits: nat, recent: nat)
    requires ring.Length == 1000
    modifies ring
    ensures accesses == |found| && hits == Hits(found) && recent == Hits(Last(found, 1000))
  {
    var cache := new BlockCache(ring);
    assert found[..0] == [];
    for i := 0 to |found|
      invariant cache.Valid() && fresh(cache) && cache.last1000Hit == ring && cache.outcomes == found[..i]
    {
      cache.Get(found[i]);
    }
    accesses, hits, recent := cache.totalAccessCount, cache.totalHitCount, cache.last1000HitCount;
    assert found[..|found|] == found;
  }
}
