/** What a run of hash table operations means: the same run on a finite map. */
module MapSpec {
  import opened Slots

  datatype Op<+K, +V> = Emplace(item: Item<K, V>) | Erase(key: K) | Find(key: K) | Clear | Rehash(buckets: nat)

  datatype Answer<+V> = Inserted(isNew: bool) | Erased(count: nat) | Found(value: Option<V>) | Done

  /** The map after one operation; emplacing a key that is present changes nothing. */
  ghost function Next<K, V>(m: map<K, V>, op: Op<K, V>): map<K, V> {
    match op
    case Emplace(x) => if x.key in m then m else m[x.key := x.value]
    case Erase(key) => m - {key}
    case Clear => map[]
    case _ => m
  }

  ghost function Reply<K, V>(m: map<K, V>, op: Op<K, V>): Answer<V> {
    match op
    case Emplace(x) => Inserted(x.key !in m)
    case Erase(key) => Erased(if key in m then 1 else 0)
    case Find(key) => Found(if key in m then Some(m[key]) else None)
    case _ => Done
  }

  ghost function After<K, V>(m: map<K, V>, ops: seq<Op<K, V>>): map<K, V> {
    if ops == [] then m else Next(After(m, ops[..|ops| - 1]), ops[|ops| - 1])
  }

  ghost function Replies<K, V>(m: map<K, V>, ops: seq<Op<K, V>>): seq<Answer<V>> {
    if ops == [] then []
    else Replies(m, ops[..|ops| - 1]) + [Reply(After(m, ops[..|ops| - 1]), ops[|ops| - 1])]
  }

  /** How many keys an operation, and a run, may add. */
  function AddsOne<K, V>(op: Op<K, V>): nat { if op.Emplace? then 1 else 0 }

  function Adds<K, V>(ops: seq<Op<K, V>>): nat {
    if ops == [] then 0 else Adds(ops[..|ops| - 1]) + AddsOne(ops[|ops| - 1])
  }

  lemma Nothing<K, V>(m: map<K, V>)
    ensures After(m, []) == m && Replies(m, []) == [] && Adds<K, V>([]) == 0
  {
  }

  lemma OneMore<K, V>(m: map<K, V>, ops: seq<Op<K, V>>, i: nat)
    requires i < |ops|
    ensures After(m, ops[..i + 1]) == Next(After(m, ops[..i]), ops[i])
    ensures Replies(m, ops[..i + 1]) == Replies(m, ops[..i]) + [Reply(After(m, ops[..i]), ops[i])]
  {
    assert ops[..i + 1][..i] == ops[..i];
  }

  lemma {:induction false} AddsSoFar<K, V>(ops: seq<Op<K, V>>, i: nat)
    requires i < |ops|
    ensures Adds(ops[..i + 1]) == Adds(ops[..i]) + AddsOne(ops[i]) && Adds(ops[..i + 1]) <= Adds(ops)
    decreases |ops| - i
  {
    assert ops[..i + 1][..i] == ops[..i];
    if i + 1 < |ops| { AddsSoFar(ops, i + 1); } else { assert ops[..i + 1] == ops; }
  }

  lemma AtMostAdded<K, V>(m: map<K, V>, op: Op<K, V>)
    ensures |Next(m, op)| <= |m| + AddsOne(op)
  {
    if op.Erase? && op.key in m {
      assert m == (m - {op.key})[op.key := m[op.key]];
    } else if op.Erase? {
      assert m - {op.key} == m;
    }
  }
}
