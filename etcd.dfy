/** The coordination store (etcd) as the keepalive handle sees it: a map from
    key to (value, time-to-live), and the calls the handle issues against it.
    A call either succeeds, and changes the map, or fails, and changes nothing. */
module Etcd {

  const TwoTo64 := 0x1_0000_0000_0000_0000

  /** Go's uint64. */
  type U64 = x: int | 0 <= x < TwoTo64

  /** The two client operations the handle uses: `client.Set(key, value, ttl)`
      and `client.Delete(key, false)`. */
  datatype Op = Set(key: string, value: string, ttl: U64) | Delete(key: string)

  /** One issued call and whether the store reported success. */
  datatype Call = Call(op: Op, ok: bool)

  type Store = map<string, (string, nat)>

  /** The store after one call. Only the call's own key can change. */
  function Apply(s: Store, c: Call): (r: Store)
    ensures !c.ok ==> r == s
    ensures c.ok && c.op.Set? ==> c.op.key in r && r[c.op.key] == (c.op.value, c.op.ttl as nat)
    ensures c.ok && c.op.Delete? ==> c.op.key !in r
    ensures forall k :: k != c.op.key ==> (k in r <==> k in s)
    ensures forall k :: k != c.op.key && k in s ==> r[k] == s[k]
  {
    if !c.ok then s
    else match c.op
      case Set(k, v, t) => s[k := (v, t as nat)]
      case Delete(k) => s - {k}
  }

  /** The store after a sequence of calls, applied first to last. */
  function Replay(s: Store, calls: seq<Call>): Store
    decreases |calls|
  {
    if calls == [] then s
    else Apply(Replay(s, calls[..|calls| - 1]), calls[|calls| - 1])
  }

  /** The number of deletes issued (successful or not). */
  function Deletes(calls: seq<Call>): nat
    decreases |calls|
  {
    if calls == [] then 0
    else Deletes(calls[..|calls| - 1]) + (if calls[|calls| - 1].op.Delete? then 1 else 0)
  }

  /** Replaying two runs of calls one after the other is replaying their concatenation. */
  lemma {:induction false} ReplayConcat(s: Store, a: seq<Call>, b: seq<Call>)
    ensures Replay(s, a + b) == Replay(Replay(s, a), b)
    decreases |b|
  {
    if b == [] {
      assert a + b == a;
    } else {
      var b' := b[..|b| - 1];
      assert (a + b)[..|a + b| - 1] == a + b';
      assert (a + b)[|a + b| - 1] == b[|b| - 1];
      ReplayConcat(s, a, b');
    }
  }

  /** Appending one call adds one to the delete count exactly when it is a delete. */
  lemma DeletesSnoc(calls: seq<Call>, c: Call)
    ensures Deletes(calls + [c]) == Deletes(calls) + (if c.op.Delete? then 1 else 0)
  {
    assert (calls + [c])[..|calls + [c]| - 1] == calls;
  }

}
