/** The engine's evaluation cache (`Engine.analyze`): a dictionary from a
    position's key (its serialised string) to the score computed the first
    time that key was seen. The dictionary is threaded through explicitly. */
module Cache {

  /** Every stored entry is the evaluation of every position with that key. */
  ghost predicate Consistent<P(!new), K, V>(cache: map<K, V>, key: P -> K, eval: P -> V)
  {
    forall q: P :: key(q) in cache ==> cache[key(q)] == eval(q)
  }

  /** Looks `p` up by its key; on a miss evaluates it and stores the value.
      Returns the value and the new cache. Existing entries are never
      replaced and the only key ever added is `key(p)`. */
  function Lookup<P(!new), K, V>(cache: map<K, V>, key: P -> K, eval: P -> V, p: P): (r: (V, map<K, V>))
    ensures r.1.Keys == cache.Keys + {key(p)}
    ensures forall k :: k in cache ==> r.1[k] == cache[k]
    ensures r.0 == r.1[key(p)]
    ensures key(p) !in cache ==> r.0 == eval(p)
  {
    if key(p) in cache then (cache[key(p)], cache)
    else
      var value := eval(p);
      (value, cache[key(p) := value])
  }

  /** A consistent cache is invisible: the answer is the evaluation itself
      and the cache stays consistent. */
  lemma LookupTransparent<P(!new), K, V>(cache: map<K, V>, key: P -> K, eval: P -> V, p: P)
    requires Consistent(cache, key, eval)
    requires forall q1: P, q2: P :: key(q1) == key(q2) ==> eval(q1) == eval(q2)
    ensures Lookup(cache, key, eval, p).0 == eval(p)
    ensures Consistent(Lookup(cache, key, eval, p).1, key, eval)
  {
    var r := Lookup(cache, key, eval, p);
    forall q: P | key(q) in r.1
      ensures r.1[key(q)] == eval(q)
    {
      if key(q) != key(p) {
        assert key(q) in cache;
      }
    }
  }

  /** Looks up a sequence of positions in turn, threading the cache. */
  function LookupAll<P(!new), K, V>(cache: map<K, V>, key: P -> K, eval: P -> V, ps: seq<P>): (r: (seq<V>, map<K, V>))
    ensures |r.0| == |ps|
    ensures cache.Keys <= r.1.Keys
    ensures forall i :: 0 <= i < |ps| ==> key(ps[i]) in r.1
    decreases |ps|
  {
    if |ps| == 0 then ([], cache)
    else
      var (v, c1) := Lookup(cache, key, eval, ps[0]);
      var (vs, c2) := LookupAll(c1, key, eval, ps[1..]);
      assert forall i :: 1 <= i < |ps| ==> ps[i] == ps[1..][i - 1];
      ([v] + vs, c2)
  }

  /** When the key determines the evaluation, a whole run of lookups
      returns exactly the evaluations, starting from any consistent cache
      (in particular the empty one). */
  lemma {:induction false} LookupAllTransparent<P(!new), K, V>(cache: map<K, V>, key: P -> K, eval: P -> V, ps: seq<P>)
    requires Consistent(cache, key, eval)
    requires forall q1: P, q2: P :: key(q1) == key(q2) ==> eval(q1) == eval(q2)
    ensures forall i :: 0 <= i < |ps| ==> LookupAll(cache, key, eval, ps).0[i] == eval(ps[i])
    ensures Consistent(LookupAll(cache, key, eval, ps).1, key, eval)
    decreases |ps|
  {
    if |ps| > 0 {
      LookupTransparent(cache, key, eval, ps[0]);
      var (v, c1) := Lookup(cache, key, eval, ps[0]);
      LookupAllTransparent(c1, key, eval, ps[1..]);
      var r := LookupAll(cache, key, eval, ps);
      forall i | 0 <= i < |ps|
        ensures r.0[i] == eval(ps[i])
      {
        if i > 0 {
          assert ps[i] == ps[1..][i - 1];
        }
      }
    }
  }

  /** Two positions sharing a key but not an evaluation: once the first is
      cached, the second is answered with the first one's value. */
  lemma StaleOnKeyCollision<P(!new), K, V>(key: P -> K, eval: P -> V, p: P, q: P)
    requires key(p) == key(q) && eval(p) != eval(q)
    ensures var c := Lookup(map[], key, eval, p).1;
            Lookup(c, key, eval, q).0 == eval(p) != eval(q)
  {
  }
}
