/** A first-in first-out queue kept beside a set of keys: the same keys, each once. */
module Queues {
  ghost predicate Lists<K>(order: seq<K>, keys: set<K>)
  {
    multiset(order) == multiset(keys)
  }

  /** What keeping them in step means: same members, no repeats, same size. */
  lemma ListsMeans<K>(order: seq<K>, keys: set<K>)
    requires Lists(order, keys)
    ensures forall k :: k in order <==> k in keys
    ensures forall i, j :: 0 <= i < j < |order| ==> order[i] != order[j]
    ensures |order| == |keys|
  {
    forall k
      ensures k in order <==> k in keys
    {
      assert k in multiset(order) <==> k in multiset(keys);
    }
    forall i, j | 0 <= i < j < |order|
      ensures order[i] != order[j]
    {
      NoRepeats(order, keys, i, j);
    }
    assert |multiset(order)| == |order| && |multiset(keys)| == |keys|;
  }

  lemma NoRepeats<K>(order: seq<K>, keys: set<K>, i: nat, j: nat)
    requires Lists(order, keys) && i < j < |order|
    ensures order[i] != order[j]
  {
    assert order == order[..j] + [order[j]] + order[j + 1..];
    assert multiset(order) == multiset(order[..j]) + multiset{order[j]} + multiset(order[j + 1..]);
    assert order[..j][i] == order[i];
    assert order[i] in multiset(order[..j]);
    assert multiset(keys)[order[j]] <= 1;
  }

  /** Dequeuing the front removes exactly its key. */
  lemma PopFront<K>(order: seq<K>, keys: set<K>)
    requires Lists(order, keys) && order != []
    ensures order[0] in keys && Lists(order[1..], keys - {order[0]})
  {
    assert order == [order[0]] + order[1..];
    assert order[0] in multiset(order) && order[0] in multiset(keys);
    assert multiset(order[1..]) == multiset(order) - multiset{order[0]};
    assert multiset(keys - {order[0]}) == multiset(keys) - multiset{order[0]};
  }

  /** Enqueuing a new key adds exactly that key. */
  lemma PushBack<K>(order: seq<K>, keys: set<K>, key: K)
    requires Lists(order, keys) && key !in keys
    ensures Lists(order + [key], keys + {key})
  {
  }

  lemma UpdateKeys<K, V>(m: map<K, V>, key: K, value: V)
    ensures m[key := value].Keys == m.Keys + {key}
    ensures (m - {key}).Keys == m.Keys - {key}
  {
  }
}
