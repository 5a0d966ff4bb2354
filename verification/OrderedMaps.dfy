/** Maps that remember the order in which their keys were first set. */
module OrderedMaps {
  import opened Strings

  datatype Map<!K(!new,==), V> = Map(keys: seq<K>, at: map<K, V>)
  {
    ghost predicate Ok()
    {
      Distinct(keys) && forall k :: k in keys <==> k in at
    }

    function Get(k: K, default: V): V
    {
      if k in at then at[k] else default
    }

    function Set(k: K, v: V): Map<K, V>
    {
      Map(if k in at then keys else keys + [k], at[k := v])
    }
  }

  function Empty<K(!new), V>(): Map<K, V>
  {
    Map([], map[])
  }

  lemma SetOk<K(!new), V>(m: Map<K, V>, k: K, v: V)
    requires m.Ok()
    ensures m.Set(k, v).Ok()
  {
  }

  /** The sum of the values a map of counters holds for the listed keys. */
  function Sum<K>(keys: seq<K>, at: map<K, nat>): nat
  {
    if keys == [] then 0
    else var k := keys[|keys| - 1]; Sum(keys[..|keys| - 1], at) + if k in at then at[k] else 0
  }

  function Total<K(!new)>(m: Map<K, nat>): nat
  {
    Sum(m.keys, m.at)
  }

  lemma {:induction false} SumUpdate<K>(keys: seq<K>, at: map<K, nat>, k: K, v: nat)
    requires Distinct(keys)
    ensures Sum(keys, at[k := v]) ==
            Sum(keys, at) + if k in keys then v - (if k in at then at[k] else 0) else 0
  {
    if keys != [] {
      var rest := keys[..|keys| - 1];
      assert keys == rest + [keys[|keys| - 1]];
      SumUpdate(rest, at, k, v);
      if keys[|keys| - 1] == k {
        assert k !in rest;
      }
    }
  }

  /** Setting one counter changes the total by the change of that counter. */
  lemma TotalSet<K(!new)>(m: Map<K, nat>, k: K, v: nat)
    requires m.Ok()
    ensures Total(m.Set(k, v)) == Total(m) + v - m.Get(k, 0)
  {
    SumUpdate(m.keys, m.at, k, v);
    if k !in m.at {
      assert (m.keys + [k])[..|m.keys|] == m.keys;
    }
  }
}
