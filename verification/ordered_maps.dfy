/** PHP arrays used as dictionaries: insertion-ordered maps, represented as
    sequences of key/value pairs. */
module OrderedMaps {
  import opened Basics

  type OMap<V> = seq<(string, V)>

  /** The keys of `m`, in insertion order. */
  function Keys<V>(m: OMap<V>): seq<string>
  {
    seq(|m|, i requires 0 <= i < |m| => m[i].0)
  }

  /** A PHP array never holds the same key twice. */
  predicate UniqueKeys<V>(m: OMap<V>)
  {
    forall i, j :: 0 <= i < j < |m| ==> m[i].0 != m[j].0
  }

  /** Reading `$m[$k]`: the value stored under `k`, if any. */
  function Get<V>(m: OMap<V>, k: string): (r: Option<V>)
    ensures r.Some? <==> k in Keys(m)
    ensures r.Some? ==> (k, r.value) in m
  {
    if |m| == 0 then None
    else
      assert Keys(m) == [m[0].0] + Keys(m[1..]);
      if m[0].0 == k then Some(m[0].1) else Get(m[1..], k)
  }

  /** Writing `$m[$k] = $v`: an existing key keeps its position and gets the
      new value; a new key is appended at the end. */
  function Put<V>(m: OMap<V>, k: string, v: V): (r: OMap<V>)
    ensures |r| == if k in Keys(m) then |m| else |m| + 1
    ensures forall i :: 0 <= i < |m| ==> r[i].0 == m[i].0
    ensures |r| > |m| ==> r[|m|] == (k, v)
  {
    if |m| == 0 then [(k, v)]
    else
      assert m == [m[0]] + m[1..];
      if m[0].0 == k then
        assert Keys(m)[0] == k;
        [(k, v)] + m[1..]
      else
        GetCons(m[0], m[1..], k);
        [m[0]] + Put(m[1..], k, v)
  }

  /** Reading back after `$m[$k] = $v`: `k` holds `v`, every other key reads
      as before. */
  lemma {:induction false} PutGet<V>(m: OMap<V>, k: string, v: V)
    ensures Get(Put(m, k, v), k) == Some(v)
    ensures forall k' :: k' != k ==> Get(Put(m, k, v), k') == Get(m, k')
  {
    if |m| > 0 {
      var r := Put(m, k, v);
      assert m == [m[0]] + m[1..];
      if m[0].0 == k {
        assert r == [(k, v)] + m[1..];
        forall k' | k' != k
          ensures Get(r, k') == Get(m, k')
        {
          GetCons((k, v), m[1..], k');
          GetCons(m[0], m[1..], k');
        }
      } else {
        var rest := Put(m[1..], k, v);
        assert r == [m[0]] + rest;
        PutGet(m[1..], k, v);
        GetCons(m[0], rest, k);
        forall k' | k' != k
          ensures Get(r, k') == Get(m, k')
        {
          if k' != m[0].0 {
            GetCons(m[0], rest, k');
            GetCons(m[0], m[1..], k');
          }
        }
      }
    }
  }

  /** Prepending a pair whose key is new keeps the keys unique. */
  lemma ConsUnique<V>(p: (string, V), m: OMap<V>)
    requires UniqueKeys(m) && p.0 !in Keys(m)
    ensures UniqueKeys([p] + m)
  {
    var r := [p] + m;
    forall i, j | 0 <= i < j < |r|
      ensures r[i].0 != r[j].0
    {
      if i == 0 {
        assert r[j].0 == Keys(m)[j - 1];
      } else {
        assert r[i] == m[i - 1] && r[j] == m[j - 1];
      }
    }
  }

  /** Reading a key other than the head's skips the head. */
  lemma GetCons<V>(p: (string, V), m: OMap<V>, k: string)
    requires k != p.0
    ensures Get([p] + m, k) == Get(m, k)
    ensures k in Keys([p] + m) <==> k in Keys(m)
  {
    assert ([p] + m)[1..] == m;
    assert Keys([p] + m) == [p.0] + Keys(m);
  }
}
