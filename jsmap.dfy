/**
 * A JavaScript `Map` with string keys, modelled as the list of its entries in insertion order.
 * `set` on a present key overwrites the value in place and keeps the key's position;
 * `set` on a new key appends it; `delete` removes the key's entry and keeps the order of the rest.
 */
module JsMap {
  import opened Wrappers

  type Entries<V> = seq<(string, V)>

  /** `[...m.keys()]`: the keys in insertion order. */
  function Keys<V>(m: Entries<V>): (ks: seq<string>)
    ensures |ks| == |m|
    ensures forall i :: 0 <= i < |m| ==> ks[i] == m[i].0
  {
    if m == [] then [] else [m[0].0] + Keys(m[1..])
  }

  /** The set of keys present in `m`. */
  function KeySet<V>(m: Entries<V>): set<string>
  {
    set i | 0 <= i < |m| :: m[i].0
  }

  /** A JavaScript `Map` never holds the same key twice. */
  ghost predicate DistinctKeys<V>(m: Entries<V>)
  {
    forall i, j :: 0 <= i < j < |m| ==> m[i].0 != m[j].0
  }

  /** `m.has(k)`. */
  function Has<V>(m: Entries<V>, k: string): (b: bool)
    ensures b <==> exists i :: 0 <= i < |m| && m[i].0 == k
  {
    k in Keys(m)
  }

  /** `m.get(k)`: the value of the entry with key `k`, or `None` (`undefined`) when there is none. */
  function Get<V>(m: Entries<V>, k: string): (r: Option<V>)
    ensures r.Some? <==> Has(m, k)
    ensures r.Some? ==> (k, r.value) in m
  {
    if m == [] then None
    else if m[0].0 == k then Some(m[0].1)
    else Get(m[1..], k)
  }

  /** `m.set(k, v)`: overwrite in place when `k` is present, otherwise append a new entry. */
  function Set<V>(m: Entries<V>, k: string, v: V): (r: Entries<V>)
    ensures (k, v) in r
    ensures |r| == if Has(m, k) then |m| else |m| + 1
  {
    if m == [] then [(k, v)]
    else if m[0].0 == k then [(k, v)] + m[1..]
    else [m[0]] + Set(m[1..], k, v)
  }

  /** `m.delete(k)`: drop the entry with key `k`. */
  function Delete<V>(m: Entries<V>, k: string): (r: Entries<V>)
    ensures !Has(r, k)
    ensures |r| <= |m| && (|r| == |m| <==> !Has(m, k))
    ensures forall i :: 0 <= i < |m| && m[i].0 != k ==> m[i] in r
    ensures forall i :: 0 <= i < |r| && r[i].0 != k ==> r[i] in m
  {
    if m == [] then []
    else if m[0].0 == k then Delete(m[1..], k)
    else [m[0]] + Delete(m[1..], k)
  }

  /** The keys of `m` other than `k`, in their order. */
  function KeysWithout(ks: seq<string>, k: string): seq<string>
  {
    if ks == [] then []
    else if ks[0] == k then KeysWithout(ks[1..], k)
    else [ks[0]] + KeysWithout(ks[1..], k)
  }

  lemma {:induction false} DistinctKeysTail<V>(m: Entries<V>)
    requires m != [] && DistinctKeys(m)
    ensures DistinctKeys(m[1..]) && !Has(m[1..], m[0].0)
  {
    assert forall i :: 0 <= i < |m| - 1 ==> m[1..][i] == m[i + 1];
  }

  /** The entry at index `i` of a map is what `get` finds for its key. */
  lemma {:induction false} GetAt<V>(m: Entries<V>, i: nat)
    requires i < |m| && DistinctKeys(m)
    ensures Get(m, m[i].0) == Some(m[i].1)
  {
    if i > 0 {
      DistinctKeysTail(m);
      GetAt(m[1..], i - 1);
    }
  }

  /** After `set(k, v)`, `get(k)` is `v` and every other key reads as before. */
  lemma {:induction false} GetSet<V>(m: Entries<V>, k: string, v: V, q: string)
    ensures Get(Set(m, k, v), q) == if q == k then Some(v) else Get(m, q)
  {
    if m != [] && m[0].0 != k {
      GetSet(m[1..], k, v, q);
    }
  }

  /** `set` keeps the position of a present key and appends a new one at the end. */
  lemma {:induction false} KeysSet<V>(m: Entries<V>, k: string, v: V)
    ensures Keys(Set(m, k, v)) == if Has(m, k) then Keys(m) else Keys(m) + [k]
  {
    if m != [] && m[0].0 != k {
      KeysSet(m[1..], k, v);
      assert Keys(m) == [m[0].0] + Keys(m[1..]);
    }
  }

  /** `set` on a key that is not yet present appends one entry at the end. */
  lemma {:induction false} SetNewAppends<V>(m: Entries<V>, k: string, v: V)
    requires !Has(m, k)
    ensures Set(m, k, v) == m + [(k, v)]
  {
    if m != [] {
      assert Keys(m) == [m[0].0] + Keys(m[1..]);
      SetNewAppends(m[1..], k, v);
      assert m == [m[0]] + m[1..];
    }
  }

  /** `set` keeps the keys distinct. */
  lemma SetDistinct<V>(m: Entries<V>, k: string, v: V)
    requires DistinctKeys(m)
    ensures DistinctKeys(Set(m, k, v))
  {
    KeysSet(m, k, v);
    var r := Set(m, k, v);
    if Has(m, k) {
      assert Keys(r) == Keys(m);
    } else {
      assert Keys(r) == Keys(m) + [k];
      assert forall i :: 0 <= i < |m| ==> r[i].0 == m[i].0;
    }
  }

  /** `for (const k of ks) m.set(k, v)`: a run of `set` calls that all store the same value. */
  function SetAll<V>(m: Entries<V>, ks: seq<string>, v: V): Entries<V>
    decreases |ks|
  {
    if ks == [] then m else SetAll(Set(m, ks[0], v), ks[1..], v)
  }

  /** A run starts with its first `set`. */
  lemma SetAllCons<V>(m: Entries<V>, k: string, ks: seq<string>, v: V)
    ensures SetAll(m, [k] + ks, v) == SetAll(Set(m, k, v), ks, v)
  {
    assert ([k] + ks)[1..] == ks;
  }

  /** One more `set` at the end of a run extends the run. */
  lemma {:induction false} SetAllSnoc<V>(m: Entries<V>, ks: seq<string>, k: string, v: V)
    ensures SetAll(m, ks + [k], v) == Set(SetAll(m, ks, v), k, v)
    decreases |ks|
  {
    if ks == [] {
      assert SetAll(m, [k], v) == SetAll(Set(m, k, v), [], v);
    } else {
      assert (ks + [k])[1..] == ks[1..] + [k];
      SetAllSnoc(Set(m, ks[0], v), ks[1..], k, v);
    }
  }

  /** After a run of `set` calls with value `v`, the written keys read `v` and the others read as before. */
  lemma {:induction false} GetSetAll<V>(m: Entries<V>, ks: seq<string>, v: V, q: string)
    ensures Get(SetAll(m, ks, v), q) == if q in ks then Some(v) else Get(m, q)
    decreases |ks|
  {
    if ks != [] {
      GetSetAll(Set(m, ks[0], v), ks[1..], v, q);
      GetSet(m, ks[0], v, q);
      assert q in ks <==> q == ks[0] || q in ks[1..];
    }
  }

  /** A run of `set` calls keeps the keys distinct. */
  lemma {:induction false} SetAllDistinct<V>(m: Entries<V>, ks: seq<string>, v: V)
    requires DistinctKeys(m)
    ensures DistinctKeys(SetAll(m, ks, v))
    decreases |ks|
  {
    if ks != [] {
      SetDistinct(m, ks[0], v);
      SetAllDistinct(Set(m, ks[0], v), ks[1..], v);
    }
  }

  /** After a run of `set` calls, the present keys are the old ones and the written ones. */
  lemma HasSetAll<V>(m: Entries<V>, ks: seq<string>, v: V)
    ensures forall q :: Has(SetAll(m, ks, v), q) <==> Has(m, q) || q in ks
  {
    forall q ensures Has(SetAll(m, ks, v), q) <==> Has(m, q) || q in ks {
      GetSetAll(m, ks, v, q);
    }
  }

  /** After `delete(k)`, `k` is absent and every other key reads as before. */
  lemma {:induction false} GetDelete<V>(m: Entries<V>, k: string, q: string)
    ensures Get(Delete(m, k), q) == if q == k then None else Get(m, q)
  {
    if m != [] {
      GetDelete(m[1..], k, q);
    }
  }

  /** `delete(k)` removes `k` from the key order and keeps the order of the other keys. */
  lemma {:induction false} KeysDelete<V>(m: Entries<V>, k: string)
    ensures Keys(Delete(m, k)) == KeysWithout(Keys(m), k)
  {
    if m != [] {
      KeysDelete(m[1..], k);
      assert Keys(m)[1..] == Keys(m[1..]);
    }
  }

  lemma DistinctCons<V>(e: (string, V), t: Entries<V>)
    requires DistinctKeys(t) && !Has(t, e.0)
    ensures DistinctKeys([e] + t)
  {
    var r := [e] + t;
    forall j | 0 < j < |r| ensures r[j].0 != e.0 {
      assert r[j] == t[j - 1] && Keys(t)[j - 1] == t[j - 1].0;
    }
    forall i, j | 0 < i < j < |r| ensures r[i].0 != r[j].0 {
      assert r[i] == t[i - 1] && r[j] == t[j - 1];
    }
  }

  /** `delete` keeps the keys distinct. */
  lemma {:induction false} DeleteDistinct<V>(m: Entries<V>, k: string)
    requires DistinctKeys(m)
    ensures DistinctKeys(Delete(m, k))
  {
    if m != [] {
      DistinctKeysTail(m);
      DeleteDistinct(m[1..], k);
      if m[0].0 != k {
        GetDelete(m[1..], k, m[0].0);
        DistinctCons(m[0], Delete(m[1..], k));
      }
    }
  }

  /** `m.size` counts distinct keys: the number of entries equals the number of keys present. */
  lemma {:induction false} SizeIsKeyCount<V>(m: Entries<V>)
    requires DistinctKeys(m)
    ensures |KeySet(m)| == |m|
  {
    if m != [] {
      DistinctKeysTail(m);
      SizeIsKeyCount(m[1..]);
      assert KeySet(m) == {m[0].0} + KeySet(m[1..]) by {
        forall x | x in KeySet(m) ensures x in {m[0].0} + KeySet(m[1..]) {
          var i :| 0 <= i < |m| && m[i].0 == x;
          if i > 0 { assert m[1..][i - 1].0 == x; }
        }
        forall x | x in KeySet(m[1..]) ensures x in KeySet(m) {
          var i :| 0 <= i < |m[1..]| && m[1..][i].0 == x;
          assert m[i + 1].0 == x;
        }
      }
      forall i | 0 <= i < |m[1..]| ensures m[1..][i].0 != m[0].0 {
        assert m[1..][i] == m[i + 1];
      }
    }
  }
}
