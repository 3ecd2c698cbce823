/** PHP's ordered arrays with string keys: a sequence of key/value entries in
    insertion order in which every key appears at most once. Assigning to an
    existing key replaces its value where it stands; assigning to a new key
    appends an entry. */
module OrderedMaps {
  import opened Wrappers

  type OMap<K, V> = seq<(K, V)>

  function Keys<K, V>(m: OMap<K, V>): (ks: seq<K>)
    ensures |ks| == |m|
    ensures forall i {:trigger ks[i]} :: 0 <= i < |m| ==> ks[i] == m[i].0
  {
    if |m| == 0 then [] else [m[0].0] + Keys(m[1..])
  }

  function Values<K, V>(m: OMap<K, V>): (vs: seq<V>)
    ensures |vs| == |m|
    ensures forall i {:trigger vs[i]} :: 0 <= i < |m| ==> vs[i] == m[i].1
  {
    if |m| == 0 then [] else [m[0].1] + Values(m[1..])
  }

  predicate Distinct<T(==)>(s: seq<T>) {
    forall i, j :: 0 <= i < j < |s| ==> s[i] != s[j]
  }

  /** Every key appears at most once, as in any PHP array. */
  predicate WellFormed<K(==), V>(m: OMap<K, V>) {
    Distinct(Keys(m))
  }

  /** The value stored under `k`, or None when `isset` would be false. */
  function Get<K(==), V>(m: OMap<K, V>, k: K): (r: Option<V>)
    ensures r.Some? <==> k in Keys(m)
    ensures r.Some? ==> (k, r.value) in m
  {
    if |m| == 0 then None
    else if m[0].0 == k then Some(m[0].1)
    else Get(m[1..], k)
  }

  /** The entries stored under `k`, or the empty array when there is none. */
  function GetOrEmpty<K(==), K2, V>(m: OMap<K, OMap<K2, V>>, k: K): OMap<K2, V> {
    match Get(m, k)
    case Some(inner) => inner
    case None => []
  }

  /** The key sequence after an assignment to key `k`. */
  function AddKey<K(==,!new)>(ks: seq<K>, k: K): (r: seq<K>)
    ensures Distinct(ks) ==> Distinct(r)
    ensures forall x {:trigger x in r} :: x in r <==> x in ks || x == k
  {
    if k in ks then ks else ks + [k]
  }

  /** PHP's `$m[$k] = $v`. */
  function Put<K(==,!new), V>(m: OMap<K, V>, k: K, v: V): (r: OMap<K, V>)
    ensures Keys(r) == AddKey(Keys(m), k)
    ensures Get(r, k) == Some(v)
    ensures forall k' :: k' != k ==> Get(r, k') == Get(m, k')
  {
    if |m| == 0 then [(k, v)]
    else if m[0].0 == k then
      var r := [(k, v)] + m[1..];
      assert r[1..] == m[1..];
      r
    else
      var rest := Put(m[1..], k, v);
      PutCons(m, k, v, rest);
      [m[0]] + rest
  }

  /** The step of `Put` past a first entry with another key. */
  lemma PutCons<K(!new), V>(m: OMap<K, V>, k: K, v: V, rest: OMap<K, V>)
    requires |m| > 0 && m[0].0 != k
    requires Keys(rest) == AddKey(Keys(m[1..]), k)
    requires Get(rest, k) == Some(v)
    requires forall k' :: k' != k ==> Get(rest, k') == Get(m[1..], k')
    ensures Keys([m[0]] + rest) == AddKey(Keys(m), k)
    ensures Get([m[0]] + rest, k) == Some(v)
    ensures forall k' :: k' != k ==> Get([m[0]] + rest, k') == Get(m, k')
  {
    var r := [m[0]] + rest;
    assert r[1..] == rest;
    assert Keys(r) == [m[0].0] + Keys(rest);
    assert Keys(m) == [m[0].0] + Keys(m[1..]);
    if k in Keys(m[1..]) {
      assert k in Keys(m);
    } else {
      assert k !in Keys(m);
      assert [m[0].0] + (Keys(m[1..]) + [k]) == Keys(m) + [k];
    }
  }

  /** The distinct elements of `s` in order of first occurrence: the keys of
      a PHP array after assigning to the keys of `s` one by one. */
  function Dedup<T(==,!new)>(s: seq<T>): (r: seq<T>)
    ensures Distinct(r)
    ensures forall x {:trigger x in r} :: x in r <==> x in s
  {
    if |s| == 0 then []
    else
      assert s == s[..|s| - 1] + [s[|s| - 1]];
      AddKey(Dedup(s[..|s| - 1]), s[|s| - 1])
  }

  /** The first `n` elements of `s`, or all of them when there are fewer:
      `array_slice($s, 0, $n)` guarded by `count($s) > $n`. */
  function Take<T>(s: seq<T>, n: nat): (r: seq<T>)
    ensures |r| <= n && |r| <= |s|
    ensures |r| == if |s| <= n then |s| else n
    ensures r == s[..|r|]
  {
    if |s| > n then s[..n] else s
  }

  /** PHP's `array_merge($a, $b)` for string-keyed arrays: entries of `b` are
      assigned into `a` one by one. */
  function Merge<K(==,!new), V>(a: OMap<K, V>, b: OMap<K, V>): (r: OMap<K, V>)
    ensures WellFormed(a) ==> WellFormed(r)
    ensures forall k {:trigger k in Keys(r)} :: k in Keys(r) <==> k in Keys(a) || k in Keys(b)
    decreases |b|
  {
    if |b| == 0 then a
    else
      assert Keys(b) == [b[0].0] + Keys(b[1..]);
      Merge(Put(a, b[0].0, b[0].1), b[1..])
  }

  lemma KeysAppend<K, V>(a: OMap<K, V>, b: OMap<K, V>)
    ensures Keys(a + b) == Keys(a) + Keys(b)
  {
  }

  lemma ValuesAppend<K, V>(a: OMap<K, V>, b: OMap<K, V>)
    ensures Values(a + b) == Values(a) + Values(b)
  {
  }

  lemma KeysTake<K, V>(m: OMap<K, V>, n: nat)
    ensures Keys(Take(m, n)) == Take(Keys(m), n)
  {
  }

  /** In a well-formed array each entry is what a lookup of its key finds. */
  lemma {:induction false} GetEntry<K, V>(m: OMap<K, V>, i: nat)
    requires WellFormed(m)
    requires i < |m|
    ensures Get(m, m[i].0) == Some(m[i].1)
    decreases i
  {
    if i > 0 {
      assert m[0].0 != m[i].0 by { assert Keys(m)[0] != Keys(m)[i]; }
      assert WellFormed(m[1..]) by {
        forall p, q | 0 <= p < q < |m[1..]|
          ensures Keys(m[1..])[p] != Keys(m[1..])[q]
        {
          assert Keys(m)[p + 1] != Keys(m)[q + 1];
        }
      }
      GetEntry(m[1..], i - 1);
    }
  }

  /** Assigning a key the array does not hold appends one entry at the end. */
  lemma {:induction false} PutFresh<K(!new), V>(m: OMap<K, V>, k: K, v: V)
    requires k !in Keys(m)
    ensures Put(m, k, v) == m + [(k, v)]
  {
    if |m| > 0 {
      KeysCons(m);
      PutFresh(m[1..], k, v);
      assert Put(m, k, v) == [m[0]] + Put(m[1..], k, v);
      ConsAppend(m, (k, v));
    }
  }

  lemma KeysCons<K, V>(m: OMap<K, V>)
    requires |m| > 0
    ensures Keys(m) == [m[0].0] + Keys(m[1..])
  {
  }

  lemma ConcatAssoc<T>(a: seq<T>, b: seq<T>, c: seq<T>)
    ensures (a + b) + c == a + (b + c)
  {
  }

  lemma ConsAppend<T>(s: seq<T>, x: T)
    requires |s| > 0
    ensures [s[0]] + (s[1..] + [x]) == s + [x]
  {
    assert [s[0]] + s[1..] == s;
  }

  lemma DistinctTail<T>(s: seq<T>)
    requires |s| > 0 && Distinct(s)
    ensures Distinct(s[1..])
    ensures s[0] !in s[1..]
  {
  }

  /** No key of `a` is a key of `b`. */
  predicate KeysDisjoint<K(==), V>(a: OMap<K, V>, b: OMap<K, V>) {
    forall i, j :: 0 <= i < |a| && 0 <= j < |b| ==> a[i].0 != b[j].0
  }

  /** One step of `MergeDisjoint`: the first entry of `b` is appended, and
      the rest of `b` stays new to the extended array. */
  lemma MergeDisjointStep<K(!new), V>(a: OMap<K, V>, b: OMap<K, V>)
    requires |b| > 0 && WellFormed(b) && KeysDisjoint(a, b)
    ensures Put(a, b[0].0, b[0].1) == a + [b[0]]
    ensures WellFormed(b[1..]) && KeysDisjoint(a + [b[0]], b[1..])
  {
    assert b[0].0 !in Keys(a);
    PutFresh(a, b[0].0, b[0].1);
    assert Keys(b[1..]) == Keys(b)[1..];
    forall i, j | 0 <= i < |a| + 1 && 0 <= j < |b| - 1
      ensures (a + [b[0]])[i].0 != b[1..][j].0
    {
      if i == |a| {
        assert Keys(b)[0] != Keys(b)[j + 1];
      }
    }
  }

  lemma ConsTail<T>(a: seq<T>, b: seq<T>)
    requires |b| > 0
    ensures (a + [b[0]]) + b[1..] == a + b
  {
    assert [b[0]] + b[1..] == b;
  }

  /** Merging an array whose keys are new to `a` is concatenation. */
  lemma {:induction false} MergeDisjoint<K(!new), V>(a: OMap<K, V>, b: OMap<K, V>)
    requires WellFormed(b) && KeysDisjoint(a, b)
    ensures Merge(a, b) == a + b
    decreases |b|
  {
    if |b| == 0 {
      assert a + b == a;
    } else {
      MergeDisjointStep(a, b);
      MergeDisjoint(a + [b[0]], b[1..]);
      ConsTail(a, b);
    }
  }

  /** PHP's `array_flip`: the values become keys and the keys values,
      assigned in order, so a repeated value keeps its last key. */
  function Flip<K, V(==,!new)>(m: OMap<K, V>): (r: OMap<V, K>)
    ensures Keys(r) == Dedup(Values(m))
    decreases |m|
  {
    if |m| == 0 then []
    else
      var init := m[..|m| - 1];
      assert Values(m) == Values(init) + [m[|m| - 1].1] by { ValuesAppend(init, [m[|m| - 1]]); assert m == init + [m[|m| - 1]]; }
      Put(Flip(init), m[|m| - 1].1, m[|m| - 1].0)
  }

  /** Every entry of the flipped array comes from an entry of the original. */
  lemma {:induction false} FlipFrom<K, V(!new)>(m: OMap<K, V>, v: V)
    ensures Get(Flip(m), v).Some? ==> (Get(Flip(m), v).value, v) in m
    decreases |m|
  {
    if |m| > 0 {
      var n := |m| - 1;
      var init := m[..n];
      assert m == init + [m[n]];
      assert Flip(m) == Put(Flip(init), m[n].1, m[n].0);
      if v == m[n].1 {
        assert m[n] in m;
      } else {
        FlipFrom(init, v);
        assert forall p :: p in init ==> p in m;
      }
    }
  }

  /** With distinct values, flipping finds each entry's key from its
      value. */
  lemma {:induction false} FlipTo<K, V(!new)>(m: OMap<K, V>, k: K, v: V)
    requires Distinct(Values(m))
    requires (k, v) in m
    ensures Get(Flip(m), v) == Some(k)
    decreases |m|
  {
    var n := |m| - 1;
    var init := m[..n];
    assert m == init + [m[n]];
    if m[n] != (k, v) {
      assert (k, v) in init;
      var i :| 0 <= i < n && init[i] == (k, v);
      assert Values(m)[i] != Values(m)[n];
      assert Distinct(Values(init)) by {
        forall p, q | 0 <= p < q < |init| ensures Values(init)[p] != Values(init)[q] {
          assert Values(m)[p] != Values(m)[q];
        }
      }
      FlipTo(init, k, v);
    }
  }

  /** In a well-formed array an entry is what a lookup of its key finds. */
  lemma GetPair<K, V>(m: OMap<K, V>, k: K, v: V)
    requires WellFormed(m) && (k, v) in m
    ensures Get(m, k) == Some(v)
  {
    var i :| 0 <= i < |m| && m[i] == (k, v);
    GetEntry(m, i);
  }

  /** Every entry after an assignment is the assigned one or was there
      before. */
  lemma {:induction false} PutEntries<K(!new), V>(m: OMap<K, V>, k: K, v: V)
    ensures forall p {:trigger p in Put(m, k, v)} :: p in Put(m, k, v) ==> p == (k, v) || p in m
    decreases |m|
  {
    if |m| > 0 && m[0].0 != k {
      PutEntries(m[1..], k, v);
      assert forall p :: p in [m[0]] + Put(m[1..], k, v) ==> p == m[0] || p in Put(m[1..], k, v);
    }
  }

  /** Every entry of a merge comes from one of the two arrays. */
  lemma {:induction false} MergeEntries<K(!new), V>(a: OMap<K, V>, b: OMap<K, V>)
    ensures forall p {:trigger p in Merge(a, b)} :: p in Merge(a, b) ==> p in a || p in b
    decreases |b|
  {
    if |b| > 0 {
      PutEntries(a, b[0].0, b[0].1);
      MergeEntries(Put(a, b[0].0, b[0].1), b[1..]);
    }
  }

  /** A prefix of a well-formed array is well-formed. */
  lemma TakeWellFormed<K, V>(m: OMap<K, V>, n: nat)
    requires WellFormed(m)
    ensures WellFormed(Take(m, n))
  {
    KeysTake(m, n);
  }
}
