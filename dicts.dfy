/**
 * A Python `dict` as a value: the keys in insertion order (the order in
 * which `for k in d` visits them) and the value stored under each key.
 * Key assignment, `pop` and the rename used at registration are the only
 * mutations the chat server performs on its registry.
 */
module Dicts {

  datatype Dict<K, V> = Dict(order: seq<K>, vals: map<K, V>)

  /** No element occurs twice in `s`. */
  ghost predicate Distinct<K(!new)>(s: seq<K>) {
    forall i, j :: 0 <= i < j < |s| ==> s[i] != s[j]
  }

  /** The iteration order lists every key of the dict exactly once. */
  ghost predicate Valid<K(!new), V>(d: Dict<K, V>) {
    Distinct(d.order) && forall k :: k in d.vals <==> k in d.order
  }

  /** The empty dict, `{}`. */
  function Empty<K(==, !new), V>(): (r: Dict<K, V>)
    ensures Valid(r) && r.vals == map[] && r.order == []
  {
    Dict([], map[])
  }

  /** `s` with every occurrence of `k` taken out, the rest in the same order. */
  function Without<K(==, !new)>(s: seq<K>, k: K): (r: seq<K>)
    ensures forall x :: x in r <==> x in s && x != k
    ensures k !in s ==> r == s
  {
    if s == [] then []
    else if s[0] == k then Without(s[1..], k)
    else [s[0]] + Without(s[1..], k)
  }

  /** Taking a key out of a list without repetitions shortens it by one. */
  lemma {:induction false} WithoutDistinct<K(!new)>(s: seq<K>, k: K)
    ensures Distinct(s) ==> Distinct(Without(s, k))
    ensures Distinct(s) && k in s ==> |Without(s, k)| == |s| - 1
  {
    if s != [] {
      WithoutDistinct(s[1..], k);
      assert Distinct(s) ==> s[0] !in s[1..];
    }
  }

  lemma {:induction false} WithoutConcat<K(!new)>(a: seq<K>, b: seq<K>, k: K)
    ensures Without(a + b, k) == Without(a, k) + Without(b, k)
  {
    if a == [] {
      assert a + b == b;
    } else {
      assert (a + b)[0] == a[0];
      assert (a + b)[1..] == a[1..] + b;
      WithoutConcat(a[1..], b, k);
    }
  }

  /**
   * A left-to-right scan of `s` that skips `k`: after position `i` it has
   * produced one more element of `Without(s, k)` exactly when `s[i] != k`.
   */
  lemma WithoutStep<K(!new)>(s: seq<K>, i: nat, k: K)
    requires i < |s|
    ensures Without(s[..i + 1], k) == Without(s[..i], k) + if s[i] == k then [] else [s[i]]
    ensures s[i] != k ==>
      |Without(s[..i], k)| < |Without(s, k)| && Without(s, k)[|Without(s[..i], k)|] == s[i]
  {
    assert s[..i + 1] == s[..i] + [s[i]];
    WithoutConcat(s[..i], [s[i]], k);
    assert s[..i] + s[i..] == s;
    WithoutConcat(s[..i], s[i..], k);
    assert s[i..][0] == s[i];
  }

  lemma {:induction false} DistinctCard<K(!new)>(s: seq<K>)
    requires Distinct(s)
    ensures |(set x | x in s)| == |s|
  {
    if s != [] {
      DistinctCard(s[1..]);
      assert (set x | x in s) == {s[0]} + (set x | x in s[1..]);
    }
  }

  /** `len(d)`: the number of entries equals the length of the iteration order. */
  lemma SizeIsLength<K(!new), V>(d: Dict<K, V>)
    requires Valid(d)
    ensures |d.vals| == |d.order|
  {
    DistinctCard(d.order);
    assert d.vals.Keys == (set x | x in d.order);
  }

  /**
   * `d[k] = v`: a new key goes to the end of the iteration order; an
   * existing key keeps its place and only its value is replaced.
   */
  function Assign<K(==, !new), V>(d: Dict<K, V>, k: K, v: V): (r: Dict<K, V>)
    ensures k in r.vals && r.vals[k] == v
    ensures forall j :: j != k ==> (j in r.vals <==> j in d.vals)
    ensures forall j :: j != k && j in d.vals ==> r.vals[j] == d.vals[j]
    ensures Valid(d) ==> Valid(r)
    ensures Valid(d) && k in d.vals ==> r.order == d.order
    ensures Valid(d) && k !in d.vals ==> r.order == d.order + [k] && |r.order| == |d.order| + 1
  {
    if k in d.vals then Dict(d.order, d.vals[k := v])
    else Dict(d.order + [k], d.vals[k := v])
  }

  /**
   * `d.pop(k)`, which Python only allows for a present key: the entry is
   * gone, its value is returned, and every other key keeps its value and
   * its relative place in the iteration order.
   */
  function Pop<K(==, !new), V>(d: Dict<K, V>, k: K): (r: (Dict<K, V>, V))
    requires k in d.vals
    ensures r.1 == d.vals[k]
    ensures k !in r.0.vals
    ensures forall j :: j != k ==> (j in r.0.vals <==> j in d.vals)
    ensures forall j :: j != k && j in d.vals ==> r.0.vals[j] == d.vals[j]
    ensures r.0.order == Without(d.order, k)
    ensures Valid(d) ==> Valid(r.0) && |r.0.order| == |d.order| - 1
  {
    WithoutDistinct(d.order, k);
    (Dict(Without(d.order, k), d.vals - {k}), d.vals[k])
  }

  /** Pop `k` when it is present; a dict without `k` is left as it is. */
  function Remove<K(==, !new), V>(d: Dict<K, V>, k: K): (r: Dict<K, V>)
    ensures k !in r.vals
    ensures r.vals == d.vals - {k}
    ensures Valid(d) ==> Valid(r) && r.order == Without(d.order, k)
    ensures k !in d.vals ==> r == d
  {
    if k in d.vals then Pop(d, k).0 else d
  }

  /** Removing a key a second time changes nothing. */
  lemma RemoveTwice<K(!new), V>(d: Dict<K, V>, k: K)
    ensures Remove(Remove(d, k), k) == Remove(d, k)
  {
  }

  /**
   * `v = d.pop(a); d[n] = v`: the value stored under `a` moves to `n`.
   * A new `n` goes to the end of the iteration order; an existing `n`
   * other than `a` keeps its place and loses its previous value.
   */
  function Rename<K(==, !new), V>(d: Dict<K, V>, a: K, n: K): (r: Dict<K, V>)
    requires a in d.vals
    ensures n in r.vals && r.vals[n] == d.vals[a]
    ensures a != n ==> a !in r.vals
    ensures forall j :: j != a && j != n ==> (j in r.vals <==> j in d.vals)
    ensures forall j :: j != a && j != n && j in d.vals ==> r.vals[j] == d.vals[j]
    ensures Valid(d) ==> Valid(r)
    ensures Valid(d) && n !in d.vals ==> r.order == Without(d.order, a) + [n]
    ensures Valid(d) && n in d.vals && n != a ==> r.order == Without(d.order, a)
  {
    var (rest, v) := Pop(d, a);
    Assign(rest, n, v)
  }

  /** Taking out a key that was only appended at the end gives back the rest. */
  lemma WithoutAppended<K(!new)>(s: seq<K>, k: K)
    requires k !in s
    ensures Without(s + [k], k) == s
  {
    WithoutConcat(s, [k], k);
    assert Without([k], k) == [];
  }

  /** Adding a fresh key to a map and deleting it again changes nothing. */
  lemma MapAddDrop<K(!new), V>(m: map<K, V>, k: K, v: V)
    requires k !in m
    ensures m[k := v] - {k} == m
  {
  }

  /**
   * A key that is added, renamed to another fresh key and then removed
   * leaves the dict exactly as it was, iteration order included.
   */
  lemma AddRenameRemove<K(!new), V>(d: Dict<K, V>, a: K, n: K, v: V)
    requires Valid(d) && a !in d.vals && n !in d.vals && a != n
    ensures Remove(Rename(Assign(d, a, v), a, n), n) == d
  {
    WithoutAppended(d.order, a);
    WithoutAppended(d.order, n);
    MapAddDrop(d.vals, a, v);
    MapAddDrop(d.vals, n, v);
  }

  /**
   * Renaming onto a fresh key keeps the number of entries; renaming onto
   * a key that is already present loses one entry.
   */
  lemma RenameSize<K(!new), V>(d: Dict<K, V>, a: K, n: K)
    requires Valid(d) && a in d.vals && a != n
    ensures |Rename(d, a, n).vals| == if n in d.vals then |d.vals| - 1 else |d.vals|
  {
  }

  /**
   * When the value under `n` is stored nowhere else, renaming `a` onto an
   * existing `n` leaves that value unreachable from the dict.
   */
  lemma RenameOverwriteOrphans<K(!new), V>(d: Dict<K, V>, a: K, n: K)
    requires a in d.vals && n in d.vals && a != n
    requires forall j :: j in d.vals && j != n ==> d.vals[j] != d.vals[n]
    ensures d.vals[n] !in Rename(d, a, n).vals.Values
  {
  }
}
