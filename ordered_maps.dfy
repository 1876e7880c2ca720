/** A JavaScript `Map`, or a plain object used as a record, as the list of
    its entries in insertion order: setting a present key replaces its value
    where it stands, setting a new key appends it. */
module OrderedMaps {
  import opened Wrappers
  import opened Strings

  type Entries<K, V> = seq<(K, V)>

  function Keys<K, V>(m: Entries<K, V>): (ks: seq<K>)
    ensures |ks| == |m|
    ensures forall i :: 0 <= i < |m| ==> ks[i] == m[i].0
  {
    seq(|m|, i requires 0 <= i < |m| => m[i].0)
  }

  /** Each key appears once. */
  predicate Valid<K(==), V>(m: Entries<K, V>) {
    NoDuplicates(Keys(m))
  }

  /** `map.get(k)`: the value of the first entry with key `k`. */
  function Get<K(==), V>(m: Entries<K, V>, k: K): (r: Option<V>)
    ensures r.None? <==> k !in Keys(m)
    ensures r.Some? ==> exists i :: 0 <= i < |m| && m[i] == (k, r.value)
    decreases |m|
  {
    if m == [] then None
    else if m[0].0 == k then Some(m[0].1)
    else
      assert Keys(m) == [m[0].0] + Keys(m[1..]);
      var r := Get(m[1..], k);
      if r.Some? then
        ghost var i :| 0 <= i < |m| - 1 && m[1..][i] == (k, r.value);
        assert m[i + 1] == (k, r.value);
        r
      else r
  }

  /** The position of the entry with key `k`, if any. */
  function IndexOf<K(==), V>(m: Entries<K, V>, k: K): (r: Option<nat>)
    ensures r.None? <==> k !in Keys(m)
    ensures r.Some? ==> r.value < |m| && m[r.value].0 == k
    ensures r.Some? ==> forall i :: 0 <= i < r.value ==> m[i].0 != k
    decreases |m|
  {
    if m == [] then None
    else if m[0].0 == k then Some(0)
    else
      assert Keys(m) == [m[0].0] + Keys(m[1..]);
      match IndexOf(m[1..], k)
      case Some(i) => Some(i + 1)
      case None => None
  }

  /** `map.set(k, v)` / `obj[k] = v` */
  function Set<K(==), V>(m: Entries<K, V>, k: K, v: V): (r: Entries<K, V>)
    ensures Keys(r) == if k in Keys(m) then Keys(m) else Keys(m) + [k]
    ensures forall i :: 0 <= i < |m| && m[i].0 != k ==> r[i] == m[i]
  {
    match IndexOf(m, k)
    case Some(i) =>
      var r := m[i := (k, v)];
      assert Keys(r) == Keys(m);
      r
    case None =>
      var r := m + [(k, v)];
      assert Keys(r) == Keys(m) + [k];
      r
  }

  /** After setting, the key reads back the new value, every other key its
      old one, and keys stay unique. */
  lemma SetGet<K, V>(m: Entries<K, V>, k: K, v: V, x: K)
    requires Valid(m)
    ensures Valid(Set(m, k, v))
    ensures Get(Set(m, k, v), x) == if x == k then Some(v) else Get(m, x)
  {
    var r := Set(m, k, v);
    if k !in Keys(m) {
      assert Valid(r) by {
        forall i, j | 0 <= i < j < |r| ensures Keys(r)[i] != Keys(r)[j] {
          if j == |m| {
            assert Keys(r)[i] == Keys(m)[i];
          } else {
            assert Keys(r)[i] == Keys(m)[i] && Keys(r)[j] == Keys(m)[j];
          }
        }
      }
    }
    GetUnique(r, x);
    GetUnique(m, x);
    if x == k {
      assert exists i :: 0 <= i < |r| && r[i] == (k, v) by {
        match IndexOf(m, k)
        case Some(i) => assert r[i] == (k, v);
        case None => assert r[|m|] == (k, v);
      }
    } else if x in Keys(m) {
      var i :| 0 <= i < |m| && m[i] == (x, Get(m, x).value);
      assert r[i] == m[i];
    }
  }

  /** Each entry after setting: the key's entry holds the new value, any
      other entry is the old one at the same place. */
  lemma SetEntry<K, V>(m: Entries<K, V>, k: K, v: V, i: nat)
    requires Valid(m) && i < |Set(m, k, v)|
    ensures Set(m, k, v)[i].0 == k ==> Set(m, k, v)[i].1 == v
    ensures Set(m, k, v)[i].0 != k ==> i < |m| && Set(m, k, v)[i] == m[i]
  {
    var r := Set(m, k, v);
    SetGet(m, k, v, k);
    GetUnique(r, k);
    assert Keys(r)[i] == r[i].0;
    if i >= |m| {
      assert Keys(r)[i] == k;
    }
  }

  /** With unique keys, the entry holding a key determines `Get`. */
  lemma GetUnique<K, V>(m: Entries<K, V>, k: K)
    requires Valid(m)
    ensures forall i :: 0 <= i < |m| && m[i].0 == k ==> Get(m, k) == Some(m[i].1)
  {
    forall i | 0 <= i < |m| && m[i].0 == k ensures Get(m, k) == Some(m[i].1) {
      assert k in Keys(m) by { assert Keys(m)[i] == k; }
      var j :| 0 <= j < |m| && m[j] == (k, Get(m, k).value);
      assert Keys(m)[i] == Keys(m)[j];
    }
  }

  /** `{ ...m, ...other }`: the entries of `other` set one by one, in
      order, onto `m`. */
  function Spread<K(==), V>(m: Entries<K, V>, other: Entries<K, V>): Entries<K, V>
    decreases |other|
  {
    if other == [] then m else Spread(Set(m, other[0].0, other[0].1), other[1..])
  }

  /** A key of `other` reads its value from `other`, any other key its
      value in `m`; keys stay unique. */
  lemma {:induction false} SpreadGet<K, V>(m: Entries<K, V>, other: Entries<K, V>, x: K)
    requires Valid(m) && Valid(other)
    ensures Valid(Spread(m, other))
    ensures Get(Spread(m, other), x) == if x in Keys(other) then Get(other, x) else Get(m, x)
    decreases |other|
  {
    if other != [] {
      var (k, v) := other[0];
      var rest := other[1..];
      assert Keys(rest) == Keys(other)[1..];
      NoDuplicatesTail(Keys(other));
      SetGet(m, k, v, x);
      SpreadGet(Set(m, k, v), rest, x);
    }
  }
}
