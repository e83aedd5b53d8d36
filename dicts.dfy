/**
 * A Python dictionary: a finite map that remembers the order in which its
 * keys were first inserted (assigning to a present key keeps its place,
 * deleting a key removes it from the order).
 */
module Dicts {

  datatype Dict<K(==,!new), V> = Dict(keys: seq<K>, vals: map<K, V>)

  /** No element occurs twice. */
  ghost predicate Distinct<T>(s: seq<T>) {
    forall i, j :: 0 <= i < j < |s| ==> s[i] != s[j]
  }

  /** Each key appears once in the order, and the order lists exactly the keys of the map. */
  ghost predicate Valid<K(!new), V>(d: Dict<K, V>) {
    && Distinct(d.keys)
    && (forall k :: k in d.keys <==> k in d.vals)
  }

  function Empty<K(==,!new), V>(): (d: Dict<K, V>)
    ensures Valid(d) && d.vals == map[] && d.keys == []
  {
    Dict([], map[])
  }

  /** `d[k] = v`: a new key goes to the end of the order, a present key keeps its place. */
  function Insert<K(==,!new), V>(d: Dict<K, V>, k: K, v: V): (r: Dict<K, V>)
    requires Valid(d)
    ensures Valid(r)
    ensures r.vals == d.vals[k := v]
    ensures k in d.vals ==> r.keys == d.keys
    ensures k !in d.vals ==> r.keys == d.keys + [k]
  {
    if k in d.vals then Dict(d.keys, d.vals[k := v]) else Dict(d.keys + [k], d.vals[k := v])
  }

  /**
   * The keys that `d[x] = v` for each `x` of `xs` in turn appends to the
   * order `keys`: each one not yet present, where it is first assigned.
   */
  function Appended<K(==,!new)>(keys: seq<K>, xs: seq<K>): (r: seq<K>)
    ensures forall x :: x in r <==> x in xs && x !in keys
    ensures Distinct(r)
    decreases |xs|
  {
    if xs == [] then []
    else
      var n := |xs| - 1;
      var r := Appended(keys, xs[..n]);
      assert xs == xs[..n] + [xs[n]];
      if xs[n] in keys || xs[n] in r then r else r + [xs[n]]
  }

  /** Assigning to the next key `xs[i]` appends it exactly when it is new. */
  lemma InsertAppended<K(!new), V>(keys: seq<K>, d: Dict<K, V>, xs: seq<K>, i: nat, v: V)
    requires Valid(d) && i < |xs| && d.keys == keys + Appended(keys, xs[..i])
    ensures Insert(d, xs[i], v).keys == keys + Appended(keys, xs[..i + 1])
  {
    var added := Appended(keys, xs[..i]);
    assert xs[..i + 1][..i] == xs[..i];
    assert xs[i] in d.vals <==> xs[i] in keys || xs[i] in added;
    assert (keys + added) + [xs[i]] == keys + (added + [xs[i]]);
  }

  /** `s` without the occurrences of `x`, in the same order. */
  function Without<K(==,!new)>(s: seq<K>, x: K): (r: seq<K>)
    ensures forall k :: k in r <==> k in s && k != x
    ensures |r| <= |s|
  {
    if s == [] then []
    else if s[0] == x then Without(s[1..], x)
    else [s[0]] + Without(s[1..], x)
  }

  lemma {:induction false} WithoutDistinct<K(!new)>(s: seq<K>, x: K)
    requires Distinct(s)
    ensures Distinct(Without(s, x))
  {
    if s != [] {
      WithoutDistinct(s[1..], x);
      var r := Without(s, x);
      if s[0] != x {
        assert r == [s[0]] + Without(s[1..], x);
        assert s[0] !in Without(s[1..], x);
      }
    }
  }

  /** In a sequence without repeats, dropping `x` removes exactly the position it stands at. */
  lemma {:induction false} WithoutAt<K(!new)>(s: seq<K>, x: K, i: nat)
    requires Distinct(s)
    requires i < |s| && s[i] == x
    ensures Without(s, x) == s[..i] + s[i + 1..]
    decreases i
  {
    if i == 0 {
      assert x !in s[1..];
      WithoutAbsent(s[1..], x);
    } else {
      WithoutAt(s[1..], x, i - 1);
      assert s[1..][..i - 1] == s[1..i] && s[1..][i..] == s[i + 1..];
      assert s[..i] == [s[0]] + s[1..i];
    }
  }

  /**
   * `del d[k]`: the key leaves the map and its place in the order, the
   * other keys keeping theirs. Python raises KeyError for an absent key;
   * every deletion modelled here is of a present key, and on an absent one
   * this function changes nothing.
   */
  function Remove<K(==,!new), V>(d: Dict<K, V>, k: K): (r: Dict<K, V>)
    requires Valid(d)
    ensures Valid(r)
    ensures r.vals == d.vals - {k}
    ensures k in d.vals ==> |r.keys| == |d.keys| - 1
    ensures forall i :: 0 <= i < |d.keys| && d.keys[i] == k ==> r.keys == d.keys[..i] + d.keys[i + 1..]
    ensures k !in d.vals ==> r == d
  {
    WithoutDistinct(d.keys, k);
    assert forall i :: 0 <= i < |d.keys| && d.keys[i] == k ==> Without(d.keys, k) == d.keys[..i] + d.keys[i + 1..] by {
      forall i | 0 <= i < |d.keys| && d.keys[i] == k {
        WithoutAt(d.keys, k, i);
      }
    }
    assert k !in d.vals ==> Without(d.keys, k) == d.keys && d.vals - {k} == d.vals by {
      if k !in d.vals {
        WithoutAbsent(d.keys, k);
      }
    }
    var r := Dict(Without(d.keys, k), d.vals - {k});
    assert k in d.vals ==> |r.keys| == |d.keys| - 1 by {
      if k in d.vals {
        WithoutCount(d.keys, k);
      }
    }
    r
  }

  /** Deleting one of the first keys `keys` leaves the keys `added` after them where they were. */
  lemma RemoveEarlier<K(!new), V>(d: Dict<K, V>, keys: seq<K>, added: seq<K>, k: K)
    requires Valid(d) && d.keys == keys + added
    ensures forall i :: 0 <= i < |keys| && keys[i] == k ==> Remove(d, k).keys == keys[..i] + keys[i + 1..] + added
  {
    forall i | 0 <= i < |keys| && keys[i] == k
      ensures Remove(d, k).keys == keys[..i] + keys[i + 1..] + added
    {
      assert d.keys[i] == k && d.keys[..i] == keys[..i];
      assert d.keys[i + 1..] == keys[i + 1..] + added;
    }
  }

  lemma {:induction false} WithoutCount<K(!new)>(s: seq<K>, x: K)
    requires Distinct(s)
    requires x in s
    ensures |Without(s, x)| == |s| - 1
  {
    if s[0] == x {
      assert x !in s[1..];
      WithoutAbsent(s[1..], x);
    } else {
      WithoutCount(s[1..], x);
    }
  }

  lemma {:induction false} WithoutAbsent<K(!new)>(s: seq<K>, x: K)
    requires x !in s
    ensures Without(s, x) == s
  {
    if s != [] {
      WithoutAbsent(s[1..], x);
      assert s == [s[0]] + s[1..];
    }
  }
}
