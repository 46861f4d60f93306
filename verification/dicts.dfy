/**
 * Python's insertion-ordered `dict`, as the sequence of its items.
 *
 * Assigning to a key already present keeps the key where it is; assigning to a
 * new key appends it; `del` removes it. Lookups see the first item carrying a
 * key, which for a `Valid` dictionary (no key twice) is the only one.
 */
module Dicts {
  import opened Common

  type Dict<V> = seq<(string, V)>

  function Keys<V>(d: Dict<V>): (ks: seq<string>)
    ensures |ks| == |d|
    ensures forall i | 0 <= i < |d| :: ks[i] == d[i].0
  {
    if d == [] then [] else [d[0].0] + Keys(d[1..])
  }

  /** `k in d`. */
  predicate Has<V>(d: Dict<V>, k: string) {
    |d| > 0 && (d[0].0 == k || Has(d[1..], k))
  }

  /** Every key occurs once, as in any Python dict. */
  predicate Valid<V>(d: Dict<V>) {
    |d| == 0 || (!Has(d[1..], d[0].0) && Valid(d[1..]))
  }

  /** Membership is membership of the key sequence. */
  lemma {:induction false} HasKeys<V>(d: Dict<V>, k: string)
    ensures Has(d, k) <==> k in Keys(d)
  {
    if d != [] {
      HasKeys(d[1..], k);
      assert Keys(d) == [d[0].0] + Keys(d[1..]);
    }
  }

  /** `d[k]`. */
  function Get<V>(d: Dict<V>, k: string): (v: V)
    requires Has(d, k)
    ensures (k, v) in d
  {
    if d[0].0 == k then d[0].1 else Get(d[1..], k)
  }

  /** In a valid dictionary the item at position `i` is what its key looks up. */
  lemma {:induction false} GetAt<V>(d: Dict<V>, i: nat)
    requires Valid(d) && i < |d|
    ensures Has(d, d[i].0) && Get(d, d[i].0) == d[i].1
  {
    if i > 0 {
      GetAt(d[1..], i - 1);
      assert d[1..][i - 1] == d[i];
    }
  }

  /** Lookups in a dictionary with one item in front of `t`. */
  lemma Cons<V>(x: (string, V), t: Dict<V>)
    ensures forall j :: Has([x] + t, j) <==> j == x.0 || Has(t, j)
    ensures Has([x] + t, x.0) && Get([x] + t, x.0) == x.1
    ensures forall j | j != x.0 && Has(t, j) :: Get([x] + t, j) == Get(t, j)
    ensures Keys([x] + t) == [x.0] + Keys(t)
  {
    assert ([x] + t)[1..] == t;
  }

  /** The items `d[k] = v` leaves: the value replaced in place, or appended. */
  function Store<V>(d: Dict<V>, k: string, v: V): Dict<V> {
    if d == [] then [(k, v)]
    else if d[0].0 == k then [(k, v)] + d[1..]
    else [d[0]] + Store(d[1..], k, v)
  }

  lemma {:induction false} StoreHas<V>(d: Dict<V>, k: string, v: V)
    ensures forall j :: Has(Store(d, k, v), j) <==> Has(d, j) || j == k
  {
    if d != [] {
      Cons((k, v), d[1..]);
      Cons(d[0], d[1..]);
      assert d == [d[0]] + d[1..];
      if d[0].0 != k {
        StoreHas(d[1..], k, v);
        Cons(d[0], Store(d[1..], k, v));
      }
    }
  }

  lemma {:induction false} StoreGet<V>(d: Dict<V>, k: string, v: V)
    ensures Has(Store(d, k, v), k) && Get(Store(d, k, v), k) == v
    ensures forall j | j != k && Has(d, j) :: Has(Store(d, k, v), j) && Get(Store(d, k, v), j) == Get(d, j)
  {
    if d != [] {
      Cons((k, v), d[1..]);
      Cons(d[0], d[1..]);
      assert d == [d[0]] + d[1..];
      if d[0].0 != k {
        StoreGet(d[1..], k, v);
        StoreHas(d[1..], k, v);
        Cons(d[0], Store(d[1..], k, v));
      }
    }
  }

  lemma {:induction false} StoreShape<V>(d: Dict<V>, k: string, v: V)
    ensures Has(d, k) ==> Keys(Store(d, k, v)) == Keys(d)
    ensures !Has(d, k) ==> Store(d, k, v) == d + [(k, v)]
  {
    if d != [] {
      Cons(d[0], d[1..]);
      assert d == [d[0]] + d[1..];
      Cons((k, v), d[1..]);
      if d[0].0 != k {
        StoreShape(d[1..], k, v);
        Cons(d[0], Store(d[1..], k, v));
        assert !Has(d, k) ==> d + [(k, v)] == [d[0]] + (d[1..] + [(k, v)]);
      }
    }
  }

  /** `d[k] = v`. */
  function Put<V>(d: Dict<V>, k: string, v: V): (r: Dict<V>)
    ensures forall j :: Has(r, j) <==> Has(d, j) || j == k
    ensures Has(r, k) && Get(r, k) == v
    ensures forall j | j != k && Has(d, j) :: Get(r, j) == Get(d, j)
    ensures Has(d, k) ==> Keys(r) == Keys(d)
    ensures !Has(d, k) ==> r == d + [(k, v)]
  {
    StoreHas(d, k, v);
    StoreGet(d, k, v);
    StoreShape(d, k, v);
    Store(d, k, v)
  }

  /** `del d[k]` (every item with key `k` goes). */
  function Del<V>(d: Dict<V>, k: string): (r: Dict<V>)
    ensures forall j :: Has(r, j) <==> Has(d, j) && j != k
    ensures forall j | j != k && Has(d, j) :: Get(r, j) == Get(d, j)
    ensures !Has(d, k) ==> r == d
    ensures |r| <= |d|
  {
    if d == [] then []
    else
      var t := Del(d[1..], k);
      if d[0].0 == k then t
      else
        var r := [d[0]] + t;
        assert r[1..] == t;
        r
  }

  /** Deletion removes exactly the items under `k`. */
  lemma {:induction false} DelItems<V>(d: Dict<V>, k: string)
    ensures forall x :: x in Del(d, k) <==> x in d && x.0 != k
  {
    if d != [] {
      DelItems(d[1..], k);
      assert d == [d[0]] + d[1..];
    }
  }

  /** Deletion keeps the order of the remaining keys. */
  lemma {:induction false} DelKeepsOrder<V>(d: Dict<V>, k: string)
    ensures Subseq(Keys(Del(d, k)), Keys(d))
  {
    if d != [] {
      DelKeepsOrder(d[1..], k);
      var t := Del(d[1..], k);
      Cons(d[0], d[1..]);
      assert d == [d[0]] + d[1..];
      if d[0].0 != k {
        Cons(d[0], t);
        assert Del(d, k) == [d[0]] + t;
        assert Keys([d[0]] + t)[1..] == Keys(t);
      }
    }
  }

  /** The key order after `d[k] = v`: a present key keeps its slot, a new
      one goes last. */
  function Placed(ks: seq<string>, k: string): seq<string> {
    if k in ks then ks else ks + [k]
  }

  /** The key order after `del d[k]`: the others, in their order. */
  function Without(ks: seq<string>, k: string): (r: seq<string>)
    ensures k !in r
    ensures forall j | j != k :: j in r <==> j in ks
  {
    if ks == [] then []
    else if ks[0] == k then Without(ks[1..], k)
    else [ks[0]] + Without(ks[1..], k)
  }

  /** Assignment places the key as Python's dict does. */
  lemma PutKeys<V>(d: Dict<V>, k: string, v: V)
    ensures Keys(Put(d, k, v)) == Placed(Keys(d), k)
  {
    HasKeys(d, k);
    if !Has(d, k) {
      assert Keys(d + [(k, v)]) == Keys(d) + [k];
    }
  }

  /** Deletion keeps the other keys in their order. */
  lemma {:induction false} DelKeys<V>(d: Dict<V>, k: string)
    ensures Keys(Del(d, k)) == Without(Keys(d), k)
  {
    if d != [] {
      DelKeys(d[1..], k);
      Cons(d[0], d[1..]);
      assert d == [d[0]] + d[1..];
      assert Keys(d)[1..] == Keys(d[1..]);
      if d[0].0 != k {
        Cons(d[0], Del(d[1..], k));
      }
    }
  }

  /** Assignment keeps a dictionary valid. */
  lemma {:induction false} PutValid<V>(d: Dict<V>, k: string, v: V)
    requires Valid(d)
    ensures Valid(Put(d, k, v))
  {
    if d != [] && d[0].0 != k {
      PutValid(d[1..], k, v);
      assert Put(d, k, v)[1..] == Put(d[1..], k, v);
    } else if d != [] {
      assert Put(d, k, v)[1..] == d[1..];
    }
  }

  /** Deletion keeps a dictionary valid. */
  lemma {:induction false} DelValid<V>(d: Dict<V>, k: string)
    requires Valid(d)
    ensures Valid(Del(d, k))
  {
    if d != [] {
      DelValid(d[1..], k);
      if d[0].0 != k {
        assert Del(d, k)[1..] == Del(d[1..], k);
      }
    }
  }

  lemma PutKeepsValid<V>(d: Dict<V>, k: string, v: V)
    ensures Valid(d) ==> Valid(Put(d, k, v))
  {
    if Valid(d) {
      PutValid(d, k, v);
    }
  }

  lemma DelKeepsValid<V>(d: Dict<V>, k: string)
    ensures Valid(d) ==> Valid(Del(d, k))
  {
    if Valid(d) {
      DelValid(d, k);
    }
  }

  /** Both dictionaries hold the same value, or nothing, under `k`. */
  predicate AgreeOn<V(==)>(d: Dict<V>, e: Dict<V>, k: string) {
    (Has(d, k) <==> Has(e, k)) && (Has(d, k) ==> Get(d, k) == Get(e, k))
  }

  /** Every key outside `ks` holds the same value, or nothing, in both dictionaries. */
  ghost predicate AgreeExcept<V>(d: Dict<V>, e: Dict<V>, ks: set<string>) {
    forall k | k !in ks :: AgreeOn(d, e, k)
  }

  lemma PutAgree<V>(d: Dict<V>, k: string, v: V)
    ensures AgreeExcept(d, Put(d, k, v), {k})
  {
  }

  lemma DelAgree<V>(d: Dict<V>, k: string)
    ensures AgreeExcept(d, Del(d, k), {k})
  {
  }

  lemma AgreeExceptTrans<V>(d: Dict<V>, e: Dict<V>, f: Dict<V>, ks1: set<string>, ks2: set<string>)
    requires AgreeExcept(d, e, ks1) && AgreeExcept(e, f, ks2)
    ensures AgreeExcept(d, f, ks1 + ks2)
  {
  }

  /** Index of the first item satisfying `p`, scanning in insertion order. */
  function FirstIndex<V>(d: Dict<V>, p: (string, V) -> bool): (r: Option<nat>)
    ensures r.Some? ==> r.value < |d| && p(d[r.value].0, d[r.value].1)
    ensures r.Some? ==> forall j | 0 <= j < r.value :: !p(d[j].0, d[j].1)
    ensures r.None? ==> forall j | 0 <= j < |d| :: !p(d[j].0, d[j].1)
  {
    if d == [] then None
    else if p(d[0].0, d[0].1) then Some(0)
    else
      match FirstIndex(d[1..], p)
      case None => None
      case Some(i) => Some(i + 1)
  }

  /** Replace the value at position `i` in place. */
  function SetAt<V>(d: Dict<V>, i: nat, v: V): (r: Dict<V>)
    requires i < |d|
    ensures Keys(r) == Keys(d)
  {
    d[i := (d[i].0, v)]
  }

  /** In a valid dictionary, replacing position `i` is assignment to its key. */
  lemma {:induction false} SetAtIsPut<V>(d: Dict<V>, i: nat, v: V)
    requires Valid(d) && i < |d|
    ensures SetAt(d, i, v) == Put(d, d[i].0, v)
  {
    SetAtIsStore(d, i, v);
  }

  lemma {:induction false} SetAtIsStore<V>(d: Dict<V>, i: nat, v: V)
    requires Valid(d) && i < |d|
    ensures SetAt(d, i, v) == Store(d, d[i].0, v)
  {
    if i > 0 {
      SetAtIsStore(d[1..], i - 1, v);
      assert d[1..][i - 1] == d[i];
      assert d[0].0 != d[i].0 by { GetAt(d, i); HasKeys(d[1..], d[i].0); }
      assert SetAt(d, i, v) == [d[0]] + SetAt(d[1..], i - 1, v);
    } else {
      assert SetAt(d, i, v) == [(d[0].0, v)] + d[1..];
    }
  }
}
