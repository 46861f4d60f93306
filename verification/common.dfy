/** Small shared vocabulary: an optional value, distinctness of a sequence
    and the subsequence order. */
module Common {

  /** Python's `None` or a present value. */
  datatype Option<+T> = None | Some(value: T)

  /** No element occurs twice. */
  predicate Distinct<T(==)>(s: seq<T>) {
    forall i, j | 0 <= i < j < |s| :: s[i] != s[j]
  }

  /** `a` is `b` with some elements left out: the elements of `a` occur in
      `b`, in the same order. */
  predicate Subseq<T(==)>(a: seq<T>, b: seq<T>)
    decreases |b|
  {
    || a == []
    || (b != [] && ((a[0] == b[0] && Subseq(a[1..], b[1..])) || Subseq(a, b[1..])))
  }

  /** Putting a new element in front keeps a sequence free of repeats. */
  lemma DistinctCons<T>(a: T, t: seq<T>)
    requires Distinct(t) && a !in t
    ensures Distinct([a] + t)
  {
    var s := [a] + t;
    forall i, j | 0 <= i < j < |s| ensures s[i] != s[j] {
      assert s[j] == t[j - 1];
      if i > 0 {
        assert s[i] == t[i - 1];
      }
    }
  }

  /** Where `x` first occurs in `s`. */
  function FirstIndexOf<T(==)>(s: seq<T>, x: T): (i: nat)
    requires x in s
    ensures i < |s| && s[i] == x
  {
    if s[0] == x then 0 else 1 + FirstIndexOf(s[1..], x)
  }

  /** No earlier position holds `x`. */
  lemma {:induction false} FirstIndexOfIsFirst<T>(s: seq<T>, x: T, j: nat)
    requires x in s && j < FirstIndexOf(s, x)
    ensures s[j] != x
  {
    if j > 0 {
      FirstIndexOfIsFirst(s[1..], x, j - 1);
    }
  }

  /** The elements of `t` come from `src` and appear in the order of their
      first occurrences there. */
  predicate FirstOccurrenceOrder<T(==)>(t: seq<T>, src: seq<T>) {
    && (forall i | 0 <= i < |t| :: t[i] in src)
    && forall i, j | 0 <= i < j < |t| && t[i] in src && t[j] in src :: FirstIndexOf(src, t[i]) < FirstIndexOf(src, t[j])
  }

  /** Putting a different element in front of `src` moves every first
      occurrence one place on. */
  lemma FirstIndexOfCons<T>(a: T, src: seq<T>, x: T)
    requires x in src && x != a
    ensures FirstIndexOf([a] + src, x) == 1 + FirstIndexOf(src, x)
  {
    assert ([a] + src)[1..] == src;
  }

  /** First-occurrence order survives putting a new element in front of the
      source, and of both the source and the sequence. */
  lemma FirstOccurrenceCons<T>(a: T, t: seq<T>, src: seq<T>)
    requires FirstOccurrenceOrder(t, src) && a !in t
    ensures FirstOccurrenceOrder(t, [a] + src)
    ensures FirstOccurrenceOrder([a] + t, [a] + src)
  {
    var src' := [a] + src;
    forall i | 0 <= i < |t| ensures t[i] in src' && FirstIndexOf(src', t[i]) == 1 + FirstIndexOf(src, t[i]) {
      assert t[i] in src;
      FirstIndexOfCons(a, src, t[i]);
    }
    assert FirstIndexOf(src', a) == 0;
    var t' := [a] + t;
    forall i, j | 0 <= i < j < |t'| ensures t'[i] in src' && t'[j] in src' && FirstIndexOf(src', t'[i]) < FirstIndexOf(src', t'[j]) {
      assert t'[j] == t[j - 1];
      if i > 0 {
        assert t'[i] == t[i - 1];
        assert t[i - 1] in src && t[j - 1] in src;
      }
    }
  }

  /** A repeat-free sequence is fixed by its elements and their
      first-occurrence order. */
  lemma {:induction false} FirstOccurrenceUnique<T>(t: seq<T>, u: seq<T>, src: seq<T>)
    requires Distinct(t) && Distinct(u)
    requires forall x :: x in t <==> x in u
    requires FirstOccurrenceOrder(t, src) && FirstOccurrenceOrder(u, src)
    ensures t == u
    decreases |t|
  {
    if t == [] {
      if u != [] {
        HeadIn(u);
        assert false;
      }
    } else {
      assert t[0] in t;
      FirstOccurrenceSameHead(t, u, src);
      DropSameHead(t, u);
      FirstOccurrenceTail(t, src);
      FirstOccurrenceTail(u, src);
      FirstOccurrenceUnique(t[1..], u[1..], src);
      assert t == [t[0]] + t[1..] && u == [u[0]] + u[1..];
    }
  }

  /** A non-empty sequence holds its first element. */
  lemma HeadIn<T>(u: seq<T>)
    requires u != []
    ensures u[0] in u
  {
  }

  /** Two sequences in first-occurrence order with the same elements start alike. */
  lemma FirstOccurrenceSameHead<T>(t: seq<T>, u: seq<T>, src: seq<T>)
    requires t != [] && u != []
    requires forall x :: x in t <==> x in u
    requires FirstOccurrenceOrder(t, src) && FirstOccurrenceOrder(u, src)
    ensures t[0] == u[0]
  {
    FirstOccurrenceHead(t, src);
    FirstOccurrenceHead(u, src);
    assert t[0] in u && u[0] in t;
    assert src[FirstIndexOf(src, t[0])] == src[FirstIndexOf(src, u[0])];
  }

  /** Removing a shared head from two repeat-free sequences with the same
      elements leaves the same elements. */
  lemma DropSameHead<T>(t: seq<T>, u: seq<T>)
    requires t != [] && u != [] && t[0] == u[0]
    requires Distinct(t) && Distinct(u)
    requires forall x :: x in t <==> x in u
    ensures forall x :: x in t[1..] <==> x in u[1..]
  {
    forall x ensures x in t[1..] <==> x in u[1..] {
      if x in t[1..] {
        var i :| 0 <= i < |t| - 1 && t[1..][i] == x;
        assert t[i + 1] == x && t[i + 1] != t[0];
        assert x in t;
        var j :| 0 <= j < |u| && u[j] == x;
        assert u[1..][j - 1] == x;
      }
      if x in u[1..] {
        var i :| 0 <= i < |u| - 1 && u[1..][i] == x;
        assert u[i + 1] == x && u[i + 1] != u[0];
        assert x in u;
        var j :| 0 <= j < |t| && t[j] == x;
        assert t[1..][j - 1] == x;
      }
    }
  }

  /** The head of a sequence in first-occurrence order comes first in the source. */
  lemma FirstOccurrenceHead<T>(t: seq<T>, src: seq<T>)
    requires t != [] && FirstOccurrenceOrder(t, src)
    ensures forall x | x in t :: x in src && FirstIndexOf(src, t[0]) <= FirstIndexOf(src, x)
  {
    forall x | x in t ensures x in src && FirstIndexOf(src, t[0]) <= FirstIndexOf(src, x) {
      var i :| 0 <= i < |t| && t[i] == x;
      assert t[0] in src && t[i] in src;
    }
  }

  /** Dropping the first element keeps the order and the distinctness. */
  lemma FirstOccurrenceTail<T>(t: seq<T>, src: seq<T>)
    requires t != [] && Distinct(t) && FirstOccurrenceOrder(t, src)
    ensures Distinct(t[1..]) && FirstOccurrenceOrder(t[1..], src)
  {
    var s := t[1..];
    forall i, j | 0 <= i < j < |s| ensures FirstIndexOf(src, s[i]) < FirstIndexOf(src, s[j]) {
      assert s[i] == t[i + 1] && s[j] == t[j + 1];
    }
  }
}
