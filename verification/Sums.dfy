/** Sums over sequences and over finite maps, and what leaves them unchanged. */
module Sums {
  import opened Words

  function SumBy<T>(s: seq<T>, f: T -> nat): nat {
    if s == [] then 0 else SumBy(s[..|s| - 1], f) + f(s[|s| - 1])
  }

  lemma SumByAppend<T>(s: seq<T>, x: T, f: T -> nat)
    ensures SumBy(s + [x], f) == SumBy(s, f) + f(x)
  {
    assert (s + [x])[..|s|] == s;
  }

  /** `s` without its element at `i`. */
  function Without<T>(s: seq<T>, i: nat): seq<T>
    requires i < |s|
  {
    s[..i] + s[i + 1..]
  }

  lemma {:induction false} SumByRemove<T>(s: seq<T>, i: nat, f: T -> nat)
    requires i < |s|
    ensures SumBy(s, f) == SumBy(Without(s, i), f) + f(s[i])
  {
    var last := |s| - 1;
    if i == last {
      assert Without(s, i) == s[..last];
    } else {
      SumByRemove(s[..last], i, f);
      assert Without(s, i) == Without(s[..last], i) + [s[last]];
      SumByAppend(Without(s[..last], i), s[last], f);
    }
  }

  lemma WithoutCounts<T>(s: seq<T>, i: nat)
    requires i < |s|
    ensures multiset(s) == multiset(Without(s, i)) + multiset{s[i]}
  {
    assert s == s[..i] + [s[i]] + s[i + 1..];
  }

  lemma WithoutElements<T>(s: seq<T>, i: nat)
    requires i < |s|
    ensures forall x :: x in Without(s, i) ==> x in s
  {
  }

  /** Taking the same element out of two permutations leaves two permutations. */
  lemma WithoutSame<T>(s: seq<T>, t: seq<T>, i: nat, j: nat)
    requires multiset(s) == multiset(t) && i < |s| && j < |t| && s[i] == t[j]
    ensures multiset(Without(s, i)) == multiset(Without(t, j))
  {
    WithoutCounts(s, i);
    WithoutCounts(t, j);
    assert multiset(Without(s, i)) == multiset(s) - multiset{s[i]};
    assert multiset(Without(t, j)) == multiset(t) - multiset{t[j]};
  }

  lemma SamePlace<T>(s: seq<T>, t: seq<T>, x: T) returns (j: nat)
    requires multiset(s) == multiset(t) && x in s
    ensures j < |t| && t[j] == x
  {
    assert x in multiset(s);
    assert x in multiset(t);
    j :| 0 <= j < |t| && t[j] == x;
  }

  /** A sum does not depend on the order of its terms. */
  lemma {:induction false} SumByPermutation<T>(s: seq<T>, t: seq<T>, f: T -> nat)
    requires multiset(s) == multiset(t)
    ensures SumBy(s, f) == SumBy(t, f)
    decreases |s|
  {
    if s == [] {
      assert |multiset(t)| == |multiset(s)| == 0;
    } else {
      var last := |s| - 1;
      var j := SamePlace(s, t, s[last]);
      WithoutSame(s, t, last, j);
      SumByPermutation(Without(s, last), Without(t, j), f);
      SumByRemove(s, last, f);
      SumByRemove(t, j, f);
    }
  }

  lemma {:induction false} SumByEqual<T>(s: seq<T>, f: T -> nat, g: T -> nat)
    requires forall x :: x in s ==> f(x) == g(x)
    ensures SumBy(s, f) == SumBy(s, g)
  {
    if s != [] {
      SumByEqual(s[..|s| - 1], f, g);
    }
  }

  lemma {:induction false} SumByZero<T>(s: seq<T>, f: T -> nat)
    requires forall x :: x in s ==> f(x) == 0
    ensures SumBy(s, f) == 0
  {
    if s != [] {
      SumByZero(s[..|s| - 1], f);
    }
  }

  lemma {:induction false} SumByAdd<T>(s: seq<T>, f: T -> nat, g: T -> nat, h: T -> nat)
    requires forall x :: x in s ==> h(x) == f(x) + g(x)
    ensures SumBy(s, h) == SumBy(s, f) + SumBy(s, g)
  {
    if s != [] {
      SumByAdd(s[..|s| - 1], f, g, h);
    }
  }

  // ---------------------------------------------------------------- finite maps

  ghost function SumMap<K>(m: map<K, nat>): nat
    decreases |m|
  {
    if m.Keys == {} then 0
    else
      var k :| k in m.Keys;
      assert |m - {k}| < |m| by {
        assert (m - {k}).Keys == m.Keys - {k};
      }
      m[k] + SumMap(m - {k})
  }

  /** The sum may take out any entry first. */
  lemma {:induction false} SumMapTake<K>(m: map<K, nat>, k: K)
    requires k in m
    ensures SumMap(m) == m[k] + SumMap(m - {k})
    decreases |m|
  {
    var j :| j in m && SumMap(m) == m[j] + SumMap(m - {j});
    if j != k {
      assert (m - {j}).Keys == m.Keys - {j};
      assert (m - {k}).Keys == m.Keys - {k};
      SumMapTake(m - {j}, k);
      SumMapTake(m - {k}, j);
      assert m - {j} - {k} == m - {k} - {j};
    }
  }

  /** Raising one entry raises the sum by as much. */
  lemma SumMapRaise<K>(m: map<K, nat>, m': map<K, nat>, k: K, amount: nat)
    requires k in m && m'.Keys == m.Keys && m'[k] == m[k] + amount
    requires forall j :: j in m && j != k ==> m'[j] == m[j]
    ensures SumMap(m') == SumMap(m) + amount
  {
    SumMapTake(m, k);
    SumMapTake(m', k);
    assert (m' - {k}).Keys == m.Keys - {k} == (m - {k}).Keys;
    assert forall j :: j in m - {k} ==> (m' - {k})[j] == (m - {k})[j];
    assert m' - {k} == m - {k};
  }

  /** Wrapping every entry does not change the wrapped sum. */
  lemma {:induction false} SumMapWrapped<K>(m: map<K, nat>, wrapped: map<K, nat>, w: nat)
    requires w > 0 && wrapped.Keys == m.Keys
    requires forall k :: k in m ==> wrapped[k] == Wrap(m[k], w)
    ensures Wrap(SumMap(wrapped), w) == Wrap(SumMap(m), w)
    decreases |m|
  {
    if m.Keys != {} {
      var k :| k in m.Keys;
      var rest, rest' := m - {k}, wrapped - {k};
      assert rest.Keys == m.Keys - {k} && rest'.Keys == rest.Keys;
      SumMapWrapped(rest, rest', w);
      WrappedTake(m, wrapped, k, w);
    } else {
      assert wrapped.Keys == {};
    }
  }

  lemma WrappedTake<K>(m: map<K, nat>, wrapped: map<K, nat>, k: K, w: nat)
    requires w > 0 && k in m && k in wrapped && wrapped[k] == Wrap(m[k], w)
    requires Wrap(SumMap(wrapped - {k}), w) == Wrap(SumMap(m - {k}), w)
    ensures Wrap(SumMap(wrapped), w) == Wrap(SumMap(m), w)
  {
    SumMapTake(m, k);
    SumMapTake(wrapped, k);
    WrapSum(m[k], SumMap(m - {k}), SumMap(wrapped - {k}), w);
  }

  lemma {:induction false} SumMapZero<K>(m: map<K, nat>)
    requires forall k :: k in m ==> m[k] == 0
    ensures SumMap(m) == 0
    decreases |m|
  {
    if m.Keys != {} {
      var k :| k in m.Keys;
      assert (m - {k}).Keys == m.Keys - {k};
      SumMapTake(m, k);
      SumMapZero(m - {k});
    }
  }

  /** The sum of two families over the same keys. */
  lemma {:induction false} SumMapAdd<K>(a: map<K, nat>, b: map<K, nat>, c: map<K, nat>)
    requires a.Keys == b.Keys == c.Keys
    requires forall k :: k in a ==> c[k] == a[k] + b[k]
    ensures SumMap(c) == SumMap(a) + SumMap(b)
    decreases |a|
  {
    if a.Keys != {} {
      var k :| k in a.Keys;
      assert (a - {k}).Keys == a.Keys - {k};
      assert (b - {k}).Keys == (a - {k}).Keys == (c - {k}).Keys;
      SumMapTake(a, k);
      SumMapTake(b, k);
      SumMapTake(c, k);
      SumMapAdd(a - {k}, b - {k}, c - {k});
    } else {
      assert b.Keys == {} && c.Keys == {};
    }
  }
}
