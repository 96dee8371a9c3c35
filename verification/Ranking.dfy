/** The sorted top-N query shared by the four statistics indexes. */
module Ranking {
  import opened Sums

  ghost predicate Distinct<K>(s: seq<K>) {
    forall i, j :: 0 <= i < j < |s| ==> s[i] != s[j]
  }

  ghost predicate Descending<K>(rank: map<K, nat>, s: seq<K>)
    requires forall k :: k in s ==> k in rank
  {
    forall i, j :: 0 <= i < j < |s| ==> rank[s[i]] >= rank[s[j]]
  }

  /** `top` lists min(n, size) different keys, best first, and leaves out no better one. */
  ghost predicate IsTop<K>(rank: map<K, nat>, n: nat, top: seq<K>) {
    && (forall k :: k in top ==> k in rank)
    && |top| == (if n < |rank| then n else |rank|)
    && Distinct(top)
    && Descending(rank, top)
    && forall k, i :: k in rank && k !in top && 0 <= i < |top| ==> rank[k] <= rank[top[i]]
  }

  /** Copies the keys out of the map, in whatever order it yields them. */
  method KeyList<K(==)>(rank: map<K, nat>) returns (v: seq<K>)
    ensures Distinct(v) && |v| == |rank| && forall k :: k in v <==> k in rank
  {
    v := [];
    var left := rank.Keys;
    while left != {}
      invariant left <= rank.Keys
      invariant Distinct(v) && |v| + |left| == |rank|
      invariant forall k :: k in v <==> k in rank.Keys - left
      decreases left
    {
      var k :| k in left;
      assert k !in v;
      v := v + [k];
      left := left - {k};
    }
  }

  method SortDescending<K(==)>(v: seq<K>, rank: map<K, nat>) returns (s: seq<K>)
    requires Distinct(v) && forall k :: k in v ==> k in rank
    ensures |s| == |v| && Distinct(s) && forall k :: k in s <==> k in v
    ensures Descending(rank, s)
  {
    s := [];
    for i := 0 to |v|
      invariant |s| == i && Distinct(s) && forall k :: k in s <==> k in v[..i]
      invariant Descending(rank, s)
    {
      s := InsertDescending(s, v[i], rank);
    }
    assert v[..|v|] == v;
  }

  method InsertDescending<K(==)>(s: seq<K>, x: K, rank: map<K, nat>) returns (r: seq<K>)
    requires Distinct(s) && x !in s && x in rank && forall k :: k in s ==> k in rank
    requires Descending(rank, s)
    ensures |r| == |s| + 1 && Distinct(r) && forall k :: k in r <==> k in s || k == x
    ensures Descending(rank, r)
  {
    var j := 0;
    while j < |s| && rank[s[j]] >= rank[x]
      invariant 0 <= j <= |s|
      invariant forall i :: 0 <= i < j ==> rank[s[i]] >= rank[x]
    {
      j := j + 1;
    }
    r := s[..j] + [x] + s[j..];
    InsertedElements(s, x, j, r);
    InsertedDescending(s, x, rank, j, r);
  }

  /** `r` is `s` with `x` put in at index `j`. */
  ghost predicate Inserted<K>(s: seq<K>, x: K, j: nat, r: seq<K>) {
    && |r| == |s| + 1 && j <= |s| && r[j] == x
    && (forall i :: 0 <= i < j ==> r[i] == s[i])
    && (forall i :: j < i < |r| ==> r[i] == s[i - 1])
  }

  lemma InsertedElements<K>(s: seq<K>, x: K, j: nat, r: seq<K>)
    requires j <= |s| && r == s[..j] + [x] + s[j..]
    ensures Inserted(s, x, j, r) && forall k :: k in r <==> k in s || k == x
  {
    assert s == s[..j] + s[j..];
    assert forall k :: k in s <==> k in s[..j] || k in s[j..];
  }

  lemma InsertedDescending<K>(s: seq<K>, x: K, rank: map<K, nat>, j: nat, r: seq<K>)
    requires Inserted(s, x, j, r) && x !in s && Distinct(s)
    requires x in rank && (forall k :: k in s ==> k in rank) && (forall k :: k in r ==> k in rank) && Descending(rank, s)
    requires forall i :: 0 <= i < j ==> rank[s[i]] >= rank[x]
    requires j < |s| ==> rank[s[j]] < rank[x]
    ensures Distinct(r) && Descending(rank, r)
  {
    forall a, b | 0 <= a < b < |r|
      ensures r[a] != r[b] && rank[r[a]] >= rank[r[b]]
    {
      if a < j {
        assert r[a] == s[a] && (b < j ==> r[b] == s[b]) && (b > j ==> r[b] == s[b - 1]);
      } else {
        assert r[b] == s[b - 1] && (a > j ==> r[a] == s[a - 1]);
      }
    }
  }

  method TopKeys<K(==)>(rank: map<K, nat>, n: nat) returns (top: seq<K>)
    ensures IsTop(rank, n, top)
  {
    var all := KeyList(rank);
    var v := SortDescending(all, rank);
    top := v;
    if |v| > n {
      CutIsTop(rank, v, n);
      top := v[..n];
    }
  }

  lemma CutIsTop<K>(rank: map<K, nat>, v: seq<K>, n: nat)
    requires (forall k :: k in v <==> k in rank) && Distinct(v) && Descending(rank, v) && n < |v| == |rank|
    ensures IsTop(rank, n, v[..n])
  {
    var top := v[..n];
    assert forall k :: k in top ==> k in v;
    assert forall i :: 0 <= i < n ==> v[i] in top;
    forall k, i | k in rank && k !in top && 0 <= i < |top|
      ensures rank[k] <= rank[top[i]]
    {
      var j :| 0 <= j < |v| && v[j] == k;
      assert n <= j;
    }
  }

  function KeysOf<K, V>(v: seq<V>, key: V -> K): (ks: seq<K>)
    ensures |ks| == |v| && forall i :: 0 <= i < |v| ==> ks[i] == key(v[i])
  {
    seq(|v|, i requires 0 <= i < |v| => key(v[i]))
  }

  /** `v` lists the top entries of an index whose entries know their own key. */
  ghost predicate IsTopOf<K, V>(index: map<K, V>, rank: map<K, nat>, key: V -> K, n: nat, v: seq<V>) {
    && (forall e :: e in v ==> key(e) in index && e == index[key(e)])
    && IsTop(rank, n, KeysOf(v, key))
  }

  method TopEntries<K(==), V>(index: map<K, V>, rank: map<K, nat>, key: V -> K, n: nat) returns (v: seq<V>)
    requires rank.Keys == index.Keys && forall k :: k in index ==> key(index[k]) == k
    ensures IsTopOf(index, rank, key, n, v)
  {
    var ks := TopKeys(rank, n);
    assert forall i :: 0 <= i < |ks| ==> ks[i] in rank.Keys;
    v := seq(|ks|, i requires 0 <= i < |ks| => index[ks[i]]);
    assert KeysOf(v, key) == ks;
  }

  /** `v` is min(n, size) different entries of the index. */
  ghost predicate Selected<K, V>(index: map<K, V>, n: nat, v: seq<V>) {
    && |v| == (if n < |index| then n else |index|)
    && Distinct(v)
    && forall e :: e in v ==> exists k :: k in index && index[k] == e
  }

  /** `v` descends in `value`, and no entry left out is larger than one that is listed. */
  ghost predicate BestFirst<K, V>(index: map<K, V>, value: V -> nat, v: seq<V>) {
    && (forall i, j :: 0 <= i < j < |v| ==> value(v[i]) >= value(v[j]))
    && forall k, i :: k in index && index[k] !in v && 0 <= i < |v| ==> value(index[k]) <= value(v[i])
  }

  /** What a top list says of the entries themselves, in any terms in which the ranks can be put. */
  lemma TopMeaning<K, V>(index: map<K, V>, rank: map<K, nat>, key: V -> K, n: nat, v: seq<V>, value: V -> nat)
    requires IsTopOf(index, rank, key, n, v) && rank.Keys == index.Keys
    requires forall k :: k in index ==> key(index[k]) == k && rank[k] == value(index[k])
    ensures Selected(index, n, v) && BestFirst(index, value, v)
  {
    var ks := KeysOf(v, key);
    assert |rank| == |rank.Keys| == |index.Keys| == |index|;
    forall i | 0 <= i < |v|
      ensures ks[i] in index && index[ks[i]] == v[i] && rank[ks[i]] == value(v[i])
    {
      assert v[i] in v;
    }
    forall k | k in index && index[k] !in v
      ensures k !in ks
    {
    }
  }

  // ---------------------------------------------------------------- optimality

  ghost function RankSum<K>(rank: map<K, nat>, keys: set<K>): nat
    requires keys <= rank.Keys
  {
    SumMap(map k | k in keys :: rank[k])
  }

  lemma RankSumTake<K>(rank: map<K, nat>, keys: set<K>, k: K)
    requires keys <= rank.Keys && k in keys
    ensures RankSum(rank, keys) == rank[k] + RankSum(rank, keys - {k})
  {
    var m := map j | j in keys :: rank[j];
    SumMapTake(m, k);
    assert m - {k} == map j | j in keys - {k} :: rank[j];
  }

  lemma {:induction false} RankSumSplit<K>(rank: map<K, nat>, a: set<K>, b: set<K>)
    requires a <= rank.Keys && b <= rank.Keys && a !! b
    ensures RankSum(rank, a + b) == RankSum(rank, a) + RankSum(rank, b)
    decreases a
  {
    if a == {} {
      assert a + b == b;
      assert RankSum(rank, a) == 0;
    } else {
      var k :| k in a;
      RankSumTake(rank, a, k);
      RankSumTake(rank, a + b, k);
      assert (a + b) - {k} == (a - {k}) + b;
      RankSumSplit(rank, a - {k}, b);
    }
  }

  lemma {:induction false} RankSumDominates<K>(rank: map<K, nat>, low: set<K>, high: set<K>)
    requires low <= rank.Keys && high <= rank.Keys && |low| == |high|
    requires forall a, b :: a in low && b in high ==> rank[a] <= rank[b]
    ensures RankSum(rank, low) <= RankSum(rank, high)
    decreases low
  {
    if low == {} {
      assert RankSum(rank, low) == 0;
    } else {
      var a :| a in low;
      assert high != {};
      var b :| b in high;
      RankSumTake(rank, low, a);
      RankSumTake(rank, high, b);
      RankSumDominates(rank, low - {a}, high - {b});
    }
  }

  ghost function Elements<K>(s: seq<K>): set<K> {
    set k | k in s
  }

  lemma {:induction false} ElementCount<K>(s: seq<K>)
    requires Distinct(s)
    ensures |Elements(s)| == |s|
  {
    if s != [] {
      var last := |s| - 1;
      ElementCount(s[..last]);
      assert Elements(s) == Elements(s[..last]) + {s[last]} by {
        assert s == s[..last] + [s[last]];
      }
      assert s[last] !in s[..last];
    }
  }

  lemma SplitBy<K>(a: set<K>, b: set<K>)
    ensures a == a * b + (a - b) && |a| == |a * b| + |a - b|
  {
    assert a == a * b + (a - b);
  }

  /** No other choice of as many keys has a larger total. */
  lemma TopIsMaximal<K>(rank: map<K, nat>, n: nat, top: seq<K>, other: set<K>)
    requires IsTop(rank, n, top)
    requires other <= rank.Keys && |other| == |top|
    ensures RankSum(rank, other) <= RankSum(rank, Elements(top))
  {
    var best := Elements(top);
    ElementCount(top);
    var both := best * other;
    SplitBy(other, best);
    SplitBy(best, other);
    assert other * best == both;
    RankSumSplit(rank, both, other - best);
    RankSumSplit(rank, both, best - other);
    forall a, b | a in other - best && b in best - other
      ensures rank[a] <= rank[b]
    {
      assert b in top;
    }
    RankSumDominates(rank, other - best, best - other);
  }
}
