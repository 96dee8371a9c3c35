/**
 Symbol tables sorted by address and searched for the last symbol at or below a query.
 Both the ELF tables and the kernel table are sorted and searched this way. `at` gives the
 address of a symbol.
 */
module AddressSearch {
  import opened Words
  import opened Sums

  ghost predicate SortedBy<T>(s: seq<T>, at: T -> u64) {
    forall i, j :: 0 <= i <= j < |s| ==> at(s[i]) <= at(s[j])
  }

  /** `table` is the symbols of `raw` in some order by address; `std::sort` leaves equal addresses in any order. */
  ghost predicate TableOf<T>(table: seq<T>, raw: seq<T>, at: T -> u64) {
    SortedBy(table, at) && multiset(table) == multiset(raw)
  }

  function InsertBy<T>(s: seq<T>, x: T, at: T -> u64): (r: seq<T>)
    requires SortedBy(s, at)
    ensures SortedBy(r, at) && multiset(r) == multiset(s) + multiset{x}
  {
    if s == [] then [x]
    else
      var last := |s| - 1;
      assert s == s[..last] + [s[last]];
      if at(s[last]) <= at(x) then s + [x]
      else
        var before := InsertBy(s[..last], x, at);
        InsertedBelow(s[..last], x, before, at, s[last]);
        assert multiset(before + [s[last]]) == multiset(before) + multiset{s[last]};
        before + [s[last]]
  }

  lemma InsertedBelow<T>(s: seq<T>, x: T, r: seq<T>, at: T -> u64, top: T)
    requires SortedBy(r, at) && multiset(r) == multiset(s) + multiset{x} && at(x) <= at(top)
    requires forall t :: t in s ==> at(t) <= at(top)
    ensures SortedBy(r + [top], at)
  {
    forall i | 0 <= i < |r|
      ensures at(r[i]) <= at(top)
    {
      assert r[i] in multiset(r);
      assert r[i] == x || r[i] in multiset(s);
    }
  }

  /** One sorted table of `s`; `TableOf` covers the other orders of equal addresses. */
  function SortBy<T>(s: seq<T>, at: T -> u64): (r: seq<T>)
    ensures TableOf(r, s, at)
  {
    if s == [] then []
    else
      assert s == s[..|s| - 1] + [s[|s| - 1]];
      InsertBy(SortBy(s[..|s| - 1], at), s[|s| - 1], at)
  }

  lemma SameElements<T>(a: seq<T>, b: seq<T>)
    requires multiset(a) == multiset(b)
    ensures forall x :: x in a <==> x in b
  {
    forall x
      ensures x in a <==> x in b
    {
      assert x in a <==> x in multiset(a);
      assert x in b <==> x in multiset(b);
    }
  }

  // ---------------------------------------------------------------- the search

  /** The linear scan: the last symbol of the table that does not start above `q`. */
  function LastNotAbove<T>(s: seq<T>, at: T -> u64, q: u64): Option<T> {
    if s == [] then None
    else if at(s[|s| - 1]) <= q then Some(s[|s| - 1])
    else LastNotAbove(s[..|s| - 1], at, q)
  }

  method UpperBound<T>(s: seq<T>, at: T -> u64, q: u64) returns (i: nat)
    requires SortedBy(s, at)
    ensures i <= |s|
    ensures forall j :: 0 <= j < i ==> at(s[j]) <= q
    ensures forall j :: i <= j < |s| ==> q < at(s[j])
    ensures LastNotAbove(s, at, q) == if i == 0 then None else Some(s[i - 1])
  {
    var lo, hi := 0, |s|;
    while lo < hi
      invariant 0 <= lo <= hi <= |s|
      invariant forall j :: 0 <= j < lo ==> at(s[j]) <= q
      invariant forall j :: hi <= j < |s| ==> q < at(s[j])
    {
      var mid := lo + (hi - lo) / 2;
      if q < at(s[mid]) {
        hi := mid;
      } else {
        lo := mid + 1;
      }
    }
    i := lo;
    ScanStopsAt(s, at, q, i);
  }

  lemma {:induction false} ScanStopsAt<T>(s: seq<T>, at: T -> u64, q: u64, i: nat)
    requires i <= |s|
    requires i > 0 ==> at(s[i - 1]) <= q
    requires forall j :: i <= j < |s| ==> q < at(s[j])
    ensures LastNotAbove(s, at, q) == if i == 0 then None else Some(s[i - 1])
    decreases |s|
  {
    if i < |s| {
      ScanStopsAt(s[..|s| - 1], at, q, i);
    }
  }

  /** `x` starts as late as any symbol that does not start above `q`. */
  ghost predicate Nearest<T>(s: seq<T>, at: T -> u64, q: u64, x: T) {
    x in s && at(x) <= q && forall t :: t in s && at(t) <= q ==> at(t) <= at(x)
  }

  ghost predicate AllAbove<T>(s: seq<T>, at: T -> u64, q: u64) {
    forall t :: t in s ==> q < at(t)
  }

  lemma {:induction false} ScanIsNearest<T>(s: seq<T>, at: T -> u64, q: u64)
    requires SortedBy(s, at)
    ensures var r := LastNotAbove(s, at, q);
            if r.Some? then Nearest(s, at, q, r.value) else AllAbove(s, at, q)
    decreases |s|
  {
    if s != [] {
      var last := |s| - 1;
      assert s == s[..last] + [s[last]];
      ScanIsNearest(s[..last], at, q);
    }
  }

  /** In any order of the table the scan finds a nearest symbol, if any symbol starts at or below the query. */
  lemma TableFindsNearest<T>(raw: seq<T>, table: seq<T>, at: T -> u64, q: u64)
    requires TableOf(table, raw, at)
    ensures var r := LastNotAbove(table, at, q);
            if r.Some? then Nearest(raw, at, q, r.value) else AllAbove(raw, at, q)
  {
    ScanIsNearest(table, at, q);
    SameElements(table, raw);
  }

  /** `x` is the last of the symbols that do not start above `q`. */
  ghost predicate IsLastNotAbove<T>(table: seq<T>, at: T -> u64, q: u64, x: T) {
    exists i :: 0 <= i < |table| && table[i] == x && at(x) <= q && forall j :: i < j < |table| ==> q < at(table[j])
  }

  lemma ScanIsLast<T>(table: seq<T>, at: T -> u64, q: u64, x: T)
    ensures LastNotAbove(table, at, q) == Some(x) <==> IsLastNotAbove(table, at, q, x)
  {
    forall i | 0 <= i < |table| && table[i] == x && at(x) <= q && forall j :: i < j < |table| ==> q < at(table[j])
      ensures LastNotAbove(table, at, q) == Some(x)
    {
      ScanStopsAt(table, at, q, i + 1);
    }
    if LastNotAbove(table, at, q) == Some(x) {
      ScanFound(table, at, q);
    }
  }

  lemma {:induction false} ScanFound<T>(table: seq<T>, at: T -> u64, q: u64)
    requires LastNotAbove(table, at, q).Some?
    ensures IsLastNotAbove(table, at, q, LastNotAbove(table, at, q).value)
    decreases |table|
  {
    var last := |table| - 1;
    if at(table[last]) > q {
      ScanFound(table[..last], at, q);
      var x := LastNotAbove(table, at, q).value;
      var i :| 0 <= i < last && table[..last][i] == x && forall j :: i < j < last ==> q < at(table[..last][j]);
      assert forall j :: i < j < |table| ==> q < at(table[j]);
      assert table[i] == x;
    }
  }

  // ---------------------------------------------------------------- the orders of equal addresses

  /** Insertion puts a symbol after those with its address. */
  lemma {:induction false} InsertedIsLast<T>(s: seq<T>, x: T, at: T -> u64, q: u64)
    requires SortedBy(s, at) && at(x) <= q
    requires forall t :: t in s && at(t) <= q ==> at(t) <= at(x)
    ensures LastNotAbove(InsertBy(s, x, at), at, q) == Some(x)
    decreases |s|
  {
    if s != [] {
      var last := |s| - 1;
      if at(s[last]) > at(x) {
        assert s[last] in s && at(s[last]) > q;
        InsertedIsLast(s[..last], x, at, q);
        var before := InsertBy(s[..last], x, at);
        assert InsertBy(s, x, at) == before + [s[last]];
        assert (before + [s[last]])[..|before|] == before;
      }
    }
  }

  /** Any nearest symbol is the last one in some order of the table. */
  lemma NearestCanBeLast<T>(raw: seq<T>, at: T -> u64, q: u64, x: T) returns (table: seq<T>)
    requires Nearest(raw, at, q, x)
    ensures TableOf(table, raw, at) && LastNotAbove(table, at, q) == Some(x)
  {
    var i :| 0 <= i < |raw| && raw[i] == x;
    var sorted := SortBy(Without(raw, i), at);
    WithoutCounts(raw, i);
    SameElements(sorted, Without(raw, i));
    WithoutElements(raw, i);
    table := InsertBy(sorted, x, at);
    InsertedIsLast(sorted, x, at, q);
  }
}
