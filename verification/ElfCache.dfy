/** Symbol tables read from ELF files, kept in a bounded cache and searched by address. */
module ElfCache {
  import opened Words
  import opened Sums
  import opened AddressSearch

  const NEAR_LIMIT: nat := 0x10000

  datatype ElfSymbol = ElfSymbol(name: string, addr: u64, size: u64)

  datatype ElfInfo = ElfInfo(symbols: seq<ElfSymbol>, loadBase: u64)

  /** What libelf reports for one symbol table entry. */
  datatype RawSymbol = RawSymbol(name: string, value: u64, size: u64, isFunction: bool)

  /** A file as read from disk; a file that cannot be read has no symbols. */
  datatype ElfImage = ElfImage(raw: seq<RawSymbol>, loadBase: u64)

  /** Named functions with an address, of size at least one. */
  function Collected(raw: seq<RawSymbol>): seq<ElfSymbol> {
    if raw == [] then []
    else
      var last := |raw| - 1;
      var x, before := raw[last], Collected(raw[..last]);
      if IsNamedFunction(x) then before + [AsSymbol(x)] else before
  }

  predicate IsNamedFunction(x: RawSymbol) {
    x.isFunction && x.value != 0 && x.name != ""
  }

  function AsSymbol(x: RawSymbol): ElfSymbol {
    ElfSymbol(x.name, x.value, if x.size == 0 then 1 else x.size)
  }

  /** Exactly the named functions are collected, and none has an empty range. */
  lemma {:induction false} CollectedMeaning(raw: seq<RawSymbol>, s: ElfSymbol)
    ensures s in Collected(raw) <==>
            exists x :: x in raw && x.isFunction && x.value != 0 && x.name != ""
                        && s.name == x.name && s.addr == x.value && s.size == (if x.size == 0 then 1 else x.size)
  {
    if raw != [] {
      var last := |raw| - 1;
      assert raw == raw[..last] + [raw[last]];
      CollectedMeaning(raw[..last], s);
    }
  }

  /** Counts the table entries that give the symbol `s`. */
  function Gives(s: ElfSymbol): RawSymbol -> nat {
    (x: RawSymbol) =>
      if x.isFunction && x.value != 0 && x.name != "" && s == ElfSymbol(x.name, x.value, if x.size == 0 then 1 else x.size)
      then 1 else 0
  }

  /** Each symbol is collected as often as the file's tables list it. */
  lemma {:induction false} CollectedCount(raw: seq<RawSymbol>, s: ElfSymbol)
    ensures multiset(Collected(raw))[s] == SumBy(raw, Gives(s))
  {
    if raw != [] {
      CollectedCount(raw[..|raw| - 1], s);
    }
  }

  function AddrOf(s: ElfSymbol): u64 {
    s.addr
  }

  function ParseElf(image: ElfImage): ElfInfo {
    ElfInfo(SortBy(Collected(image.raw), AddrOf), image.loadBase)
  }

  lemma ParsedTable(image: ElfImage)
    ensures TableOf(ParseElf(image).symbols, Collected(image.raw), AddrOf)
  {
  }

  // ---------------------------------------------------------------- address lookup

  /** The range test wraps at 2^64; a symbol less than 64 KiB below is accepted anyway. */
  predicate Accepts(s: ElfSymbol, q: u64) {
    s.addr <= q && (q < Add64(s.addr, s.size) || q - s.addr < NEAR_LIMIT)
  }

  /** A symbol is acceptable if its range, unless it wraps, holds the query or the query is under 64 KiB away. */
  lemma AcceptsMeaning(s: ElfSymbol, q: u64)
    ensures Accepts(s, q) <==>
            && s.addr <= q
            && ((s.addr + s.size < 0x1_0000_0000_0000_0000 && q < s.addr + s.size) || q < s.addr + 65536)
  {
  }

  function Answer(syms: seq<ElfSymbol>, q: u64): Option<ElfSymbol> {
    var s := LastNotAbove(syms, AddrOf, q);
    if s.Some? && Accepts(s.value, q) then s else None
  }

  /** The binary search gives the answer of the linear scan. */
  method Find(syms: seq<ElfSymbol>, q: u64) returns (r: Option<ElfSymbol>)
    requires SortedBy(syms, AddrOf)
    ensures r == Answer(syms, q)
  {
    if syms == [] {
      return None;
    }
    var i := UpperBound(syms, AddrOf, q);
    if i != 0 {
      var s := syms[i - 1];
      if q >= s.addr && q < Add64(s.addr, s.size) {
        return Some(s);
      }
      if q >= s.addr && q - s.addr < NEAR_LIMIT {
        return Some(ElfSymbol(s.name, s.addr, s.size));
      }
    }
    return None;
  }

  // ---------------------------------------------------------------- what an answer means

  /**
   For every order of equal addresses, an answer is a nearest acceptable symbol of `raw`.
   There is none exactly when no symbol starts at or below the query or the last one that
   does is not acceptable.
   */
  lemma AnswerMeaning(raw: seq<ElfSymbol>, table: seq<ElfSymbol>, q: u64)
    requires TableOf(table, raw, AddrOf)
    ensures var r := Answer(table, q);
            r.Some? ==> Nearest(raw, AddrOf, q, r.value) && Accepts(r.value, q)
    ensures Answer(table, q).None? <==>
            || AllAbove(raw, AddrOf, q)
            || (exists s :: IsLastNotAbove(table, AddrOf, q, s) && Nearest(raw, AddrOf, q, s) && !Accepts(s, q))
  {
    TableFindsNearest(raw, table, AddrOf, q);
    var s := LastNotAbove(table, AddrOf, q);
    if s.Some? {
      ScanIsLast(table, AddrOf, q, s.value);
    }
    forall s' | IsLastNotAbove(table, AddrOf, q, s')
      ensures s == Some(s')
    {
      ScanIsLast(table, AddrOf, q, s');
    }
  }

  /**
   When the nearest symbols have one size, as they do when no two share an address, no
   answer means that no nearest symbol is acceptable. A farther one may still hold the query.
   */
  lemma NoneMeansNoNearest(raw: seq<ElfSymbol>, table: seq<ElfSymbol>, q: u64)
    requires TableOf(table, raw, AddrOf)
    requires forall s, t :: Nearest(raw, AddrOf, q, s) && Nearest(raw, AddrOf, q, t) ==> s.size == t.size
    ensures Answer(table, q).None? <==> !exists s :: Nearest(raw, AddrOf, q, s) && Accepts(s, q)
  {
    AnswerMeaning(raw, table, q);
    forall s, t | Nearest(raw, AddrOf, q, s) && Nearest(raw, AddrOf, q, t)
      ensures Accepts(s, q) <==> Accepts(t, q)
    {
      assert s.addr == t.addr && s.size == t.size;
    }
  }

  /** Some order of the table leaves the query unanswered. */
  ghost predicate CanMiss(raw: seq<ElfSymbol>, q: u64) {
    exists table :: TableOf(table, raw, AddrOf) && Answer(table, q).None?
  }

  ghost predicate CanAnswer(raw: seq<ElfSymbol>, q: u64) {
    exists table :: TableOf(table, raw, AddrOf) && Answer(table, q).Some?
  }

  /** The answer when a given nearest symbol is the last one. */
  lemma AnswerWithLast(raw: seq<ElfSymbol>, q: u64, s: ElfSymbol) returns (table: seq<ElfSymbol>)
    requires Nearest(raw, AddrOf, q, s)
    ensures TableOf(table, raw, AddrOf) && Answer(table, q) == if Accepts(s, q) then Some(s) else None
  {
    table := NearestCanBeLast(raw, AddrOf, q, s);
  }

  /**
   Over all orders of equal addresses: some order finds a symbol exactly when some nearest
   symbol is acceptable, and some order finds none exactly when there is no nearest symbol
   or one that is not acceptable. So the result depends on the sort exactly when the nearest
   symbols disagree.
   */
  lemma AnswerOverOrders(raw: seq<ElfSymbol>, q: u64)
    ensures CanAnswer(raw, q) <==> exists s :: Nearest(raw, AddrOf, q, s) && Accepts(s, q)
    ensures CanMiss(raw, q) <==> AllAbove(raw, AddrOf, q) || (exists s :: Nearest(raw, AddrOf, q, s) && !Accepts(s, q))
  {
    forall table | TableOf(table, raw, AddrOf)
      ensures Answer(table, q).Some? ==> exists s :: Nearest(raw, AddrOf, q, s) && Accepts(s, q)
      ensures Answer(table, q).None? ==>
                AllAbove(raw, AddrOf, q) || (exists s :: Nearest(raw, AddrOf, q, s) && !Accepts(s, q))
    {
      AnswerMeaning(raw, table, q);
    }
    forall s | Nearest(raw, AddrOf, q, s)
      ensures if Accepts(s, q) then CanAnswer(raw, q) else CanMiss(raw, q)
    {
      var table := AnswerWithLast(raw, q, s);
    }
    if AllAbove(raw, AddrOf, q) {
      AnswerMeaning(raw, SortBy(raw, AddrOf), q);
      assert TableOf(SortBy(raw, AddrOf), raw, AddrOf);
    }
  }

  // ---------------------------------------------------------------- queries inside a symbol

  ghost predicate Contains(s: ElfSymbol, q: u64) {
    s.addr <= q < s.addr + s.size
  }

  ghost predicate Inside(raw: seq<ElfSymbol>, q: u64) {
    exists t :: t in raw && Contains(t, q)
  }

  /** The first address past all those that `s` is accepted for; a range that wraps is as good as empty. */
  ghost function Past(s: ElfSymbol): nat {
    s.addr + if 0x1_0000 < s.size < W64 - s.addr then s.size else 0x1_0000
  }

  lemma AcceptsUntilPast(s: ElfSymbol, q: u64)
    requires s.addr <= q
    ensures Accepts(s, q) <==> q < Past(s)
  {
  }

  /** Symbol `t` reaches past the end of `s`, which starts in it or with it, and no symbol starts in between. */
  ghost predicate Outlasts(raw: seq<ElfSymbol>, t: ElfSymbol, s: ElfSymbol, end: nat) {
    && t in raw && s in raw && t.addr <= s.addr
    && end < t.addr + t.size && end < W64
    && forall c :: c in raw ==> !(s.addr < c.addr <= end)
  }

  /** At the end of `s`, the query is inside `t` and `s` is nearest. */
  lemma OutlastedIsNearest(raw: seq<ElfSymbol>, t: ElfSymbol, s: ElfSymbol, end: nat)
    requires Outlasts(raw, t, s, end) && s.addr <= end
    ensures Contains(t, end) && Inside(raw, end) && Nearest(raw, AddrOf, end, s)
  {
    assert Contains(t, end);
  }

  /** A query inside `t` and past the end of a nearest symbol shows that `t` outlasts it. */
  lemma NearestIsOutlasted(raw: seq<ElfSymbol>, t: ElfSymbol, s: ElfSymbol, q: u64, end: nat)
    requires t in raw && Contains(t, q) && Nearest(raw, AddrOf, q, s) && end <= q
    ensures Outlasts(raw, t, s, end)
  {
  }

  /**
   A table is at risk of leaving a query inside one of its symbols unanswered exactly when
   some symbol outlasts another that starts in it or with it, 64 KiB from its start at
   least, and no symbol starts in between. The condition is about the table alone.
   */
  lemma LookupCanMiss(raw: seq<ElfSymbol>)
    ensures (exists q: u64 :: Inside(raw, q) && CanMiss(raw, q)) <==> exists t, s :: Outlasts(raw, t, s, Past(s))
  {
    forall q: u64 | Inside(raw, q) && CanMiss(raw, q)
      ensures exists t, s :: Outlasts(raw, t, s, Past(s))
    {
      var t :| t in raw && Contains(t, q);
      AnswerOverOrders(raw, q);
      var s :| Nearest(raw, AddrOf, q, s) && !Accepts(s, q);
      AcceptsUntilPast(s, q);
      NearestIsOutlasted(raw, t, s, q, Past(s));
    }
    forall t, s | Outlasts(raw, t, s, Past(s))
      ensures exists q: u64 :: Inside(raw, q) && CanMiss(raw, q)
    {
      var q: u64 := Past(s);
      OutlastedIsNearest(raw, t, s, q);
      AcceptsUntilPast(s, q);
      AnswerOverOrders(raw, q);
      assert Inside(raw, q) && CanMiss(raw, q);
    }
  }

  /** `s` is accepted as far as any symbol at its address. */
  ghost predicate Farthest(raw: seq<ElfSymbol>, s: ElfSymbol) {
    s in raw && forall c :: c in raw && c.addr == s.addr ==> Past(c) <= Past(s)
  }

  lemma {:induction false} FarthestAt(raw: seq<ElfSymbol>, x: ElfSymbol) returns (s: ElfSymbol)
    requires x in raw
    ensures Farthest(raw, s) && s.addr == x.addr
  {
    var last := |raw| - 1;
    var y := raw[last];
    assert raw == raw[..last] + [y];
    if exists z :: z in raw[..last] && z.addr == x.addr {
      var z :| z in raw[..last] && z.addr == x.addr;
      s := FarthestAt(raw[..last], z);
      if y.addr == x.addr && Past(y) > Past(s) {
        s := y;
      }
    } else {
      s := x;
    }
  }

  /** The same for queries inside a symbol that no order of the table answers. */
  lemma LookupMustMiss(raw: seq<ElfSymbol>)
    ensures (exists q: u64 :: Inside(raw, q) && !CanAnswer(raw, q)) <==>
            exists t, s :: Farthest(raw, s) && Outlasts(raw, t, s, Past(s))
  {
    forall q: u64 | Inside(raw, q) && !CanAnswer(raw, q)
      ensures exists t, s :: Farthest(raw, s) && Outlasts(raw, t, s, Past(s))
    {
      var t :| t in raw && Contains(t, q);
      AnswerOverOrders(raw, q);
      TableFindsNearest(raw, SortBy(raw, AddrOf), AddrOf, q);
      var s := FarthestAt(raw, LastNotAbove(SortBy(raw, AddrOf), AddrOf, q).value);
      assert Nearest(raw, AddrOf, q, s);
      AcceptsUntilPast(s, q);
      NearestIsOutlasted(raw, t, s, q, Past(s));
    }
    forall t, s | Farthest(raw, s) && Outlasts(raw, t, s, Past(s))
      ensures exists q: u64 :: Inside(raw, q) && !CanAnswer(raw, q)
    {
      var q: u64 := Past(s);
      OutlastedIsNearest(raw, t, s, q);
      forall c | Nearest(raw, AddrOf, q, c)
        ensures !Accepts(c, q)
      {
        AcceptsUntilPast(c, q);
      }
      AnswerOverOrders(raw, q);
      assert Inside(raw, q) && !CanAnswer(raw, q);
    }
  }

  /** Some order of the table does not answer with a symbol that contains the query. */
  ghost predicate CanMislead(raw: seq<ElfSymbol>, q: u64) {
    exists table :: TableOf(table, raw, AddrOf) && !Truthful(Answer(table, q), q)
  }

  ghost predicate Truthful(r: Option<ElfSymbol>, q: u64) {
    r.Some? && Contains(r.value, q)
  }

  /** The first address past those for which `s` is a truthful answer. */
  ghost function TruthfulEnd(s: ElfSymbol): nat {
    s.addr + if s.size < W64 - s.addr then s.size else 0x1_0000
  }

  lemma TruthfulUntilEnd(s: ElfSymbol, q: u64)
    requires s.addr <= q
    ensures Accepts(s, q) && Contains(s, q) <==> q < TruthfulEnd(s)
  {
  }

  lemma MisleadMeaning(raw: seq<ElfSymbol>, q: u64)
    requires Inside(raw, q)
    ensures CanMislead(raw, q) <==> exists s :: Nearest(raw, AddrOf, q, s) && TruthfulEnd(s) <= q
  {
    forall table | TableOf(table, raw, AddrOf) && !Truthful(Answer(table, q), q)
      ensures exists s :: Nearest(raw, AddrOf, q, s) && TruthfulEnd(s) <= q
    {
      TableFindsNearest(raw, table, AddrOf, q);
      var s := LastNotAbove(table, AddrOf, q).value;
      TruthfulUntilEnd(s, q);
      assert Nearest(raw, AddrOf, q, s);
    }
    forall s | Nearest(raw, AddrOf, q, s) && TruthfulEnd(s) <= q
      ensures CanMislead(raw, q)
    {
      var table := AnswerWithLast(raw, q, s);
      TruthfulUntilEnd(s, q);
      assert !Truthful(Answer(table, q), q);
    }
  }

  /**
   Every query inside a symbol is answered with a symbol that contains it, whatever the sort
   does, exactly when no symbol outlasts one that starts in it or with it before another
   symbol starts. Nested symbols are at risk, disjoint and identical ones are not.
   */
  lemma LookupCanMislead(raw: seq<ElfSymbol>)
    ensures (exists q: u64 :: Inside(raw, q) && CanMislead(raw, q)) <==> exists t, s :: Outlasts(raw, t, s, TruthfulEnd(s))
  {
    forall q: u64 | Inside(raw, q) && CanMislead(raw, q)
      ensures exists t, s :: Outlasts(raw, t, s, TruthfulEnd(s))
    {
      var t :| t in raw && Contains(t, q);
      MisleadMeaning(raw, q);
      var s :| Nearest(raw, AddrOf, q, s) && TruthfulEnd(s) <= q;
      NearestIsOutlasted(raw, t, s, q, TruthfulEnd(s));
    }
    forall t, s | Outlasts(raw, t, s, TruthfulEnd(s))
      ensures exists q: u64 :: Inside(raw, q) && CanMislead(raw, q)
    {
      var q: u64 := TruthfulEnd(s);
      OutlastedIsNearest(raw, t, s, q);
      MisleadMeaning(raw, q);
      assert Inside(raw, q) && CanMislead(raw, q);
    }
  }

  /** Two symbols at one address: the smaller, if last, hides the one that holds the query. */
  lemma HiddenSymbol()
    ensures var a, b, q := ElfSymbol("a", 1, 0x30000), ElfSymbol("b", 1, 1), 0x20000;
            && TableOf([a, b], [a, b], AddrOf) && TableOf([b, a], [a, b], AddrOf) && Contains(a, q)
            && Answer([a, b], q) == None && Answer([b, a], q) == Some(a)
  {
    var a, b, q := ElfSymbol("a", 1, 0x30000), ElfSymbol("b", 1, 1), 0x20000;
    assert multiset([b, a]) == multiset{a, b} == multiset([a, b]);
    ScanStopsAt([a, b], AddrOf, q, 2);
    ScanStopsAt([b, a], AddrOf, q, 2);
  }

  /** A symbol inside another hides the rest of it in every order. */
  lemma NestedSymbol(table: seq<ElfSymbol>)
    requires TableOf(table, [ElfSymbol("a", 1, 0x30000), ElfSymbol("b", 2, 1)], AddrOf)
    ensures Contains(ElfSymbol("a", 1, 0x30000), 0x20000) && Answer(table, 0x20000) == None
  {
    var a, b, q := ElfSymbol("a", 1, 0x30000), ElfSymbol("b", 2, 1), 0x20000;
    TableFindsNearest([a, b], table, AddrOf, q);
    assert [a, b][1] == b && b in [a, b] && [a, b][0] == a;
    var s := LastNotAbove(table, AddrOf, q);
    assert s == Some(b);
  }

  /** Two address ranges are the same or do not meet. */
  ghost predicate Apart(a: ElfSymbol, b: ElfSymbol) {
    || (a.addr == b.addr && a.size == b.size)
    || a.addr + a.size <= b.addr
    || b.addr + b.size <= a.addr
  }

  /**
   When non-empty ranges do not wrap and any two are the same or disjoint, a query inside
   some symbol is answered with a symbol that contains it.
   */
  lemma FindsContaining(raw: seq<ElfSymbol>, table: seq<ElfSymbol>, q: u64, t: ElfSymbol)
    requires TableOf(table, raw, AddrOf)
    requires t in raw && Contains(t, q)
    requires forall s :: s in raw ==> 0 < s.size && s.addr + s.size < W64
    requires forall a, b :: a in raw && b in raw ==> Apart(a, b)
    ensures Answer(table, q).Some? && Contains(Answer(table, q).value, q)
  {
    TableFindsNearest(raw, table, AddrOf, q);
    var s := LastNotAbove(table, AddrOf, q).value;
    assert Apart(s, t);
  }

  /** The same for the table parsed from a file, where no range is empty. */
  lemma ParsedFindsContaining(image: ElfImage, q: u64, t: ElfSymbol)
    requires t in Collected(image.raw) && Contains(t, q)
    requires forall s :: s in Collected(image.raw) ==> s.addr + s.size < W64
    requires forall a, b :: a in Collected(image.raw) && b in Collected(image.raw) ==> Apart(a, b)
    ensures Answer(ParseElf(image).symbols, q).Some? && Contains(Answer(ParseElf(image).symbols, q).value, q)
  {
    ParsedTable(image);
    forall s | s in Collected(image.raw)
      ensures s.size > 0
    {
      CollectedMeaning(image.raw, s);
    }
    FindsContaining(Collected(image.raw), ParseElf(image).symbols, q, t);
  }

  // ---------------------------------------------------------------- the cache

  datatype Op = Resolve(path: string, q: u64) | GetInfo(path: string) | Clear

  datatype Reply = Symbol(symbol: Option<ElfSymbol>) | Info(info: Option<ElfInfo>) | Done

  /** The path is cached already or there is room for it. */
  predicate Served(max: nat, cache: map<string, ElfInfo>, path: string) {
    path in cache || |cache| < max
  }

  function Loaded(image: string -> ElfImage, cache: map<string, ElfInfo>, path: string): map<string, ElfInfo> {
    if path in cache then cache else cache[path := ParseElf(image(path))]
  }

  function NextCache(max: nat, image: string -> ElfImage, cache: map<string, ElfInfo>, op: Op): map<string, ElfInfo> {
    match op
    case Clear => map[]
    case Resolve(path, _) => if Served(max, cache, path) then Loaded(image, cache, path) else cache
    case GetInfo(path) => if Served(max, cache, path) then Loaded(image, cache, path) else cache
  }

  function ReplyOf(max: nat, image: string -> ElfImage, cache: map<string, ElfInfo>, op: Op): Reply {
    match op
    case Clear => Done
    case Resolve(path, q) =>
      Symbol(if Served(max, cache, path) then Answer(Loaded(image, cache, path)[path].symbols, q) else None)
    case GetInfo(path) =>
      Info(if Served(max, cache, path) then Some(Loaded(image, cache, path)[path]) else None)
  }

  /** The reply of a cache that never forgets nor fills up. */
  function UncachedReply(image: string -> ElfImage, op: Op): Reply {
    match op
    case Clear => Done
    case Resolve(path, q) => Symbol(Answer(ParseElf(image(path)).symbols, q))
    case GetInfo(path) => Info(Some(ParseElf(image(path))))
  }

  ghost predicate StepTaken(max: nat, image: string -> ElfImage, ops: seq<Op>, caches: seq<map<string, ElfInfo>>, i: nat)
    requires i < |ops| && |caches| == |ops| + 1
  {
    caches[i + 1] == NextCache(max, image, caches[i], ops[i])
  }

  /** `caches` lists the states of an initially empty cache before and after each operation. */
  ghost predicate CacheRun(max: nat, image: string -> ElfImage, ops: seq<Op>, caches: seq<map<string, ElfInfo>>) {
    && |caches| == |ops| + 1 && caches[0] == map[]
    && forall i :: 0 <= i < |ops| ==> StepTaken(max, image, ops, caches, i)
  }

  ghost predicate Faithful(max: nat, image: string -> ElfImage, cache: map<string, ElfInfo>) {
    |cache| <= max && forall p :: p in cache ==> cache[p] == ParseElf(image(p))
  }

  lemma OneMore<K, V>(m: map<K, V>, k: K, v: V)
    requires k !in m
    ensures |m[k := v]| == |m| + 1
    ensures forall j :: j in m[k := v] ==> m[k := v][j] == if j == k then v else m[j]
  {
    assert m[k := v].Keys == m.Keys + {k};
  }

  lemma LoadedFaithful(max: nat, image: string -> ElfImage, cache: map<string, ElfInfo>, path: string)
    requires Faithful(max, image, cache) && Served(max, cache, path)
    ensures Faithful(max, image, Loaded(image, cache, path))
  {
    if path !in cache {
      OneMore(cache, path, ParseElf(image(path)));
    }
  }

  lemma FaithfulStep(max: nat, image: string -> ElfImage, cache: map<string, ElfInfo>, next: map<string, ElfInfo>, op: Op)
    requires Faithful(max, image, cache) && next == NextCache(max, image, cache, op)
    ensures Faithful(max, image, next)
  {
    if !op.Clear? && Served(max, cache, op.path) {
      LoadedFaithful(max, image, cache, op.path);
    }
  }

  lemma {:induction false} CacheFaithful(max: nat, image: string -> ElfImage, ops: seq<Op>, caches: seq<map<string, ElfInfo>>, n: nat)
    requires CacheRun(max, image, ops, caches) && n < |caches|
    ensures Faithful(max, image, caches[n])
  {
    if n > 0 {
      assert StepTaken(max, image, ops, caches, n - 1);
      CacheFaithful(max, image, ops, caches, n - 1);
      FaithfulStep(max, image, caches[n - 1], caches[n], ops[n - 1]);
    }
  }

  /** Nothing, because the path is new and the cache full. */
  predicate Refused(max: nat, cache: map<string, ElfInfo>, op: Op, reply: Reply) {
    !op.Clear? && op.path !in cache && |cache| == max && (reply == Symbol(None) || reply == Info(None))
  }

  lemma ReplyTransparent(max: nat, image: string -> ElfImage, cache: map<string, ElfInfo>, op: Op)
    requires Faithful(max, image, cache)
    ensures var reply := ReplyOf(max, image, cache, op);
            reply == UncachedReply(image, op) || Refused(max, cache, op, reply)
  {
  }

  /**
   Over every sequence of operations the cache stays within its bound, and each reply is
   the uncached one, or empty because the path is new and the cache full.
   */
  lemma CacheTransparent(max: nat, image: string -> ElfImage, ops: seq<Op>, caches: seq<map<string, ElfInfo>>, n: nat)
    requires CacheRun(max, image, ops, caches) && n < |ops|
    ensures |caches[n]| <= max && |caches[n + 1]| <= max
    ensures var reply := ReplyOf(max, image, caches[n], ops[n]);
            reply == UncachedReply(image, ops[n]) || Refused(max, caches[n], ops[n], reply)
  {
    CacheFaithful(max, image, ops, caches, n);
    CacheFaithful(max, image, ops, caches, n + 1);
    ReplyTransparent(max, image, caches[n], ops[n]);
  }

  class Cache {
    const maxEntries: nat
    const image: string -> ElfImage
    var cache: map<string, ElfInfo>

    ghost predicate Valid()
      reads this
    {
      Faithful(maxEntries, image, cache)
    }

    constructor (maxEntries: nat, image: string -> ElfImage)
      ensures Valid() && cache == map[] && this.maxEntries == maxEntries && this.image == image
    {
      this.maxEntries, this.image := maxEntries, image;
      cache := map[];
    }

    method EnsureLoaded(path: string) returns (info: ElfInfo)
      requires Valid() && Served(maxEntries, cache, path)
      modifies this`cache
      ensures Valid() && cache == Loaded(image, old(cache), path) && info == cache[path]
    {
      LoadedFaithful(maxEntries, image, cache, path);
      if path !in cache {
        info := ParseElf(image(path));
        cache := cache[path := info];
      }
      info := cache[path];
    }

    method ResolveAddress(path: string, q: u64) returns (r: Option<ElfSymbol>)
      requires Valid()
      modifies this`cache
      ensures Valid() && cache == NextCache(maxEntries, image, old(cache), Resolve(path, q))
      ensures Symbol(r) == ReplyOf(maxEntries, image, old(cache), Resolve(path, q))
    {
      if |cache| >= maxEntries && path !in cache {
        return None;
      }
      var info := EnsureLoaded(path);
      ParsedTable(image(path));
      r := Find(info.symbols, q);
    }

    method GetElfInfo(path: string) returns (r: Option<ElfInfo>)
      requires Valid()
      modifies this`cache
      ensures Valid() && cache == NextCache(maxEntries, image, old(cache), GetInfo(path))
      ensures Info(r) == ReplyOf(maxEntries, image, old(cache), GetInfo(path))
    {
      if |cache| >= maxEntries && path !in cache {
        return None;
      }
      assert Served(maxEntries, cache, path);
      var info := EnsureLoaded(path);
      r := Some(info);
    }

    method ClearAll()
      modifies this`cache
      ensures Valid() && cache == map[]
    {
      cache := map[];
    }
  }
}
