/**
 Address-to-symbol resolution over three caches: memory mappings per process, ELF
 tables per file and the kernel symbol table. What the caches would load is given as
 functions of the process and of the path.
 */
module Symbolizer {
  import opened Words
  import opened AddressSearch
  import opened ElfCache

  datatype MemoryMapping = MemoryMapping(start: u64, end: u64, offset: u64, pathname: string)

  datatype KernelSymbol = KernelSymbol(addr: u64, name: string)

  datatype FrameName = Unknown | Hex(address: u64) | Named(name: string)

  datatype Frame = Frame(addr: u64, symbol: FrameName, binary: string, offset: u64, resolved: bool)

  const MAX_ELF_FILES: nat := 10000

  /** The part of a path after its last slash. */
  function BaseName(path: string): string {
    if path == [] || path[|path| - 1] == '/' then [] else BaseName(path[..|path| - 1]) + [path[|path| - 1]]
  }

  predicate Holds(m: MemoryMapping, addr: u64) {
    m.start <= addr < m.end
  }

  /** The first mapping that holds the address. */
  function FindMapping(maps: seq<MemoryMapping>, addr: u64): (r: Option<MemoryMapping>)
    ensures r.Some? ==> r.value in maps && r.value.start <= addr < r.value.end
    ensures r.Some? ==> exists i :: 0 <= i < |maps| && maps[i] == r.value
                                    && forall j :: 0 <= j < i ==> !(maps[j].start <= addr < maps[j].end)
    ensures r.None? ==> forall m :: m in maps ==> !(m.start <= addr < m.end)
  {
    if maps == [] then None
    else if Holds(maps[0], addr) then Some(maps[0])
    else FindMapping(maps[1..], addr)
  }

  /** The address inside the ELF file, wrapping. */
  function ElfAddress(m: MemoryMapping, addr: u64, loadBase: u64): u64 {
    Add64(Add64(Sub64(addr, m.start), m.offset), loadBase)
  }

  function SymbolFrame(addr: u64, path: string, vaddr: u64, symbol: Option<ElfSymbol>): Frame {
    if symbol.Some? then Frame(addr, Named(symbol.value.name), BaseName(path), Sub64(vaddr, symbol.value.addr), true)
    else Frame(addr, Hex(vaddr), BaseName(path), vaddr, false)
  }

  /** The frame for an address in a mapping whose file is loaded. */
  function LoadedFrame(info: ElfInfo, m: MemoryMapping, addr: u64): Frame {
    var vaddr := ElfAddress(m, addr, info.loadBase);
    SymbolFrame(addr, m.pathname, vaddr, Answer(info.symbols, vaddr))
  }

  /** The frame for a user address when every file can be loaded. */
  function UserFrame(image: string -> ElfImage, maps: seq<MemoryMapping>, addr: u64): Frame {
    var m := FindMapping(maps, addr);
    if addr == 0 then Frame(0, Unknown, "", 0, false)
    else if m.None? then Frame(addr, Hex(addr), "", 0, false)
    else LoadedFrame(ParseElf(image(m.value.pathname)), m.value, addr)
  }

  /** The frame when the address lies in a file that is new to a full cache. */
  function UnloadedFrame(m: MemoryMapping, addr: u64): Frame {
    SymbolFrame(addr, m.pathname, ElfAddress(m, addr, 0), None)
  }

  /** The file of the address is not in the cache, and the cache is full. */
  ghost predicate LeftOut(maps: seq<MemoryMapping>, cache: map<string, ElfInfo>, addr: u64) {
    var m := FindMapping(maps, addr);
    m.Some? && m.value.pathname !in cache && |cache| == 10000
  }

  /** The frame is the uncached one, or an unresolved one because its file did not fit. */
  ghost predicate FrameFor(image: string -> ElfImage, maps: seq<MemoryMapping>, cache: map<string, ElfInfo>,
                           addr: u64, frame: Frame) {
    || frame == UserFrame(image, maps, addr)
    || (LeftOut(maps, cache, addr) && frame == UnloadedFrame(FindMapping(maps, addr).value, addr))
  }

  /** A file left out stays left out while the cache only grows. */
  lemma StillLeftOut(maps: seq<MemoryMapping>, before: map<string, ElfInfo>, after: map<string, ElfInfo>, addr: u64)
    requires LeftOut(maps, before, addr) && before.Keys <= after.Keys && |after| <= MAX_ELF_FILES
    ensures LeftOut(maps, after, addr)
  {
    var extra := after.Keys - before.Keys;
    assert after.Keys == before.Keys + extra;
    assert |after.Keys| == |before.Keys| + |extra|;
    assert extra == {};
  }

  /** What a stack frame must be, for either kind of stack. */
  ghost predicate StackFrame(isKernel: bool, kernel: seq<KernelSymbol>, image: string -> ElfImage,
                             maps: seq<MemoryMapping>, cache: map<string, ElfInfo>, addr: u64, frame: Frame) {
    if isKernel then frame == KernelFrame(kernel, addr) else FrameFor(image, maps, cache, addr, frame)
  }

  /** One frame for each of the first `n` addresses, in order. */
  ghost predicate StackFrames(isKernel: bool, kernel: seq<KernelSymbol>, image: string -> ElfImage, maps: seq<MemoryMapping>,
                              cache: map<string, ElfInfo>, addrs: seq<u64>, frames: seq<Frame>, n: nat) {
    && |frames| == n <= |addrs|
    && forall i :: 0 <= i < n ==> StackFrame(isKernel, kernel, image, maps, cache, addrs[i], frames[i])
  }

  lemma StackFrameKept(isKernel: bool, kernel: seq<KernelSymbol>, image: string -> ElfImage, maps: seq<MemoryMapping>,
                       before: map<string, ElfInfo>, after: map<string, ElfInfo>, addr: u64, frame: Frame)
    requires StackFrame(isKernel, kernel, image, maps, before, addr, frame)
    requires before.Keys <= after.Keys && |after| <= MAX_ELF_FILES
    ensures StackFrame(isKernel, kernel, image, maps, after, addr, frame)
  {
    if LeftOut(maps, before, addr) {
      StillLeftOut(maps, before, after, addr);
    }
  }

  lemma StackFramesGrow(isKernel: bool, kernel: seq<KernelSymbol>, image: string -> ElfImage, maps: seq<MemoryMapping>,
                        before: map<string, ElfInfo>, after: map<string, ElfInfo>, addrs: seq<u64>, frames: seq<Frame>, f: Frame)
    requires StackFrames(isKernel, kernel, image, maps, before, addrs, frames, |frames|) && |frames| < |addrs|
    requires before.Keys <= after.Keys && |after| <= MAX_ELF_FILES
    requires StackFrame(isKernel, kernel, image, maps, after, addrs[|frames|], f)
    ensures StackFrames(isKernel, kernel, image, maps, after, addrs, frames + [f], |frames| + 1)
  {
    forall i | 0 <= i < |frames|
      ensures StackFrame(isKernel, kernel, image, maps, after, addrs[i], frames[i])
    {
      StackFrameKept(isKernel, kernel, image, maps, before, after, addrs[i], frames[i]);
    }
  }

  // ---------------------------------------------------------------- what a user frame says

  /** `name` is the part of `path` after its last slash. */
  predicate IsFileName(path: string, name: string) {
    && '/' !in name && |name| <= |path| && path[|path| - |name|..] == name
    && (|name| < |path| ==> path[|path| - |name| - 1] == '/')
  }

  lemma {:induction false} BaseNameMeaning(path: string, name: string)
    requires name == BaseName(path)
    ensures IsFileName(path, name)
    decreases |path|
  {
    if path == [] || path[|path| - 1] == '/' {
      assert name == [] && path[|path|..] == [];
    } else {
      var before, c := path[..|path| - 1], path[|path| - 1];
      BaseNameMeaning(before, BaseName(before));
      LongerName(before, BaseName(before), c);
      assert path == before + [c];
    }
  }

  lemma LongerName(path: string, name: string, c: char)
    requires IsFileName(path, name) && c != '/'
    ensures IsFileName(path + [c], name + [c])
  {
    var k := |path| - |name|;
    assert path == path[..k] + name;
    assert path + [c] == path[..k] + (name + [c]);
    assert (path[..k] + (name + [c]))[k..] == name + [c];
  }

  /** `v` is the address inside the file: start + v = address + file offset + load base, modulo 2^64. */
  ghost predicate InFile(m: MemoryMapping, addr: u64, loadBase: u64, v: u64) {
    Wrap(m.start + v, W64) == Wrap(addr + m.offset + loadBase, W64)
  }

  lemma Add64IsWrap(a: u64, b: u64)
    ensures Add64(a, b) == Wrap(a + b, W64)
  {
    WrapOnce(a + b, W64);
  }

  lemma ElfAddressMeaning(m: MemoryMapping, addr: u64, loadBase: u64)
    ensures InFile(m, addr, loadBase, ElfAddress(m, addr, loadBase))
    ensures m.start <= addr && addr - m.start + m.offset + loadBase < W64 ==>
              ElfAddress(m, addr, loadBase) == addr - m.start + m.offset + loadBase
  {
    var d := Sub64(addr, m.start);
    Sub64Undoes(addr, m.start);
    Add64IsWrap(d, m.start);
    Add64IsWrap(d, m.offset);
    Add64IsWrap(Add64(d, m.offset), loadBase);
    WrapAdd(d + m.offset, loadBase, W64);
    WrapAdd(d + m.offset + loadBase, m.start, W64);
    WrapAdd(d + m.start, m.offset + loadBase, W64);
  }

  /** The frame of an address that is `v` inside a file with these symbols. */
  ghost predicate FrameInFile(symbols: seq<ElfSymbol>, v: u64, f: Frame) {
    if f.resolved then
      exists s ::
        && NearestSymbol(symbols, v, s) && InReach(s, v)
        && f.symbol == Named(s.name) && s.addr + f.offset == v
    else
      && f.symbol == Hex(v) && f.offset == v
      && ((forall s :: s in symbols ==> v < s.addr) || exists s :: NearestSymbol(symbols, v, s) && !InReach(s, v))
  }

  ghost predicate NearestSymbol(symbols: seq<ElfSymbol>, v: u64, s: ElfSymbol) {
    s in symbols && s.addr <= v && forall t :: t in symbols && t.addr <= v ==> t.addr <= s.addr
  }

  ghost predicate InReach(s: ElfSymbol, v: u64) {
    (s.addr + s.size < 0x1_0000_0000_0000_0000 && v < s.addr + s.size) || v < s.addr + 65536
  }

  lemma LoadedFrameMeaning(image: ElfImage, m: MemoryMapping, addr: u64, v: u64)
    requires v == ElfAddress(m, addr, image.loadBase)
    ensures FrameInFile(Collected(image.raw), v, LoadedFrame(ParseElf(image), m, addr))
  {
    var raw, table := Collected(image.raw), ParseElf(image).symbols;
    ParsedTable(image);
    AnswerMeaning(raw, table, v);
    forall s | s in raw
      ensures NearestSymbol(raw, v, s) <==> Nearest(raw, AddrOf, v, s)
      ensures s.addr <= v ==> (Accepts(s, v) <==> InReach(s, v))
    {
      AcceptsMeaning(s, v);
    }
  }

  /**
   Every user frame when the files can be loaded: address zero and addresses in no mapping, and
   otherwise the first mapping's file, the address inside it, and a nearest symbol in reach or
   the bare address.
   */
  lemma UserFrameMeaning(image: string -> ElfImage, maps: seq<MemoryMapping>, addr: u64, f: Frame)
    requires f == UserFrame(image, maps, addr)
    ensures f.addr == addr
    ensures addr == 0 ==> f == Frame(0, Unknown, "", 0, false)
    ensures addr != 0 && FindMapping(maps, addr).None? ==> f == Frame(addr, Hex(addr), "", 0, false)
    ensures addr != 0 && FindMapping(maps, addr).Some? ==>
              FrameOfMapping(image(FindMapping(maps, addr).value.pathname), FindMapping(maps, addr).value, addr, f)
  {
    var m := FindMapping(maps, addr);
    if addr != 0 && m.Some? {
      MappedFrameMeaning(image(m.value.pathname), m.value, addr, f);
    }
  }

  /** The frame of an address in mapping `m` of a file that holds `image`. */
  ghost predicate FrameOfMapping(image: ElfImage, m: MemoryMapping, addr: u64, f: Frame) {
    && f.addr == addr && IsFileName(m.pathname, f.binary)
    && exists v: u64 :: InFile(m, addr, image.loadBase, v) && FrameInFile(Collected(image.raw), v, f)
  }

  lemma MappedFrameMeaning(image: ElfImage, m: MemoryMapping, addr: u64, f: Frame)
    requires f == LoadedFrame(ParseElf(image), m, addr)
    ensures FrameOfMapping(image, m, addr, f)
  {
    var v := ElfAddress(m, addr, image.loadBase);
    LoadedFrameLabels(image, m, addr, f);
    ElfAddressMeaning(m, addr, image.loadBase);
    LoadedFrameMeaning(image, m, addr, v);
    FrameAt(image, m, addr, v, f);
  }

  lemma LoadedFrameLabels(image: ElfImage, m: MemoryMapping, addr: u64, f: Frame)
    requires f == LoadedFrame(ParseElf(image), m, addr)
    ensures f.addr == addr && IsFileName(m.pathname, f.binary)
  {
    BaseNameMeaning(m.pathname, f.binary);
  }

  lemma FrameAt(image: ElfImage, m: MemoryMapping, addr: u64, v: u64, f: Frame)
    requires f.addr == addr && IsFileName(m.pathname, f.binary)
    requires InFile(m, addr, image.loadBase, v) && FrameInFile(Collected(image.raw), v, f)
    ensures FrameOfMapping(image, m, addr, f)
  {
  }

  /** The frame of an address whose file is left out: the bare address, with load base zero. */
  lemma UnloadedFrameMeaning(m: MemoryMapping, addr: u64, f: Frame)
    requires f == UnloadedFrame(m, addr)
    ensures f.addr == addr && !f.resolved && IsFileName(m.pathname, f.binary)
    ensures f.symbol == Hex(f.offset) && InFile(m, addr, 0, f.offset)
  {
    BaseNameMeaning(m.pathname, f.binary);
    ElfAddressMeaning(m, addr, 0);
  }

  /**
   A resolved user frame names a symbol of the mapped file. Its address plus the offset is the
   address inside the file: the distance from the mapping's start plus the mapping's file
   offset plus the load base, when that does not wrap.
   */
  lemma ResolvedFrameIsSymbol(image: string -> ElfImage, maps: seq<MemoryMapping>, addr: u64, m: MemoryMapping)
    requires UserFrame(image, maps, addr).resolved && FindMapping(maps, addr) == Some(m)
    ensures exists s ::
              var f, loadBase := UserFrame(image, maps, addr), image(m.pathname).loadBase;
              && s in Collected(image(m.pathname).raw) && f.symbol == Named(s.name)
              && Wrap(s.addr + f.offset + m.start, W64) == Wrap(addr + m.offset + loadBase, W64)
              && (addr - m.start + m.offset + loadBase < W64 ==> s.addr + f.offset == addr - m.start + m.offset + loadBase)
  {
    var s := LoadedSymbol(image(m.pathname), m, addr, UserFrame(image, maps, addr));
  }

  lemma LoadedSymbol(image: ElfImage, m: MemoryMapping, addr: u64, f: Frame) returns (s: ElfSymbol)
    requires f == LoadedFrame(ParseElf(image), m, addr) && f.resolved && m.start <= addr
    ensures s in Collected(image.raw) && f.symbol == Named(s.name)
    ensures Wrap(s.addr + f.offset + m.start, W64) == Wrap(addr + m.offset + image.loadBase, W64)
    ensures addr - m.start + m.offset + image.loadBase < W64 ==>
              s.addr + f.offset == addr - m.start + m.offset + image.loadBase
  {
    var v := ElfAddress(m, addr, image.loadBase);
    ElfAddressMeaning(m, addr, image.loadBase);
    LoadedFrameMeaning(image, m, addr, v);
    s :| NearestSymbol(Collected(image.raw), v, s) && f.symbol == Named(s.name) && s.addr + f.offset == v;
    assert s.addr + f.offset + m.start == m.start + v;
  }

  /** The frame of a mapped address, as the lookup in its file leaves it. */
  lemma MappedFrame(image: string -> ElfImage, maps: seq<MemoryMapping>, cache: map<string, ElfInfo>, addr: u64,
                    m: MemoryMapping, f: Frame)
    requires addr != 0 && FindMapping(maps, addr) == Some(m)
    requires if m.pathname in cache then f == LoadedFrame(ParseElf(image(m.pathname)), m, addr)
             else |cache| == MAX_ELF_FILES && f == UnloadedFrame(m, addr)
    ensures FrameFor(image, maps, cache, addr, f)
  {
  }

  /** What an information request tells of the cache afterwards. */
  lemma InfoReply(max: nat, image: string -> ElfImage, before: map<string, ElfInfo>, after: map<string, ElfInfo>,
                  path: string, info: Option<ElfInfo>)
    requires Faithful(max, image, before) && after == NextCache(max, image, before, GetInfo(path))
    requires Info(info) == ReplyOf(max, image, before, GetInfo(path))
    ensures before.Keys <= after.Keys
    ensures info == if path in after then Some(ParseElf(image(path))) else None
    ensures path in after || |after| == max
  {
  }

  /** What a lookup that follows it tells. */
  lemma SymbolReply(max: nat, image: string -> ElfImage, before: map<string, ElfInfo>, after: map<string, ElfInfo>,
                    path: string, q: u64, symbol: Option<ElfSymbol>)
    requires Faithful(max, image, before) && after == NextCache(max, image, before, Resolve(path, q))
    requires Symbol(symbol) == ReplyOf(max, image, before, Resolve(path, q))
    requires path in before || |before| == max
    ensures after == before
    ensures symbol == if path in before then Answer(ParseElf(image(path)).symbols, q) else None
  {
  }

  // ---------------------------------------------------------------- kernel symbols

  function KernelAddr(s: KernelSymbol): u64 {
    s.addr
  }

  /** Kernel symbols have no size: the nearest one at or below always answers. */
  function KernelFrame(t: seq<KernelSymbol>, addr: u64): Frame {
    var s := LastNotAbove(t, KernelAddr, addr);
    if addr == 0 then Frame(0, Unknown, "[kernel]", 0, false)
    else if s.Some? then Frame(addr, Named(s.value.name), "[kernel]", Sub64(addr, s.value.addr), true)
    else Frame(addr, Hex(addr), "[kernel]", 0, false)
  }

  /** Binary search in a sorted kernel table gives the frame of the linear scan. */
  method FindKernelFrame(t: seq<KernelSymbol>, addr: u64) returns (f: Frame)
    requires SortedBy(t, KernelAddr)
    ensures f == KernelFrame(t, addr)
  {
    if addr == 0 {
      return Frame(0, Unknown, "[kernel]", 0, false);
    }
    if t == [] {
      return Frame(addr, Hex(addr), "[kernel]", 0, false);
    }
    var i := UpperBound(t, KernelAddr, addr);
    if i != 0 {
      return Frame(addr, Named(t[i - 1].name), "[kernel]", Sub64(addr, t[i - 1].addr), true);
    }
    return Frame(addr, Hex(addr), "[kernel]", 0, false);
  }

  /**
   For any order of the kernel table by address, a frame is resolved exactly when some symbol
   starts at or below the address, and then it has the name of a nearest symbol and the
   distance to it.
   */
  lemma KernelFrameIsNearest(raw: seq<KernelSymbol>, t: seq<KernelSymbol>, addr: u64)
    requires TableOf(t, raw, KernelAddr)
    ensures KernelFrame(t, addr).addr == addr && KernelFrame(t, addr).binary == "[kernel]"
    ensures addr == 0 ==> KernelFrame(t, addr) == Frame(0, Unknown, "[kernel]", 0, false)
    ensures KernelFrame(t, addr).resolved <==> addr != 0 && exists s :: s in raw && s.addr <= addr
    ensures addr != 0 && !KernelFrame(t, addr).resolved ==> KernelFrame(t, addr) == Frame(addr, Hex(addr), "[kernel]", 0, false)
    ensures KernelFrame(t, addr).resolved ==>
              exists s :: && s in raw && s.addr <= addr && (forall c :: c in raw && c.addr <= addr ==> c.addr <= s.addr)
                          && KernelFrame(t, addr).symbol == Named(s.name) && KernelFrame(t, addr).offset == addr - s.addr
  {
    TableFindsNearest(raw, t, KernelAddr, addr);
    var s := LastNotAbove(t, KernelAddr, addr);
    if s.Some? {
      assert s.value in raw;
    }
  }

  /** So two orders of one table can differ in the name only, and only between symbols at one address. */
  lemma KernelOffsetIgnoresOrder(raw: seq<KernelSymbol>, t: seq<KernelSymbol>, t': seq<KernelSymbol>, addr: u64)
    requires TableOf(t, raw, KernelAddr) && TableOf(t', raw, KernelAddr)
    ensures var f, f' := KernelFrame(t, addr), KernelFrame(t', addr);
            && f.offset == f'.offset && f.resolved == f'.resolved
            && (f != f' ==> exists s, s' :: s in raw && s' in raw && s.addr == s'.addr
                                          && f.symbol == Named(s.name) && f'.symbol == Named(s'.name))
  {
    TableFindsNearest(raw, t, KernelAddr, addr);
    TableFindsNearest(raw, t', KernelAddr, addr);
  }

  // ---------------------------------------------------------------- the resolver

  class Resolver {
    const elf: Cache
    const mapsOf: u32 -> seq<MemoryMapping>
    const kernelTable: seq<KernelSymbol>  // the kernel symbol file as loading it sorts it
    var procCache: map<u32, seq<MemoryMapping>>
    var kallsyms: seq<KernelSymbol>
    var kallsymsLoaded: bool

    ghost predicate Valid()
      reads this, elf
    {
      && elf.Valid() && elf.maxEntries == 10000
      && (forall p :: p in procCache ==> procCache[p] == mapsOf(p))
      && SortedBy(kernelTable, KernelAddr) && kallsyms == (if kallsymsLoaded then kernelTable else [])
    }

    constructor (image: string -> ElfImage, mapsOf: u32 -> seq<MemoryMapping>, kallsymsFile: seq<KernelSymbol>)
      ensures Valid() && fresh(elf) && elf.image == image && elf.cache == map[]
      ensures this.mapsOf == mapsOf && TableOf(kernelTable, kallsymsFile, KernelAddr)
    {
      elf := new Cache(MAX_ELF_FILES, image);
      this.mapsOf, kernelTable := mapsOf, SortBy(kallsymsFile, KernelAddr);
      procCache, kallsyms, kallsymsLoaded := map[], [], false;
    }

    method ResolveUser(pid: u32, addr: u64) returns (f: Frame)
      requires Valid()
      modifies this`procCache, elf`cache
      ensures Valid() && old(elf.cache.Keys) <= elf.cache.Keys
      ensures FrameFor(elf.image, mapsOf(pid), elf.cache, addr, f)
    {
      if addr == 0 {
        return Frame(0, Unknown, "", 0, false);
      }
      var maps := ProcMaps(pid);
      var mapping := FindMapping(maps, addr);
      if mapping.None? {
        return Frame(addr, Hex(addr), "", 0, false);
      }
      f := ResolveMapped(mapping.value, addr);
      MappedFrame(elf.image, mapsOf(pid), elf.cache, addr, mapping.value, f);
    }

    method ProcMaps(pid: u32) returns (maps: seq<MemoryMapping>)
      requires Valid()
      modifies this`procCache
      ensures Valid() && maps == mapsOf(pid)
    {
      if pid !in procCache {
        procCache := procCache[pid := mapsOf(pid)];
      }
      maps := procCache[pid];
    }

    /** The lookup in the mapped file: its load base first, then its symbol table. */
    method ResolveMapped(m: MemoryMapping, addr: u64) returns (f: Frame)
      requires elf.Valid() && elf.maxEntries == MAX_ELF_FILES
      modifies elf`cache
      ensures elf.Valid() && old(elf.cache.Keys) <= elf.cache.Keys
      ensures if m.pathname in elf.cache then f == LoadedFrame(ParseElf(elf.image(m.pathname)), m, addr)
              else |elf.cache| == MAX_ELF_FILES && f == UnloadedFrame(m, addr)
    {
      ghost var before := elf.cache;
      var info := elf.GetElfInfo(m.pathname);
      InfoReply(elf.maxEntries, elf.image, before, elf.cache, m.pathname, info);
      var vaddr: u64;
      if info.Some? {
        vaddr := ElfAddress(m, addr, info.value.loadBase);
      } else {
        vaddr := ElfAddress(m, addr, 0);
      }
      ghost var loaded := elf.cache;
      var sym := elf.ResolveAddress(m.pathname, vaddr);
      SymbolReply(elf.maxEntries, elf.image, loaded, elf.cache, m.pathname, vaddr, sym);
      f := SymbolFrame(addr, m.pathname, vaddr, sym);
    }

    method ResolveKernel(addr: u64) returns (f: Frame)
      requires Valid()
      modifies this`kallsyms, this`kallsymsLoaded
      ensures Valid() && f == KernelFrame(kernelTable, addr)
    {
      if addr == 0 {
        return Frame(0, Unknown, "[kernel]", 0, false);
      }
      LoadKallsyms();
      f := FindKernelFrame(kallsyms, addr);
    }

    method LoadKallsyms()
      requires Valid()
      modifies this`kallsyms, this`kallsymsLoaded
      ensures Valid() && kallsymsLoaded && kallsyms == kernelTable
    {
      if kallsymsLoaded {
        return;
      }
      kallsymsLoaded := true;
      kallsyms := kernelTable;
    }

    /** One frame per address, in order, each as if resolved on its own. */
    method ResolveStack(pid: u32, addrs: seq<u64>, isKernel: bool) returns (frames: seq<Frame>)
      requires Valid()
      modifies this, elf`cache
      ensures Valid()
      ensures StackFrames(isKernel, kernelTable, elf.image, mapsOf(pid), elf.cache, addrs, frames, |addrs|)
    {
      frames := [];
      for i := 0 to |addrs|
        invariant Valid()
        invariant StackFrames(isKernel, kernelTable, elf.image, mapsOf(pid), elf.cache, addrs, frames, i)
      {
        ghost var before := elf.cache;
        var f := ResolveFrame(pid, addrs[i], isKernel);
        StackFramesGrow(isKernel, kernelTable, elf.image, mapsOf(pid), before, elf.cache, addrs, frames, f);
        frames := frames + [f];
      }
    }

    method ResolveFrame(pid: u32, addr: u64, isKernel: bool) returns (f: Frame)
      requires Valid()
      modifies this, elf`cache
      ensures Valid() && old(elf.cache.Keys) <= elf.cache.Keys && |elf.cache| <= MAX_ELF_FILES
      ensures StackFrame(isKernel, kernelTable, elf.image, mapsOf(pid), elf.cache, addr, f)
    {
      if isKernel {
        f := ResolveKernel(addr);
      } else {
        f := ResolveUser(pid, addr);
      }
    }

    method ClearCache()
      requires Valid()
      modifies this`procCache, this`kallsyms, this`kallsymsLoaded, elf`cache
      ensures Valid() && elf.cache == map[] && procCache == map[] && kallsyms == [] && !kallsymsLoaded
    {
      elf.ClearAll();
      procCache, kallsyms, kallsymsLoaded := map[], [], false;
    }
  }
}
