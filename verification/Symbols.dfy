/**
 What the lazy linker has to find out about a call (src/dyld.rs), said without the searches: which symbol
 belongs to a stub, and what a symbol means.
 */
module Symbols {
  import opened Common
  import opened GuestMemory
  import opened LinkerModel

  // ----- which symbol belongs to a stub

  /** The stub section of the binary covers the address. */
  predicate Covers(bin: Binary, pc: nat) {
    bin.stubs.Some? && bin.stubs.value.addr <= pc && pc - bin.stubs.value.addr < bin.stubs.value.size
  }

  /** Of all stub sections that cover the address, that of binary `b` comes first. */
  predicate FirstCovering(bins: seq<Binary>, b: nat, pc: nat) {
    b < |bins| && Covers(bins[b], pc) && forall a :: 0 <= a < b ==> !Covers(bins[a], pc)
  }

  /** The address is that of entry `k` of the binary's stub section, which has entries of `size` bytes. */
  predicate IsEntry(bin: Binary, pc: nat, k: nat, size: nat) {
    && bin.stubs.Some? && bin.stubs.value.info.Some? && bin.stubs.value.info.value.entrySize == size > 0
    && pc == bin.stubs.value.addr + k * size
  }

  /** How far the lazy pointers are behind the stubs, if there are any. */
  predicate IsPicOffset(bin: Binary, offset: Word)
    requires bin.stubs.Some?
  {
    match bin.lazyPointers
    case None => offset == 0
    case Some(lazy) => (bin.stubs.value.addr + offset) % ADDRESS_SPACE == lazy
  }

  /** The stub at `pc` is entry `k` of binary `b`, whose symbols name `symbol` as entry `k`. */
  predicate NamedBy(p: Program, b: nat, k: nat, pc: nat, size: nat, symbol: string) {
    && FirstCovering(p.bins, b, pc) && IsEntry(p.bins[b], pc, k, size)
    && k < |p.bins[b].stubs.value.info.value.symbols|
    && p.bins[b].stubs.value.info.value.symbols[k] == Some(symbol)
  }

  /** `size` and `symbol` are those of the stub at `pc`. */
  ghost predicate StubNamed(p: Program, pc: nat, size: nat, symbol: string) {
    exists b: nat, k: nat :: NamedBy(p, b, k, pc, size, symbol)
  }

  lemma {:induction false} FirstFound(bins: seq<Binary>, b: nat, pc: nat)
    requires FirstCovering(bins, b, pc)
    ensures InSection(bins[b], pc) && FindStub(bins, pc) == DescribeStub(bins[b], pc)
    decreases b
  {
    if b > 0 {
      assert !Covers(bins[0], pc);
      forall a | 0 <= a < b - 1
        ensures !Covers(bins[1..][a], pc)
      {
        assert !Covers(bins[a + 1], pc);
      }
      FirstFound(bins[1..], b - 1, pc);
    }
  }

  lemma {:induction false} SomeFirst(bins: seq<Binary>, pc: nat) returns (b: nat)
    requires FindStub(bins, pc).Some?
    ensures FirstCovering(bins, b, pc)
    decreases bins
  {
    if InSection(bins[0], pc) {
      b := 0;
    } else {
      var a := SomeFirst(bins[1..], pc);
      b := a + 1;
      forall i | 0 <= i < b
        ensures !Covers(bins[i], pc)
      {
        assert i > 0 ==> !Covers(bins[1..][i - 1], pc);
      }
    }
  }

  lemma {:induction false} EntryNumber(offset: nat, size: nat, k: nat)
    requires size > 0
    ensures offset % size == 0 && offset / size == k <==> offset == k * size
  {
    var q, r := offset / size, offset % size;
    assert offset == q * size + r;
    if offset == k * size {
      assert (k - q) * size == r;
      SmallMultiple(k - q, size);
    }
  }

  lemma {:induction false} SmallMultiple(d: int, size: nat)
    requires 0 <= d * size < size
    ensures d == 0
  {
    if d > 0 {
      Grows(d, size);
    }
  }

  lemma {:induction false} Grows(d: nat, size: nat)
    requires d > 0
    ensures d * size >= size
  {
    assert d * size == (d - 1) * size + size;
  }

  lemma {:induction false} PicOffsetIs(bin: Binary)
    requires bin.stubs.Some?
    ensures forall offset: Word :: IsPicOffset(bin, offset) <==> offset == PicOffset(bin, bin.stubs.value)
  {
  }

  /**
   The linker finds a stub with a symbol at an address exactly if that is an entry of the first section that covers
   it, and the symbol is the entry's own.
   */
  lemma {:induction false} StubFound(p: Program, pc: nat, size: nat, symbol: string, offset: Word)
    ensures FindStub(p.bins, pc) == Some(Found(size, Some(symbol), offset)) <==>
      StubNamed(p, pc, size, symbol) && exists b: nat :: FirstCovering(p.bins, b, pc) && IsPicOffset(p.bins[b], offset)
  {
    if StubNamed(p, pc, size, symbol) {
      var b: nat, k: nat :| NamedBy(p, b, k, pc, size, symbol);
      FirstFound(p.bins, b, pc);
      EntryNumber(pc - p.bins[b].stubs.value.addr, size, k);
      PicOffsetIs(p.bins[b]);
      forall a: nat | FirstCovering(p.bins, a, pc)
        ensures a == b
      {
      }
    } else if FindStub(p.bins, pc).Some? {
      var b := SomeFirst(p.bins, pc);
      FirstFound(p.bins, b, pc);
      var info := p.bins[b].stubs.value.info.value;
      var offset := pc - p.bins[b].stubs.value.addr;
      EntryNumber(offset, info.entrySize, offset / info.entrySize);
      assert !NamedBy(p, b, offset / info.entrySize, pc, size, symbol);
    }
  }

  // ----- what a symbol means

  /** Binary `b` is the first that exports the symbol. */
  predicate FirstExporting(bins: seq<Binary>, b: nat, symbol: string) {
    b < |bins| && symbol in bins[b].exports && forall a :: 0 <= a < b ==> symbol !in bins[a].exports
  }

  /** Pair `h` is the first with that name. */
  predicate FirstNamed(exports: seq<(string, HostFunction)>, h: nat, symbol: string) {
    h < |exports| && exports[h].0 == symbol && forall a :: 0 <= a < h ==> exports[a].0 != symbol
  }

  /** The host's own function for a symbol is the first of that name, and without one the return-0 fallback. */
  ghost predicate HostMeaning(p: Program, symbol: string, f: HostFunction) {
    if exists h: nat :: FirstNamed(p.hostExports, h, symbol)
    then exists h: nat :: FirstNamed(p.hostExports, h, symbol) && p.hostExports[h].1 == f
    else f == Unimplemented
  }

  /** A trampoline that has been made for the symbol; else what the first binary exports; else the host's function. */
  ghost predicate Means(p: Program, w: World, symbol: string, target: Target) {
    if symbol in w.nonLazy then target == Guest(w.nonLazy[symbol])
    else if exists b :: 0 <= b < |p.bins| && symbol in p.bins[b].exports then
      exists b: nat :: FirstExporting(p.bins, b, symbol) && target == Guest(p.bins[b].exports[symbol])
    else target.Host? && HostMeaning(p, symbol, target.f)
  }

  lemma {:induction false} ExportFound(bins: seq<Binary>, symbol: string)
    ensures match FindExport(bins, symbol)
      case None => forall b :: 0 <= b < |bins| ==> symbol !in bins[b].exports
      case Some(addr) => exists b: nat :: FirstExporting(bins, b, symbol) && addr == bins[b].exports[symbol]
    decreases |bins|
  {
    if bins != [] {
      if symbol in bins[0].exports {
        assert FirstExporting(bins, 0, symbol);
      } else {
        ExportFound(bins[1..], symbol);
        if FindExport(bins, symbol).Some? {
          var b: nat :| FirstExporting(bins[1..], b, symbol)
            && FindExport(bins, symbol).value == bins[1..][b].exports[symbol];
          forall a | 0 <= a < b + 1
            ensures symbol !in bins[a].exports
          {
            assert a > 0 ==> bins[a] == bins[1..][a - 1];
          }
          assert FirstExporting(bins, b + 1, symbol);
        } else {
          assert forall b :: 1 <= b < |bins| ==> bins[b] == bins[1..][b - 1];
        }
      }
    }
  }

  lemma {:induction false} OneFirstExporting(bins: seq<Binary>, a: nat, b: nat, symbol: string)
    requires FirstExporting(bins, a, symbol) && FirstExporting(bins, b, symbol)
    ensures a == b
  {
  }

  lemma {:induction false} HostFound(exports: seq<(string, HostFunction)>, symbol: string)
    ensures match FindHost(exports, symbol)
      case None => forall h :: 0 <= h < |exports| ==> exports[h].0 != symbol
      case Some(f) => exists h: nat :: FirstNamed(exports, h, symbol) && exports[h].1 == f
    decreases |exports|
  {
    if exports != [] {
      if exports[0].0 == symbol {
        assert FirstNamed(exports, 0, symbol);
      } else {
        HostFound(exports[1..], symbol);
        if FindHost(exports, symbol).Some? {
          var h: nat :| FirstNamed(exports[1..], h, symbol) && exports[1..][h].1 == FindHost(exports, symbol).value;
          forall a | 0 <= a < h + 1
            ensures exports[a].0 != symbol
          {
            assert a > 0 ==> exports[a] == exports[1..][a - 1];
          }
          assert FirstNamed(exports, h + 1, symbol);
        } else {
          assert forall h :: 1 <= h < |exports| ==> exports[h] == exports[1..][h - 1];
        }
      }
    }
  }

  lemma {:induction false} HostForMeans(p: Program, symbol: string, f: HostFunction)
    ensures HostMeaning(p, symbol, f) <==> f == HostFor(p, symbol)
  {
    HostFound(p.hostExports, symbol);
  }

  /** The linker resolves a symbol to what it means, and a symbol means one thing only. */
  lemma {:induction false} ResolvesToMeaning(p: Program, w: World, symbol: string, target: Target)
    ensures Means(p, w, symbol, target) <==> target == Resolve(p, w, symbol)
  {
    ExportFound(p.bins, symbol);
    if target.Host? {
      HostForMeans(p, symbol, target.f);
    }
    HostForMeans(p, symbol, HostFor(p, symbol));
    hide HostFor, FindHost, FindExport, HostMeaning;
  }

  // ----- linking one stub

  /**
   Linking the stub that is entry `k` of binary `b`: it is restored as a jump to guest code, or made to call a host
   function, as the symbol that the binary names as entry `k` means one or the other.
   */
  lemma {:induction false} LinksOwnSymbol(p: Program, w: World, b: nat, k: nat, pc: nat, size: nat, symbol: string,
      offset: Word, target: Target)
    requires NamedBy(p, b, k, pc, size, symbol) && IsPicOffset(p.bins[b], offset) && Means(p, w, symbol, target)
    requires size in {4, 12, 16} && pc + size <= ADDRESS_SPACE
    ensures LazyLink(p, w, pc) == match target
      case Guest(addr) => RestoreStub(w, pc, size, offset, addr)
      case Host(f) => LinkToHost(w, pc, size, symbol, f)
  {
    assert StubNamed(p, pc, size, symbol);
    StubFound(p, pc, size, symbol, offset);
    ResolvesToMeaning(p, w, symbol, target);
    hide FindStub, Resolve, RestoreStub, LinkToHost, Means, NamedBy;
  }

  /** Anywhere else the linker panics: off every section, between entries, at an entry without a symbol. */
  lemma {:induction false} LinksNothingElse(p: Program, w: World, pc: nat)
    requires !exists size: nat, symbol: string :: StubNamed(p, pc, size, symbol)
    ensures LazyLink(p, w, pc).Panic?
  {
    var found := FindStub(p.bins, pc);
    if found.Some? && found.value.symbol.Some? {
      StubFound(p, pc, found.value.size, found.value.symbol.value, found.value.picOffset);
    }
    hide Resolve, RestoreStub, LinkToHost, FindStub;
  }

  /**
   Linking to the host fails exactly if the numbers run out, half as soon for 4-byte stubs, or if the other stubs do
   not return behind their SVC.
   */
  lemma {:induction false} HostLinkFails(w: World, pc: nat, size: nat, symbol: string, f: HostFunction)
    requires pc + size <= ADDRESS_SPACE && size in {4, 12, 16}
    ensures LinkToHost(w, pc, size, symbol, f).Panic? <==>
      if size == 4 then |w.linked| + 3 >= 0x80_0000
      else |w.linked| + 3 >= 0x100_0000 || ReadWord(w.mem, pc + 4) != 0xE12F_FF1E
  {
    hide WriteWord, ReadWord, Invalidate;
  }

  // ----- trampolines

  /** The function that a trampoline made for a symbol calls: the built-in binder, or the host's first of that name. */
  ghost predicate ProcMeaning(p: Program, symbol: string, key: string, f: HostFunction) {
    if symbol == "dyld_stub_binder" || symbol == "_dyld_stub_binder" then key == "dyld_stub_binder" && f == StubBinder
    else key == symbol && exists h: nat :: FirstNamed(p.hostExports, h, symbol) && p.hostExports[h].1 == f
  }

  lemma {:induction false} ProcForMeans(p: Program, symbol: string, key: string, f: HostFunction)
    ensures ProcMeaning(p, symbol, key, f) <==> ProcFor(p, symbol) == Some((key, f))
  {
    HostFound(p.hostExports, symbol);
    hide FindHost;
  }

  lemma {:induction false} ProcForMeansAll(p: Program, symbol: string)
    ensures forall key, f {:trigger ProcMeaning(p, symbol, key, f)} ::
      ProcMeaning(p, symbol, key, f) <==> ProcFor(p, symbol) == Some((key, f))
  {
    hide ProcMeaning, ProcFor;
    forall key, f
      ensures ProcMeaning(p, symbol, key, f) <==> ProcFor(p, symbol) == Some((key, f))
    {
      ProcForMeans(p, symbol, key, f);
    }
  }

  // ----- what the JIT forgets and runs

  /** Of the translated instructions just those are left that do not overlap the range. */
  ghost predicate Forgets(cache: map<nat, Word>, cache2: map<nat, Word>, start: nat, size: nat) {
    forall a: nat :: (a in cache2 <==> a in cache && (a + 4 <= start || start + size <= a))
      && (a in cache2 ==> cache2[a] == cache[a])
  }

  lemma {:induction false} InvalidateForgets(cache: map<nat, Word>, start: nat, size: nat)
    requires size > 0
    ensures Forgets(cache, Invalidate(cache, start, size), start, size)
  {
  }

  /** Restoring forgets the stub's instructions, calling the host its first word, a trampoline its two words. */
  lemma {:induction false} LinkingForgets(p: Program, w: World, pc: nat, size: nat, offset: Word, target: Word,
      symbol: string, f: HostFunction)
    requires size in {4, 12, 16} && pc + size <= ADDRESS_SPACE
    ensures var o := RestoreStub(w, pc, size, offset, target);
      o.Ok? ==> Forgets(w.cache, o.world.cache, pc, if size == 4 then 4 else if size == 12 then 8 else 12)
    ensures var o := LinkToHost(w, pc, size, symbol, f); o.Ok? ==> Forgets(w.cache, o.world.cache, pc, 4)
  {
    InvalidateForgets(w.cache, pc, 4 * |RestoredInstructions(size, offset)|);
    InvalidateForgets(w.cache, pc, 4);
    hide Invalidate, Forgets, WriteWords, WriteWord, ReadWord, RestoredInstructions;
  }

  lemma {:induction false} TrampolineForgets(p: Program, w: World, symbol: string, block: nat)
    requires block + 8 <= ADDRESS_SPACE
    ensures match CreateProcAddress(p, w, symbol, block)
      case Known(w2, addr) =>
        CreateProcAddressNoInval(p, w, symbol, block).Known? && (addr % 2 == 0 ==>
          Forgets(CreateProcAddressNoInval(p, w, symbol, block).world.cache, w2.cache, addr, 8))
        && (addr % 2 == 1 ==>
          Forgets(CreateProcAddressNoInval(p, w, symbol, block).world.cache, w2.cache, addr - 1, 8))
      case _ => true
  {
    hide CreateProcAddressNoInval, Forgets, Invalidate;
    match CreateProcAddressNoInval(p, w, symbol, block)
    case Known(w2, addr) => InvalidateForgets(w2.cache, addr - addr % 2, 8);
    case _ =>
  }

  /** What has been translated is run, whatever memory holds by now; what has not is translated first. */
  lemma {:induction false} RunsTranslated(w: World, a: nat)
    requires a + 4 <= ADDRESS_SPACE
    ensures a in w.cache ==> Fetch(w, a) == w.cache[a]
    ensures a !in w.cache ==> Fetch(w, a) == ReadWord(w.mem, a)
  {
  }

  // ----- SVCs

  /**
   Where an SVC leads: numbers 1 and 2 leave the loop; 0 and the return flag alone link; others call the function with
   that number, counted from 3 and with or without the return flag, and do nothing but start over if there is none.
   The return flag makes the host's return that of the guest; without it the guest goes on behind the SVC.
   */
  lemma {:induction false} SvcLeads(p: Program, w: World, cpu: Cpu, svc: nat, i: nat)
    requires svc < 0x100_0000
    ensures svc == 1 || svc == 2 ==> HandleSvc(p, w, cpu, svc).Elsewhere?
    ensures (svc == i + 3 < 0x80_0000 || svc == i + 3 + 0x80_0000) && i < |w.linked| ==>
      HandleSvc(p, w, cpu, svc) == AtHost(w, cpu, w.linked[i].1, svc >= 0x80_0000)
    ensures (svc == i + 3 < 0x80_0000 || svc == i + 3 + 0x80_0000) && i >= |w.linked| ==>
      HandleSvc(p, w, cpu, svc) == Running(w, Cpu(cpu.regs[PC := Plus(cpu.regs[PC], -4)], cpu.thumb))
    ensures svc == 0 || svc == 0x80_0000 ==>
      GetSvcHandler(p, w, Plus(cpu.regs[PC], -4), svc) == LazyLink(p, w, Plus(cpu.regs[PC], -4))
    ensures AfterHost(p, w, cpu, true) == Running(w, BranchTo(cpu, cpu.regs[LR]))
    ensures AfterHost(p, w, cpu, false) == Tick(p, w, cpu)
  {
    hide LazyLink, Tick;
  }
}
