/**
 The dynamic linker in place: the methods of `Dyld` in src/dyld.rs and the SVC branch of
 `handle_cpu_state` in src/environment.rs, each doing to the machine what `LinkerModel` says.
 */
module Dyld {
  import opened Common
  import opened GuestMemory
  import opened LinkerModel

  method SearchHostDylibs(exports: seq<(string, HostFunction)>, symbol: string) returns (r: Option<HostFunction>)
    ensures r == FindHost(exports, symbol)
  {
    for i := 0 to |exports|
      invariant FindHost(exports, symbol) == FindHost(exports[i..], symbol)
    {
      if exports[i].0 == symbol {
        return Some(exports[i].1);
      }
      assert exports[i..][1..] == exports[i + 1..];
    }
    r := None;
  }

  class Emulator {
    var mem: Ram
    var cache: map<nat, Word>
    var linked: seq<(string, HostFunction)>
    var nonLazy: map<string, Word>
    var cpu: Cpu

    function Snapshot(): World
      reads this
    {
      World(mem, cache, linked, nonLazy)
    }

    constructor (mem: Ram, cpu: Cpu)
      ensures Snapshot() == World(mem, map[], [], map[]) && this.cpu == cpu
    {
      this.mem, this.cpu := mem, cpu;
      cache, linked, nonLazy := map[], [], map[];
    }

    method InvalidateCacheRange(base: nat, size: nat)
      modifies `cache
      ensures cache == Invalidate(old(cache), base, size)
    {
      cache := map a | a in cache && !(a < base + size && base < a + 4) :: cache[a];
    }

    method WriteCode(a: nat, words: seq<Word>)
      requires a + 4 * |words| <= ADDRESS_SPACE
      modifies `mem
      ensures mem == WriteWords(old(mem), a, words)
    {
      hide WriteWord;
      for j := 0 to |words|
        invariant WriteWords(old(mem), a, words) == WriteWords(mem, a + 4 * j, words[j..])
      {
        assert words[j..][1..] == words[j + 1..] && words[j..][0] == words[j];
        mem := WriteWord(mem, a + 4 * j, words[j]);
      }
    }

    /** The words at `a` are the expected ones; reading stops at the first that is not. */
    method Matches(a: nat, expected: seq<Word>) returns (ok: bool)
      requires a + 4 * |expected| <= ADDRESS_SPACE
      ensures ok <==> WordsAt(mem, a, |expected|) == expected
    {
      hide ReadWord;
      for j := 0 to |expected|
        invariant WordsAt(mem, a, |expected|) == expected <==> WordsAt(mem, a + 4 * j, |expected| - j) == expected[j..]
      {
        var rest := WordsAt(mem, a + 4 * j + 4, |expected| - j - 1);
        assert expected[j..] == [expected[j]] + expected[j + 1..];
        assert WordsAt(mem, a + 4 * j, |expected| - j) == [ReadWord(mem, a + 4 * j)] + rest;
        if ReadWord(mem, a + 4 * j) != expected[j] {
          assert WordsAt(mem, a + 4 * j, |expected| - j)[0] != expected[j..][0];
          return false;
        }
        assert rest == WordsAt(mem, a + 4 * j, |expected| - j)[1..] && expected[j + 1..] == expected[j..][1..];
      }
      ok := true;
    }

    method SetupStub(a: nat, size: nat)
      requires size in {4, 12, 16} && a + size <= ADDRESS_SPACE
      modifies `mem
      ensures mem == SetupEntry(old(mem), a, size)
    {
      hide ReadWord, WriteWord;
      if size != 4 {
        var ok := Matches(a, OriginalInstructions(size));
        if !ok {
          return;
        }
      }
      WriteCode(a, LazyInstructions(size));
    }

    method SetupLazyLinking(bin: Binary)
      requires bin.stubs.Some? && bin.stubs.value.info.Some? && bin.stubs.value.info.value.entrySize in {4, 12, 16} ==>
        var section := bin.stubs.value;
        section.size % section.info.value.entrySize == 0 && section.addr + section.size <= ADDRESS_SPACE
      modifies `mem
      ensures mem ==
        if bin.stubs.None? || bin.stubs.value.info.None?
          || bin.stubs.value.info.value.entrySize !in {4, 12, 16} then old(mem)
        else
          var section := bin.stubs.value; var size := section.info.value.entrySize;
          SetupEntries(old(mem), section.addr, size, section.size / size)
    {
      hide SetupEntry;
      if bin.stubs.None? || bin.stubs.value.info.None? {
        return;
      }
      var section := bin.stubs.value;
      var size := section.info.value.entrySize;
      if size !in {4, 12, 16} {
        return;
      }
      var count := section.size / size;
      var a: nat := section.addr;
      assert size * count == section.size;
      for i := 0 to count
        invariant a == section.addr + i * size && a + size * (count - i) == section.addr + section.size
        invariant SetupEntries(old(mem), section.addr, size, count) == SetupEntries(mem, a, size, count - i)
      {
        SetupStub(a, size);
        a := a + size;
      }
    }

    method LinkByRestoringStub(target: Word, pc: nat, size: nat, picOffset: Word)
      requires pc + size <= ADDRESS_SPACE && size in {4, 12, 16}
        && RestoreStub(Snapshot(), pc, size, picOffset, target).Ok?
      modifies `mem, `cache
      ensures Snapshot() == RestoreStub(old(Snapshot()), pc, size, picOffset, target).world
    {
      hide ReadWord, WriteWord, WriteWords, OrWord;
      var original := OriginalInstructions(size);
      if size == 4 {
        WriteCode(pc, [OrWord(original[0], picOffset)]);
      } else {
        WriteCode(pc, original);
      }
      InvalidateCacheRange(pc, 4 * |original|);
      var slot;
      if size == 12 {
        slot := ReadWord(mem, pc + 8);
      } else if size == 4 {
        var offset := ReadWord(mem, pc) % 0x1000;
        slot := (pc + offset + 8) % ADDRESS_SPACE;
      } else {
        var offset := ReadWord(mem, pc + 12);
        slot := (pc + offset + 12) % ADDRESS_SPACE;
      }
      mem := WriteWord(mem, slot, target);
    }

    method FindSection(bins: seq<Binary>, pc: nat) returns (r: Option<Found>)
      ensures r == FindStub(bins, pc)
    {
      for i := 0 to |bins|
        invariant FindStub(bins, pc) == FindStub(bins[i..], pc)
      {
        if InSection(bins[i], pc) {
          var section := bins[i].stubs.value;
          var picOffset: Word := 0;
          if bins[i].lazyPointers.Some? {
            picOffset := (bins[i].lazyPointers.value - section.addr) % ADDRESS_SPACE;
          }
          if section.info.None? || section.info.value.entrySize == 0 {
            return None;
          }
          var info, offset := section.info.value, pc - section.addr;
          if offset % info.entrySize != 0 {
            return None;
          }
          var idx := offset / info.entrySize;
          return Some(Found(info.entrySize, if idx < |info.symbols| then info.symbols[idx] else None, picOffset));
        }
        assert bins[i..][1..] == bins[i + 1..];
      }
      r := None;
    }

    method FindGuestExport(bins: seq<Binary>, symbol: string) returns (r: Option<Word>)
      ensures r == FindExport(bins, symbol)
    {
      for i := 0 to |bins|
        invariant FindExport(bins, symbol) == FindExport(bins[i..], symbol)
      {
        if symbol in bins[i].exports {
          return Some(bins[i].exports[symbol]);
        }
        assert bins[i..][1..] == bins[i + 1..];
      }
      r := None;
    }

    method DoLazyLink(p: Program, pc: nat) returns (handler: Option<HostFunction>)
      requires LazyLink(p, Snapshot(), pc).Ok?
      modifies `mem, `cache, `linked
      ensures LazyLink(p, old(Snapshot()), pc) == Ok(Snapshot(), handler)
    {
      hide ReadWord, WriteWord, WriteWords, RestoredInstructions, SlotIn, FindStub, FindExport, FindHost;
      var found := FindSection(p.bins, pc);
      var symbol := found.value.symbol.value;
      var size := found.value.size;
      if symbol in nonLazy {
        LinkByRestoringStub(nonLazy[symbol], pc, size, found.value.picOffset);
        return None;
      }
      var addr := FindGuestExport(p.bins, symbol);
      if addr.Some? {
        LinkByRestoringStub(addr.value, pc, size, found.value.picOffset);
        return None;
      }
      var exported := SearchHostDylibs(p.hostExports, symbol);
      var f := if exported.Some? then exported.value else Unimplemented;
      var svc := |linked| + SVC_LINKED_FUNCTIONS_BASE;
      if size == 4 {
        svc := svc + SVC_LAZY_LINK_RET_FLAG;
      }
      linked := linked + [(symbol, f)];
      mem := WriteWord(mem, pc, SvcWord(svc));
      InvalidateCacheRange(pc, 4);
      handler := Some(f);
    }

    method SvcHandler(p: Program, pc: nat, svc: nat) returns (handler: Option<HostFunction>)
      requires svc !in {SVC_THREAD_EXIT, SVC_RETURN_TO_HOST} && GetSvcHandler(p, Snapshot(), pc, svc).Ok?
      modifies `mem, `cache, `linked
      ensures GetSvcHandler(p, old(Snapshot()), pc, svc) == Ok(Snapshot(), handler)
    {
      if svc == SVC_LAZY_LINK || svc == SVC_LAZY_LINK_RET_FLAG {
        handler := DoLazyLink(p, pc);
      } else {
        var i := IndexOf(svc);
        handler := if 0 <= i < |linked| then Some(linked[i].1) else None;
      }
    }

    /** An SVC that is not the thread's or the host call's end. `call` is the host function to call now, if any. */
    method DispatchSvc(p: Program, svc: nat) returns (call: Option<HostFunction>)
      requires !HandleSvc(p, Snapshot(), cpu, svc).Elsewhere?
      modifies this
      ensures HandleSvc(p, old(Snapshot()), old(cpu), svc) ==
        match call
        case None => Running(Snapshot(), cpu)
        case Some(f) => AtHost(Snapshot(), cpu, f, svc >= SVC_LAZY_LINK_RET_FLAG)
    {
      hide GetSvcHandler;
      var pc := Plus(cpu.regs[PC], -4);
      call := SvcHandler(p, pc, svc);
      if call.None? {
        cpu := Cpu(cpu.regs[PC := pc], cpu.thumb);
      }
    }

    method CreateFunction(symbol: string, f: HostFunction, block: nat)
      requires block + 8 <= ADDRESS_SPACE && CreateGuestFunction(Snapshot(), symbol, f, block).Some?
      modifies `mem, `linked
      ensures CreateGuestFunction(old(Snapshot()), symbol, f, block) == Some(Snapshot())
    {
      hide WriteWords;
      var svc := |linked| + SVC_LINKED_FUNCTIONS_BASE;
      linked := linked + [(symbol, f)];
      WriteCode(block, [SvcWord(svc), RET]);
    }

    method ProcAddressNoInval(p: Program, symbol: string, block: nat) returns (r: Option<Word>)
      requires block + 8 <= ADDRESS_SPACE && !CreateProcAddressNoInval(p, Snapshot(), symbol, block).Refused?
      modifies `mem, `linked, `nonLazy
      ensures CreateProcAddressNoInval(p, old(Snapshot()), symbol, block) ==
        match r { case None => Unknown(Snapshot()) case Some(addr) => Known(Snapshot(), addr) }
    {
      hide CreateGuestFunction;
      if symbol == BINDER || symbol == "_dyld_stub_binder" {
        if BINDER in nonLazy {
          return Some(nonLazy[BINDER]);
        }
        CreateFunction(BINDER, StubBinder, block);
        nonLazy := nonLazy[BINDER := block];
        return Some(block);
      }
      var exported := SearchHostDylibs(p.hostExports, symbol);
      if exported.None? {
        return None;
      }
      if symbol in nonLazy {
        return Some(nonLazy[symbol]);
      }
      CreateFunction(symbol, exported.value, block);
      nonLazy := nonLazy[symbol := block];
      r := Some(block);
    }

    method ProcAddress(p: Program, symbol: string, block: nat) returns (r: Option<Word>)
      requires block + 8 <= ADDRESS_SPACE && !CreateProcAddressNoInval(p, Snapshot(), symbol, block).Refused?
      modifies `mem, `linked, `nonLazy, `cache
      ensures CreateProcAddress(p, old(Snapshot()), symbol, block) ==
        match r { case None => Unknown(Snapshot()) case Some(addr) => Known(Snapshot(), addr) }
    {
      hide CreateProcAddressNoInval;
      r := ProcAddressNoInval(p, symbol, block);
      if r.Some? {
        InvalidateCacheRange(r.value - r.value % 2, 8);
      }
    }
  }
}
