/**
 The lazy linker as functions on a snapshot of the machine (src/dyld.rs), together with the few A32
 instructions that stubs and trampolines consist of and the dispatch of SVCs (src/environment.rs).
 The code here is self-modifying: linking a stub rewrites the instructions that called the linker.
 */
module LinkerModel {
  import opened Common
  import opened GuestMemory

  /** `Unimplemented` is the return-0 fallback, `StubBinder` the built-in `dyld_stub_binder`. */
  datatype HostFunction = Unimplemented | StubBinder | Exported(id: nat)

  datatype IndirectSymbols = IndirectSymbols(entrySize: Word, symbols: seq<Option<string>>)

  datatype StubSection = StubSection(addr: Word, size: Word, info: Option<IndirectSymbols>)

  datatype Binary = Binary(stubs: Option<StubSection>, lazyPointers: Option<Word>, exports: map<string, Word>)

  /** The loaded binaries, the application first, and the function exports of all host dylibs in search order. */
  datatype Program = Program(bins: seq<Binary>, hostExports: seq<(string, HostFunction)>)

  /** `cache` is what the JIT has translated: instruction address to the word it was translated from. */
  datatype World = World(mem: Ram, cache: map<nat, Word>, linked: seq<(string, HostFunction)>, nonLazy: map<string,
    Word>)

  datatype Cpu = Cpu(regs: Registers, thumb: bool)

  // ----- instruction encodings

  const SVC_LAZY_LINK: nat := 0
  const SVC_THREAD_EXIT: nat := 1
  const SVC_RETURN_TO_HOST: nat := 2
  const SVC_LINKED_FUNCTIONS_BASE: nat := 3
  const SVC_LAZY_LINK_RET_FLAG: nat := 0x80_0000

  const RET: Word := 0xE12F_FF1E
  const TRAP: Word := 0xE7FF_DEFE
  const LOAD_PC: Word := 0xE59F_F000
  const LOAD_R12: Word := 0xE59F_C000
  const LOAD_R12_PIC: Word := 0xE59F_C004
  const ADD_R12: Word := 0xE08F_C00C
  const JUMP_R12: Word := 0xE59C_F000

  function SvcWord(imm: nat): Word
    requires imm < 0x100_0000
  {
    0xEF00_0000 + imm
  }

  /** Bitwise or. */
  function Or(a: nat, b: nat): nat
    decreases a + b
  {
    if a == 0 && b == 0 then 0 else (if a % 2 == 1 || b % 2 == 1 then 1 else 0) + 2 * Or(a / 2, b / 2)
  }

  function OrWord(a: Word, b: Word): Word {
    assert Pow2(32) == ADDRESS_SPACE by { PowersOfTwo(); }
    OrBelow(a, b, 32);
    Or(a, b)
  }

  /** Whether or-ing an offset into `LDR pc, [pc, #0]` leaves it a load of `pc` relative to `pc`. */
  predicate KeepsLoad(picOffset: Word) {
    Or(LOAD_PC / 0x1000, picOffset / 0x1000) == LOAD_PC / 0x1000
  }

  /** The instructions of a stub before it is rewritten, and again once it is linked to guest code. */
  function OriginalInstructions(size: nat): (r: seq<Word>)
    ensures |r| == if size == 4 then 1 else if size == 12 then 2 else 3
  {
    if size == 4 then [LOAD_PC] else if size == 12 then [LOAD_R12, JUMP_R12] else [LOAD_R12_PIC, ADD_R12, JUMP_R12]
  }

  /** What `setup_lazy_linking` puts in place of a stub's instructions. */
  function LazyInstructions(size: nat): (r: seq<Word>)
    ensures |r| == |OriginalInstructions(size)|
  {
    if size == 4 then [SvcWord(SVC_LAZY_LINK_RET_FLAG)]
    else if size == 12 then [SvcWord(SVC_LAZY_LINK), RET]
    else [SvcWord(SVC_LAZY_LINK), RET, TRAP]
  }

  // ----- reading and writing runs of words

  function WordsAt(mem: Ram, a: nat, count: nat): (r: seq<Word>)
    requires a + 4 * count <= ADDRESS_SPACE
    ensures |r| == count
    decreases count
  {
    if count == 0 then [] else [ReadWord(mem, a)] + WordsAt(mem, a + 4, count - 1)
  }

  function WriteWords(mem: Ram, a: nat, words: seq<Word>): Ram
    requires a + 4 * |words| <= ADDRESS_SPACE
    decreases |words|
  {
    if words == [] then mem else WriteWords(WriteWord(mem, a, words[0]), a + 4, words[1..])
  }

  // ----- finding stubs

  /** What `do_lazy_link` learns about the stub at an address. */
  datatype Found = Found(size: nat, symbol: Option<string>, picOffset: Word)

  function PicOffset(bin: Binary, section: StubSection): Word {
    match bin.lazyPointers
    case None => 0
    case Some(lazy) => (lazy - section.addr) % ADDRESS_SPACE
  }

  predicate InSection(bin: Binary, pc: nat) {
    bin.stubs.Some? && bin.stubs.value.addr <= pc < bin.stubs.value.addr + bin.stubs.value.size
  }

  /** The first binary whose stub section holds `pc`; `None` where the source would panic. */
  function FindStub(bins: seq<Binary>, pc: nat): Option<Found> {
    if bins == [] then None
    else if InSection(bins[0], pc) then DescribeStub(bins[0], pc)
    else FindStub(bins[1..], pc)
  }

  function DescribeStub(bin: Binary, pc: nat): Option<Found>
    requires InSection(bin, pc)
  {
    var section := bin.stubs.value;
    var offset := pc - section.addr;
    if section.info.None? || section.info.value.entrySize == 0 || offset % section.info.value.entrySize != 0 then None
    else
      var info := section.info.value;
      var idx := offset / info.entrySize;
      var symbol := if idx < |info.symbols| then info.symbols[idx] else None;
      Some(Found(info.entrySize, symbol, PicOffset(bin, section)))
  }

  // ----- choosing what a symbol means

  datatype Target = Guest(addr: Word) | Host(f: HostFunction)

  function FindExport(bins: seq<Binary>, symbol: string): Option<Word> {
    if bins == [] then None
    else if symbol in bins[0].exports then Some(bins[0].exports[symbol])
    else FindExport(bins[1..], symbol)
  }

  function FindHost(exports: seq<(string, HostFunction)>, symbol: string): Option<HostFunction> {
    if exports == [] then None
    else if exports[0].0 == symbol then Some(exports[0].1)
    else FindHost(exports[1..], symbol)
  }

  function HostFor(p: Program, symbol: string): HostFunction {
    match FindHost(p.hostExports, symbol)
    case Some(f) => f
    case None => Unimplemented
  }

  /** The order of preference of `do_lazy_link`: a trampoline made earlier, a guest export, host code. */
  function Resolve(p: Program, w: World, symbol: string): Target {
    if symbol in w.nonLazy then Guest(w.nonLazy[symbol])
    else match FindExport(p.bins, symbol)
      case Some(addr) => Guest(addr)
      case None => Host(HostFor(p, symbol))
  }

  // ----- linking

  function Invalidate(cache: map<nat, Word>, start: nat, size: nat): map<nat, Word> {
    map a | a in cache && !(a < start + size && start < a + 4) :: cache[a]
  }

  /** The instructions `link_by_restoring_stub` writes. */
  function RestoredInstructions(size: nat, picOffset: Word): (r: seq<Word>)
    ensures |r| == |OriginalInstructions(size)|
  {
    if size == 4 then [OrWord(LOAD_PC, picOffset)] else OriginalInstructions(size)
  }

  /** Where a stub keeps its pointer, read out of the stub itself. */
  function SlotIn(mem: Ram, pc: nat, size: nat): Word
    requires pc + size <= ADDRESS_SPACE && size in {4, 12, 16}
  {
    if size == 12 then ReadWord(mem, pc + 8)
    else if size == 4 then (pc + ReadWord(mem, pc) % 0x1000 + 8) % ADDRESS_SPACE
    else (pc + ReadWord(mem, pc + 12) + 12) % ADDRESS_SPACE
  }

  datatype Outcome = Panic | Ok(world: World, handler: Option<HostFunction>)

  /** `link_by_restoring_stub` */
  function RestoreStub(w: World, pc: nat, size: nat, picOffset: Word, target: Word): Outcome
    requires pc + size <= ADDRESS_SPACE && size in {4, 12, 16}
  {
    var code := RestoredInstructions(size, picOffset);
    var mem := WriteWords(w.mem, pc, code);
    var slot := SlotIn(mem, pc, size);
    if slot + 4 > ADDRESS_SPACE then Panic
    else Ok(w.(mem := WriteWord(mem, slot, target), cache := Invalidate(w.cache, pc, 4 * |code|)), None)
  }

  /** The SVC number given to the host function with an index; `None` where an assertion of the source fails. */
  function SvcFor(size: nat, index: nat): Option<nat> {
    var svc := index + SVC_LINKED_FUNCTIONS_BASE;
    if size == 4 then if svc < SVC_LAZY_LINK_RET_FLAG then Some(svc + SVC_LAZY_LINK_RET_FLAG) else None
    else if svc < 0x100_0000 then Some(svc) else None
  }

  /** The index `get_svc_handler` takes out of an SVC number; negative for numbers that were never given out. */
  function IndexOf(svc: nat): int {
    (if svc >= SVC_LAZY_LINK_RET_FLAG then svc - SVC_LAZY_LINK_RET_FLAG else svc) - SVC_LINKED_FUNCTIONS_BASE
  }

  function LinkToHost(w: World, pc: nat, size: nat, symbol: string, f: HostFunction): Outcome
    requires pc + size <= ADDRESS_SPACE && size in {4, 12, 16}
  {
    match SvcFor(size, |w.linked|)
    case None => Panic
    case Some(svc) =>
      if size != 4 && ReadWord(w.mem, pc + 4) != RET then Panic
      else
        Ok(w.(mem := WriteWord(w.mem, pc, SvcWord(svc)), cache := Invalidate(w.cache, pc, 4),
          linked := w.linked + [(symbol, f)]), Some(f))
  }

  /** `do_lazy_link` */
  function LazyLink(p: Program, w: World, pc: nat): Outcome {
    match FindStub(p.bins, pc)
    case None => Panic
    case Some(stub) =>
      if stub.symbol.None? || stub.size !in {4, 12, 16} || pc + stub.size > ADDRESS_SPACE then Panic
      else match Resolve(p, w, stub.symbol.value)
        case Guest(addr) => RestoreStub(w, pc, stub.size, stub.picOffset, addr)
        case Host(f) => LinkToHost(w, pc, stub.size, stub.symbol.value, f)
  }

  /** `get_svc_handler` */
  function GetSvcHandler(p: Program, w: World, pc: nat, svc: nat): Outcome {
    if svc == SVC_LAZY_LINK || svc == SVC_LAZY_LINK_RET_FLAG then LazyLink(p, w, pc)
    else if 0 <= IndexOf(svc) < |w.linked| then Ok(w, Some(w.linked[IndexOf(svc)].1))
    else Ok(w, None)
  }

  // ----- execution

  function BranchTo(cpu: Cpu, addr: Word): Cpu {
    Cpu(cpu.regs[PC := addr - addr % 2], addr % 2 == 1)
  }

  datatype Event = Moved(cpu: Cpu) | Svc(imm: nat, cpu: Cpu) | Undefined

  function Plus(a: int, b: int): Word {
    (a + b) % ADDRESS_SPACE
  }

  /** One instruction; `pc` reads as the address of the instruction plus 8. */
  function Execute(mem: Ram, cpu: Cpu, word: Word): Event {
    var regs := cpu.regs;
    var next := regs[PC := Plus(regs[PC], 4)];
    var near := Plus(regs[PC], 8 + word % 0x1000);
    if word / 0x100_0000 == 0xEF then Svc(word % 0x100_0000, Cpu(next, false))
    else if word == RET then Moved(BranchTo(cpu, regs[LR]))
    else if word / 0x1000 == LOAD_PC / 0x1000 && near + 4 <= ADDRESS_SPACE then
      Moved(BranchTo(cpu, ReadWord(mem, near)))
    else if word / 0x1000 == LOAD_R12 / 0x1000 && near + 4 <= ADDRESS_SPACE then
      Moved(Cpu(next[12 := ReadWord(mem, near)], false))
    else if word == ADD_R12 then Moved(Cpu(next[12 := Plus(regs[12], (regs[PC] as int) + 8)], false))
    else if word == JUMP_R12 && regs[12] + 4 <= ADDRESS_SPACE then Moved(BranchTo(cpu, ReadWord(mem, regs[12])))
    else Undefined
  }

  /** `Elsewhere`: code this interpreter does not know, the two other reserved SVCs, or a panic. */
  datatype Progress =
    | Running(world: World, cpu: Cpu)
    | AtHost(world: World, cpu: Cpu, f: HostFunction, thenReturn: bool)
    | Elsewhere

  function HandleSvc(p: Program, w: World, cpu: Cpu, svc: nat): Progress {
    var pc := Plus(cpu.regs[PC], -4);
    if svc == SVC_RETURN_TO_HOST || svc == SVC_THREAD_EXIT then Elsewhere
    else match GetSvcHandler(p, w, pc, svc)
      case Panic => Elsewhere
      case Ok(w2, None) => Running(w2, Cpu(cpu.regs[PC := pc], cpu.thumb))
      case Ok(w2, Some(f)) => AtHost(w2, cpu, f, svc >= SVC_LAZY_LINK_RET_FLAG)
  }

  function Fetch(w: World, a: nat): Word
    requires a + 4 <= ADDRESS_SPACE
  {
    if a in w.cache then w.cache[a] else ReadWord(w.mem, a)
  }

  /** One turn of the emulator: translate, execute, dispatch. */
  function Tick(p: Program, w: World, cpu: Cpu): Progress {
    var pc := cpu.regs[PC];
    if cpu.thumb || pc + 4 > ADDRESS_SPACE then Elsewhere
    else
      var word := Fetch(w, pc);
      var w2 := w.(cache := w.cache[pc := word]);
      match Execute(w2.mem, cpu, word)
      case Moved(c) => Running(w2, c)
      case Svc(imm, c) => HandleSvc(p, w2, c, imm)
      case Undefined => Elsewhere
  }

  function Ticks(p: Program, w: World, cpu: Cpu, count: nat): Progress
    decreases count
  {
    if count == 0 then Running(w, cpu)
    else match Tick(p, w, cpu)
      case Running(w2, c) => Ticks(p, w2, c, count - 1)
      case other => other
  }

  /** What happens when the host function has returned: 4-byte stubs have no room for a return instruction. */
  function AfterHost(p: Program, w: World, cpu: Cpu, thenReturn: bool): Progress {
    if thenReturn then Running(w, BranchTo(cpu, cpu.regs[LR])) else Tick(p, w, cpu)
  }

  // ----- trampolines

  const BINDER := "dyld_stub_binder"

  /** Under which name the trampoline for a symbol is kept, and the function it calls. */
  function ProcFor(p: Program, symbol: string): Option<(string, HostFunction)> {
    if symbol == BINDER || symbol == "_dyld_stub_binder" then Some((BINDER, StubBinder))
    else match FindHost(p.hostExports, symbol)
      case None => None
      case Some(f) => Some((symbol, f))
  }

  /** `create_guest_function`, with the address that `mem.alloc` returned. */
  function CreateGuestFunction(w: World, symbol: string, f: HostFunction, block: nat): Option<World>
    requires block + 8 <= ADDRESS_SPACE
  {
    match SvcFor(8, |w.linked|)
    case None => None
    case Some(svc) => Some(w.(mem := WriteWords(w.mem, block, [SvcWord(svc), RET]), linked := w.linked + [(symbol, f)]))
  }

  datatype ProcAddress = Refused | Unknown(world: World) | Known(world: World, addr: Word)

  /** `create_proc_address_no_inval` */
  function CreateProcAddressNoInval(p: Program, w: World, symbol: string, block: nat): ProcAddress
    requires block + 8 <= ADDRESS_SPACE
  {
    match ProcFor(p, symbol)
    case None => Unknown(w)
    case Some((key, f)) =>
      if key in w.nonLazy then Known(w, w.nonLazy[key])
      else match CreateGuestFunction(w, key, f, block)
        case None => Refused
        case Some(w2) => Known(w2.(nonLazy := w2.nonLazy[key := block]), block)
  }

  /** `create_proc_address` */
  function CreateProcAddress(p: Program, w: World, symbol: string, block: nat): ProcAddress
    requires block + 8 <= ADDRESS_SPACE
  {
    match CreateProcAddressNoInval(p, w, symbol, block)
    case Known(w2, addr) => Known(w2.(cache := Invalidate(w2.cache, addr - addr % 2, 8)), addr)
    case other => other
  }

  // ----- rewriting a binary's stubs after loading

  /** `setup_lazy_linking`, for the `count` entries from `a` on. Entries that do not look like stubs are skipped. */
  function SetupEntries(mem: Ram, a: nat, size: nat, count: nat): Ram
    requires size in {4, 12, 16} && a + size * count <= ADDRESS_SPACE
    decreases count
  {
    if count == 0 then mem else SetupEntries(SetupEntry(mem, a, size), a + size, size, count - 1)
  }

  predicate LooksLikeStub(mem: Ram, a: nat, size: nat)
    requires size in {4, 12, 16} && a + size <= ADDRESS_SPACE
  {
    size == 4 || WordsAt(mem, a, |OriginalInstructions(size)|) == OriginalInstructions(size)
  }

  function SetupEntry(mem: Ram, a: nat, size: nat): Ram
    requires size in {4, 12, 16} && a + size <= ADDRESS_SPACE
  {
    if LooksLikeStub(mem, a, size) then WriteWords(mem, a, LazyInstructions(size)) else mem
  }

  // ----- bitwise or

  lemma {:induction false} OrBelow(a: nat, b: nat, bits: nat)
    requires a < Pow2(bits) && b < Pow2(bits)
    ensures Or(a, b) < Pow2(bits)
    decreases bits
  {
    if bits > 0 && (a > 0 || b > 0) {
      OrBelow(a / 2, b / 2, bits - 1);
    }
  }

  lemma {:induction false} PowersOfTwo()
    ensures Pow2(32) == ADDRESS_SPACE
  {
    assert Pow2(8) == 0x100;
    assert Pow2(16) == 0x1_0000;
    assert Pow2(24) == 0x100_0000;
  }

  function Pow2(n: nat): nat {
    if n == 0 then 1 else 2 * Pow2(n - 1)
  }
}
