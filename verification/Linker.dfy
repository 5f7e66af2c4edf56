/**
 Lazy linking is transparent: calling a rewritten stub always reaches what its symbol means, whatever
 was linked before, and a stub that has been linked never changes its target again.
 */
module Linker {
  import opened Common
  import opened GuestMemory
  import opened LinkerModel
  import opened Symbols

  // ----- stubs and their memory

  /** A stub rewritten by `setup_lazy_linking`: where it is, what it stands for, where its pointer lives. */
  datatype Stub = Stub(addr: nat, size: nat, symbol: string, picOffset: Word, slot: nat)

  predicate Disjoint(a: int, aSize: int, b: int, bSize: int) {
    a + aSize <= b || b + bSize <= a
  }

  predicate InBounds(s: Stub) {
    s.size in {4, 12, 16} && s.addr + s.size <= ADDRESS_SPACE && s.slot + 4 <= ADDRESS_SPACE
      && Disjoint(s.addr, s.size, s.slot, 4)
  }

  predicate Sane(p: Program, s: Stub) {
    && InBounds(s)
    && FindStub(p.bins, s.addr) == Some(Found(s.size, Some(s.symbol), s.picOffset))
    && (s.size == 4 ==> KeepsLoad(s.picOffset) && s.slot == Plus(s.addr, s.picOffset % 0x1000 + 8))
  }

  predicate Apart(s: Stub, t: Stub) {
    && Disjoint(s.addr, s.size, t.addr, t.size) && Disjoint(s.slot, 4, t.slot, 4)
    && Disjoint(s.addr, s.size, t.slot, 4) && Disjoint(s.slot, 4, t.addr, t.size)
  }

  ghost predicate Layout(p: Program, stubs: set<Stub>) {
    && (forall s :: s in stubs ==> Sane(p, s))
    && (forall s, t {:trigger Apart(s, t)} :: s in stubs && t in stubs && s != t ==> Apart(s, t))
  }

  /** How a stub is linked, read off the guest's memory. */
  datatype Link = Unlinked | ToHost(index: int) | ToGuest(target: Word)

  function LinkOf(mem: Ram, s: Stub): Link
    requires InBounds(s)
  {
    var first := ReadWord(mem, s.addr);
    if first == LazyInstructions(s.size)[0] then Unlinked
    else if first / 0x100_0000 == 0xEF then ToHost(IndexOf(first % 0x100_0000))
    else ToGuest(ReadWord(mem, s.slot))
  }

  predicate CodeIs(mem: Ram, a: nat, code: seq<Word>)
    requires a + 4 * |code| <= ADDRESS_SPACE
  {
    && (|code| > 0 ==> ReadWord(mem, a) == code[0])
    && (|code| > 1 ==> ReadWord(mem, a + 4) == code[1])
    && (|code| > 2 ==> ReadWord(mem, a + 8) == code[2])
  }

  /** The word behind the instructions still says where the pointer is. */
  predicate LiteralOk(mem: Ram, s: Stub)
    requires InBounds(s)
  {
    && (s.size == 12 ==> ReadWord(mem, s.addr + 8) == s.slot)
    && (s.size == 16 ==> Plus(s.addr + 12, ReadWord(mem, s.addr + 12)) == s.slot)
  }

  /** The instructions fit the link; a host link is the entry made for this very symbol. */
  predicate CodeOk(p: Program, w: World, s: Stub)
    requires InBounds(s)
  {
    match LinkOf(w.mem, s)
    case Unlinked => CodeIs(w.mem, s.addr, LazyInstructions(s.size))
    case ToHost(i) =>
      && 0 <= i < |w.linked| && i + SVC_LINKED_FUNCTIONS_BASE < SVC_LAZY_LINK_RET_FLAG
      && w.linked[i] == (s.symbol, HostFor(p, s.symbol))
      && CodeIs(w.mem, s.addr, LazyInstructions(s.size)[0 := SvcWord(SvcFor(s.size, i).value)])
    case ToGuest(_) => CodeIs(w.mem, s.addr, RestoredInstructions(s.size, s.picOffset))
  }

  /** The JIT has nothing stale for the instruction at `a`. */
  predicate Fresh(w: World, a: nat)
    requires a + 4 <= ADDRESS_SPACE
  {
    a in w.cache ==> w.cache[a] == ReadWord(w.mem, a)
  }

  predicate FreshStub(w: World, s: Stub)
    requires InBounds(s)
  {
    Fresh(w, s.addr) && (s.size >= 12 ==> Fresh(w, s.addr + 4)) && (s.size == 16 ==> Fresh(w, s.addr + 8))
  }

  predicate StubOk(p: Program, w: World, s: Stub) {
    Sane(p, s) && LiteralOk(w.mem, s) && CodeOk(p, w, s) && FreshStub(w, s)
  }

  // ----- trampolines

  predicate TrampolineOk(p: Program, w: World, key: string)
    requires key in w.nonLazy
  {
    var a := w.nonLazy[key];
    && a % 2 == 0 && a + 8 <= ADDRESS_SPACE
    && ReadWord(w.mem, a + 4) == RET && Fresh(w, a) && Fresh(w, a + 4)
    && ReadWord(w.mem, a) / 0x100_0000 == 0xEF
    && var i := ReadWord(w.mem, a) % 0x100_0000 - SVC_LINKED_FUNCTIONS_BASE;
    && 0 <= i < |w.linked| && i + SVC_LINKED_FUNCTIONS_BASE < SVC_LAZY_LINK_RET_FLAG
    && w.linked[i].0 == key && ProcFor(p, key) == Some(w.linked[i])
  }

  ghost predicate BlockApart(stubs: set<Stub>, a: int) {
    forall s :: s in stubs ==> Disjoint(a, 8, s.addr, s.size) && Disjoint(a, 8, s.slot, 4)
  }

  ghost predicate BlockUnused(w: World, a: int) {
    forall key :: key in w.nonLazy ==> Disjoint(a, 8, w.nonLazy[key], 8)
  }

  // ----- the invariant

  ghost predicate StubsOk(p: Program, stubs: set<Stub>, w: World) {
    forall s :: s in stubs ==> StubOk(p, w, s)
  }

  ghost predicate TrampolinesOk(p: Program, stubs: set<Stub>, w: World) {
    && (forall key :: key in w.nonLazy ==> TrampolineOk(p, w, key) && BlockApart(stubs, w.nonLazy[key]))
    && (forall j, k {:trigger w.nonLazy[j], w.nonLazy[k]} :: j in w.nonLazy && k in w.nonLazy && j != k ==>
      Disjoint(w.nonLazy[j], 8, w.nonLazy[k], 8))
  }

  ghost predicate Inv(p: Program, stubs: set<Stub>, w: World) {
    Layout(p, stubs) && StubsOk(p, stubs, w) && TrampolinesOk(p, stubs, w)
  }

  /** What only grows: SVC numbers, cached trampolines, links. */
  ghost predicate Extends(stubs: set<Stub>, w: World, w2: World)
    requires forall s :: s in stubs ==> InBounds(s)
  {
    && w.linked <= w2.linked
    && (forall key :: key in w.nonLazy ==> key in w2.nonLazy && w2.nonLazy[key] == w.nonLazy[key])
    && (forall s :: s in stubs && LinkOf(w.mem, s) != Unlinked ==> LinkOf(w2.mem, s) == LinkOf(w.mem, s))
  }

  // ----- frames

  ghost predicate SameRange(m: Ram, n: Ram, a: int, size: int) {
    forall i :: 0 <= i < ADDRESS_SPACE && a <= i < a + size ==> m[i] == n[i]
  }

  /** Every translation of `w2` was there in `w`, or is one of memory as it is now. */
  ghost predicate CacheFrom(w: World, w2: World) {
    forall a: nat :: a in w2.cache && a + 4 <= ADDRESS_SPACE ==>
      (a in w.cache && w2.cache[a] == w.cache[a]) || w2.cache[a] == ReadWord(w2.mem, a)
  }

  lemma {:induction false} FreshFrame(w: World, w2: World, a: nat)
    requires a + 4 <= ADDRESS_SPACE && Fresh(w, a) && CacheFrom(w, w2) && SameRange(w.mem, w2.mem, a, 4)
    ensures Fresh(w2, a) && ReadWord(w2.mem, a) == ReadWord(w.mem, a)
  {
    SameWord(w.mem, w2.mem, a);
  }

  lemma {:induction false} StubFrame(p: Program, w: World, w2: World, s: Stub)
    requires StubOk(p, w, s) && w.linked <= w2.linked && CacheFrom(w, w2)
    requires SameRange(w.mem, w2.mem, s.addr, s.size) && SameRange(w.mem, w2.mem, s.slot, 4)
    ensures StubOk(p, w2, s) && LinkOf(w2.mem, s) == LinkOf(w.mem, s)
  {
    hide ReadWord, FindStub, KeepsLoad, HostFor, RestoredInstructions;
    FreshFrame(w, w2, s.addr);
    SameWord(w.mem, w2.mem, s.slot);
    if s.size >= 12 {
      FreshFrame(w, w2, s.addr + 4);
      SameWord(w.mem, w2.mem, s.addr + 8);
    }
    if s.size == 16 {
      FreshFrame(w, w2, s.addr + 8);
      SameWord(w.mem, w2.mem, s.addr + 12);
    }
    assert LinkOf(w2.mem, s) == LinkOf(w.mem, s);
  }

  lemma {:induction false} TrampolineFrame(p: Program, w: World, w2: World, key: string)
    requires key in w.nonLazy && TrampolineOk(p, w, key)
    requires key in w2.nonLazy && w2.nonLazy[key] == w.nonLazy[key] && w.linked <= w2.linked && CacheFrom(w, w2)
    requires SameRange(w.mem, w2.mem, w.nonLazy[key], 8)
    ensures TrampolineOk(p, w2, key)
  {
    hide ReadWord, ProcFor;
    FreshFrame(w, w2, w.nonLazy[key]);
    FreshFrame(w, w2, w.nonLazy[key] + 4);
  }

  // ----- bitwise or

  lemma {:induction false} OrZero(a: nat)
    ensures Or(a, 0) == a
    decreases a
  {
    if a > 0 {
      OrZero(a / 2);
    }
  }

  lemma {:induction false} OrNibble(a: nat, b: nat)
    ensures Or(16 * a, b) == 16 * Or(a, b / 16) + b % 16
  {
    hide Or;
    OrBit(8 * a, b);
    OrBit(4 * a, b / 2);
    OrBit(2 * a, b / 4);
    OrBit(a, b / 8);
  }

  lemma {:induction false} OrBit(a: nat, b: nat)
    ensures Or(2 * a, b) == 2 * Or(a, b / 2) + b % 2
  {
  }

  lemma {:induction false} OrLoad(b: Word)
    ensures OrWord(LOAD_PC, b) == 0x1000 * Or(LOAD_PC / 0x1000, b / 0x1000) + b % 0x1000
  {
    hide Or;
    OrNibble(0xE59F_F00, b);
    OrNibble(0xE59F_F0, b / 0x10);
    OrNibble(0xE59F_F, b / 0x100);
  }

  /** Restoring a 4-byte stub yields a load of `pc` exactly when the offset between the sections keeps the opcode. */
  lemma {:induction false} RestoredLoad(picOffset: Word)
    ensures RestoredInstructions(4, picOffset)[0] % 0x1000 == picOffset % 0x1000
    ensures RestoredInstructions(4, picOffset)[0] / 0x1000 == LOAD_PC / 0x1000 <==> KeepsLoad(picOffset)
    ensures picOffset < 0x1000 ==> KeepsLoad(picOffset)
  {
    OrLoad(picOffset);
    OrZero(LOAD_PC / 0x1000);
  }

  /** A load of `pc` is no SVC. */
  lemma {:induction false} RestoredIsNoSvc(size: nat, picOffset: Word)
    requires size in {4, 12, 16} && (size == 4 ==> KeepsLoad(picOffset))
    ensures RestoredInstructions(size, picOffset)[0] / 0x100_0000 == 0xE5
  {
    if size == 4 {
      RestoredLoad(picOffset);
    }
  }

  // ----- steps that change one stub, or none

  lemma {:induction false} WriteWordsFrame(mem: Ram, a: nat, words: seq<Word>)
    requires a + 4 * |words| <= ADDRESS_SPACE
    ensures SameOutside(mem, WriteWords(mem, a, words), a, a + 4 * |words|)
    decreases |words|
  {
    if words != [] {
      WriteWordsFrame(WriteWord(mem, a, words[0]), a + 4, words[1..]);
    }
  }

  lemma {:induction false} WriteWordsCode(mem: Ram, a: nat, words: seq<Word>)
    requires a + 4 * |words| <= ADDRESS_SPACE && |words| <= 3
    ensures CodeIs(WriteWords(mem, a, words), a, words)
    decreases |words|
  {
    hide ReadWord, WriteWord;
    if words != [] {
      var m := WriteWord(mem, a, words[0]);
      WriteWordsCode(m, a + 4, words[1..]);
      WriteWordsFrame(m, a + 4, words[1..]);
      SameWord(m, WriteWords(m, a + 4, words[1..]), a);
    }
  }

  /** From `w` to `w2` memory changed in the code and the pointer of `s` only. */
  ghost predicate Rewrites(w: World, w2: World, s: Stub) {
    && w.linked <= w2.linked && w.nonLazy == w2.nonLazy && CacheFrom(w, w2)
    && forall i :: 0 <= i < ADDRESS_SPACE && !(s.addr <= i < s.addr + s.size) && !(s.slot <= i < s.slot + 4) ==>
      w.mem[i] == w2.mem[i]
  }

  lemma {:induction false} RewriteKeepsInv(p: Program, stubs: set<Stub>, w: World, w2: World, s: Stub)
    requires Inv(p, stubs, w) && s in stubs && Rewrites(w, w2, s) && StubOk(p, w2, s) && LinkOf(w.mem, s) == Unlinked
    ensures Inv(p, stubs, w2) && Extends(stubs, w, w2)
  {
    hide StubOk, Sane, TrampolineOk, LinkOf;
    forall t | t in stubs && t != s
      ensures StubOk(p, w2, t) && InBounds(t) && LinkOf(w2.mem, t) == LinkOf(w.mem, t)
    {
      assert Apart(s, t) && StubOk(p, w, t);
      SaneInBounds(p, t);
      StubFrame(p, w, w2, t);
    }
    SaneInBounds(p, s);
    forall key | key in w2.nonLazy
      ensures TrampolineOk(p, w2, key)
    {
      assert BlockApart(stubs, w.nonLazy[key]);
      TrampolineFrame(p, w, w2, key);
    }
  }

  lemma {:induction false} SaneInBounds(p: Program, s: Stub)
    requires Sane(p, s)
    ensures InBounds(s)
  {
  }

  lemma {:induction false} StubInBounds(p: Program, w: World, s: Stub)
    requires StubOk(p, w, s)
    ensures InBounds(s)
  {
  }

  lemma {:induction false} LayoutInBounds(p: Program, stubs: set<Stub>)
    requires Layout(p, stubs)
    ensures forall s :: s in stubs ==> InBounds(s)
  {
  }

  /**
   Everything else that happens in the emulator: code is translated, guest and host code write memory
   other than stubs, their pointers and trampolines, and host functions get SVC numbers elsewhere.
   */
  ghost predicate Outside(stubs: set<Stub>, w: World, w2: World) {
    && w.linked <= w2.linked && w.nonLazy == w2.nonLazy && CacheFrom(w, w2)
    && (forall s :: s in stubs ==> SameRange(w.mem, w2.mem, s.addr, s.size) && SameRange(w.mem, w2.mem, s.slot, 4))
    && (forall key :: key in w.nonLazy ==> SameRange(w.mem, w2.mem, w.nonLazy[key], 8))
  }

  lemma {:induction false} OutsideKeepsInv(p: Program, stubs: set<Stub>, w: World, w2: World)
    requires Inv(p, stubs, w) && Outside(stubs, w, w2)
    ensures Inv(p, stubs, w2) && Extends(stubs, w, w2)
    ensures forall s :: s in stubs ==> LinkOf(w2.mem, s) == LinkOf(w.mem, s)
  {
    hide StubOk, Sane, TrampolineOk, LinkOf;
    forall t | t in stubs
      ensures StubOk(p, w2, t) && InBounds(t) && LinkOf(w2.mem, t) == LinkOf(w.mem, t)
    {
      assert StubOk(p, w, t);
      SaneInBounds(p, t);
      StubFrame(p, w, w2, t);
    }
    forall key | key in w2.nonLazy
      ensures TrampolineOk(p, w2, key)
    {
      TrampolineFrame(p, w, w2, key);
    }
  }

  /** `w` after the instruction at `a` has been translated. */
  function Translated(w: World, a: nat): World
    requires a + 4 <= ADDRESS_SPACE
  {
    w.(cache := w.cache[a := Fetch(w, a)])
  }

  lemma {:induction false} TranslatingIsOutside(stubs: set<Stub>, w: World, a: nat)
    requires a + 4 <= ADDRESS_SPACE
    ensures Outside(stubs, w, Translated(w, a))
  {
  }

  // ----- linking

  lemma {:induction false} SlotFound(p: Program, w: World, s: Stub, mem: Ram)
    requires StubOk(p, w, s) && SameOutside(w.mem, mem, s.addr, s.addr + 4 * |OriginalInstructions(s.size)|)
    requires CodeIs(mem, s.addr, RestoredInstructions(s.size, s.picOffset))
    ensures SlotIn(mem, s.addr, s.size) == s.slot && LiteralOk(mem, s)
  {
    hide ReadWord, OrWord, KeepsLoad, FindStub, HostFor, CodeOk;
    if s.size == 4 {
      RestoredLoad(s.picOffset);
    } else if s.size == 12 {
      SameWord(w.mem, mem, s.addr + 8);
    } else {
      SameWord(w.mem, mem, s.addr + 12);
    }
  }

  /** `link_by_restoring_stub` turns a rewritten stub back into a jump through its pointer, and sets the pointer. */
  lemma {:induction false} RestoringLinks(p: Program, w: World, s: Stub, target: Word)
    requires StubOk(p, w, s)
    ensures var o := RestoreStub(w, s.addr, s.size, s.picOffset, target);
      && o.Ok? && o.handler.None? && o.world.linked == w.linked && Rewrites(w, o.world, s)
      && StubOk(p, o.world, s) && LinkOf(o.world.mem, s) == ToGuest(target)
  {
    hide ReadWord, WriteWord, WriteWords, KeepsLoad, FindStub, HostFor, OrWord, SlotIn;
    var code := RestoredInstructions(s.size, s.picOffset);
    var mem := WriteWords(w.mem, s.addr, code);
    WriteWordsFrame(w.mem, s.addr, code);
    WriteWordsCode(w.mem, s.addr, code);
    SlotFound(p, w, s, mem);
    var w2 := RestoreStub(w, s.addr, s.size, s.picOffset, target).world;
    assert w2.mem == WriteWord(mem, s.slot, target);
    PointerWriteKeepsCode(mem, s, target, code);
    RestoredIsNoSvc(s.size, s.picOffset);
    assert LinkOf(w2.mem, s) == ToGuest(target);
    assert CacheFrom(w, w2);
    assert FreshStub(w2, s);
  }

  lemma {:induction false} PointerWriteKeepsCode(mem: Ram, s: Stub, target: Word, code: seq<Word>)
    requires InBounds(s) && 4 * |code| <= s.size && CodeIs(mem, s.addr, code) && LiteralOk(mem, s)
    ensures var m := WriteWord(mem, s.slot, target);
      CodeIs(m, s.addr, code) && LiteralOk(m, s) && ReadWord(m, s.slot) == target
  {
    hide ReadWord, WriteWord;
    var m := WriteWord(mem, s.slot, target);
    SameWord(mem, m, s.addr);
    if s.size >= 12 {
      SameWord(mem, m, s.addr + 4);
      SameWord(mem, m, s.addr + 8);
    }
    if s.size == 16 {
      SameWord(mem, m, s.addr + 12);
    }
  }

  /** An SVC number decodes to the index it was made for exactly when the index leaves the return flag free. */
  lemma {:induction false} SvcDecodes(size: nat, index: nat)
    requires SvcFor(size, index).Some?
    ensures IndexOf(SvcFor(size, index).value) == index <==> index + SVC_LINKED_FUNCTIONS_BASE < SVC_LAZY_LINK_RET_FLAG
    ensures index + SVC_LINKED_FUNCTIONS_BASE < SVC_LAZY_LINK_RET_FLAG ==>
      (SvcFor(size, index).value >= SVC_LAZY_LINK_RET_FLAG <==> size == 4)
  {
  }

  lemma {:induction false} HostLinks(p: Program, w: World, s: Stub)
    requires StubOk(p, w, s) && LinkOf(w.mem, s) == Unlinked
    requires |w.linked| + SVC_LINKED_FUNCTIONS_BASE < SVC_LAZY_LINK_RET_FLAG
    ensures var o := LinkToHost(w, s.addr, s.size, s.symbol, HostFor(p, s.symbol));
      && o.Ok? && o.handler == Some(HostFor(p, s.symbol)) && Rewrites(w, o.world, s)
      && o.world.linked == w.linked + [(s.symbol, HostFor(p, s.symbol))]
      && StubOk(p, o.world, s) && LinkOf(o.world.mem, s) == ToHost(|w.linked|)
  {
    hide ReadWord, WriteWord, KeepsLoad, FindStub, HostFor, OrWord;
    var svc := SvcWord(SvcFor(s.size, |w.linked|).value);
    var mem := WriteWord(w.mem, s.addr, svc);
    SameWord(w.mem, mem, s.slot);
    if s.size >= 12 {
      SameWord(w.mem, mem, s.addr + 4);
      SameWord(w.mem, mem, s.addr + 8);
    }
    if s.size == 16 {
      SameWord(w.mem, mem, s.addr + 12);
    }
    var w2 := LinkToHost(w, s.addr, s.size, s.symbol, HostFor(p, s.symbol)).world;
    assert w2.mem == mem;
    assert LinkOf(mem, s) == ToHost(|w.linked|);
    HostStubFresh(p, w, w2, s, svc);
  }

  lemma {:induction false} HostStubFresh(p: Program, w: World, w2: World, s: Stub, svc: Word)
    requires StubOk(p, w, s) && w2.mem == WriteWord(w.mem, s.addr, svc) && w2.cache == Invalidate(w.cache, s.addr, 4)
    ensures FreshStub(w2, s) && CacheFrom(w, w2)
  {
    hide ReadWord, WriteWord, KeepsLoad, FindStub, HostFor, CodeOk;
    if s.size >= 12 {
      SameWord(w.mem, w2.mem, s.addr + 4);
    }
    if s.size == 16 {
      SameWord(w.mem, w2.mem, s.addr + 8);
    }
  }

  /** What a call of a stub reaches: the entry or the pointer it was linked to, else what its symbol resolves to now. */
  function TargetOf(p: Program, w: World, s: Stub): Target
    requires StubOk(p, w, s)
  {
    match LinkOf(w.mem, s)
    case Unlinked => Resolve(p, w, s.symbol)
    case ToHost(i) => Host(w.linked[i].1)
    case ToGuest(addr) => Guest(addr)
  }

  /** The stub is the entry of a binary's stub section that the binary gives this symbol. */
  lemma {:induction false} OwnSymbol(p: Program, w: World, s: Stub)
    requires StubOk(p, w, s)
    ensures StubNamed(p, s.addr, s.size, s.symbol)
    ensures Means(p, w, s.symbol, Resolve(p, w, s.symbol)) && HostMeaning(p, s.symbol, HostFor(p, s.symbol))
  {
    StubFound(p, s.addr, s.size, s.symbol, s.picOffset);
    ResolvesToMeaning(p, w, s.symbol, Resolve(p, w, s.symbol));
    HostForMeans(p, s.symbol, HostFor(p, s.symbol));
    hide FindStub, StubNamed, Means, HostMeaning, Resolve, HostFor, CodeOk, KeepsLoad, ReadWord;
  }

  /** Linking a stub fixes what its own symbol means, which a call of it would have reached anyway. */
  lemma {:induction false} LinkingFixesTarget(p: Program, stubs: set<Stub>, w: World, s: Stub)
    requires Inv(p, stubs, w) && s in stubs && LinkOf(w.mem, s) == Unlinked
    requires |w.linked| + SVC_LINKED_FUNCTIONS_BASE < SVC_LAZY_LINK_RET_FLAG
    ensures var o := LazyLink(p, w, s.addr);
      && o.Ok? && Inv(p, stubs, o.world) && Extends(stubs, w, o.world)
      && o.world.linked <= w.linked + [(s.symbol, HostFor(p, s.symbol))]
      && LinkOf(o.world.mem, s) != Unlinked && TargetOf(p, o.world, s) == TargetOf(p, w, s)
      && o.handler == match TargetOf(p, w, s) { case Guest(_) => None case Host(f) => Some(f) }
    ensures StubNamed(p, s.addr, s.size, s.symbol) && Means(p, w, s.symbol, TargetOf(p, w, s))
  {
    assert StubOk(p, w, s);
    OwnSymbol(p, w, s);
    hide StubNamed, Means, HostMeaning;
    hide RestoreStub, LinkToHost, Rewrites, CodeOk, KeepsLoad, FindExport, HostFor;
    assert StubOk(p, w, s);
    var o := LazyLink(p, w, s.addr);
    match Resolve(p, w, s.symbol)
    case Guest(addr) =>
      RestoringLinks(p, w, s, addr);
      RewriteKeepsInv(p, stubs, w, o.world, s);
    case Host(f) =>
      HostLinks(p, w, s);
      RewriteKeepsInv(p, stubs, w, o.world, s);
  }

  // ----- running stubs

  ghost predicate At(cpu: Cpu, a: nat) {
    !cpu.thumb && cpu.regs[PC] == a
  }

  /** Control has passed to `addr`; of the other registers only r12 may have changed. */
  ghost predicate JumpedTo(cpu: Cpu, after: Cpu, addr: Word) {
    && after.thumb == (addr % 2 == 1) && after.regs[PC] == addr - addr % 2
    && forall i :: 0 <= i < 16 && i != 12 && i != PC ==> after.regs[i] == cpu.regs[i]
  }

  lemma {:induction false} RunLoad(p: Program, w: World, s: Stub, cpu: Cpu)
    requires StubOk(p, w, s) && s.size == 4 && LinkOf(w.mem, s).ToGuest? && At(cpu, s.addr)
    ensures Tick(p, w, cpu) == Running(Translated(w, s.addr), BranchTo(cpu, LinkOf(w.mem, s).target))
  {
    hide ReadWord, FindStub, HostFor, OrWord, KeepsLoad;
    var word := ReadWord(w.mem, s.addr);
    RestoredLoad(s.picOffset);
    assert word == RestoredInstructions(4, s.picOffset)[0];
    assert Plus(s.addr, 8 + word % 0x1000) == s.slot;
  }

  lemma {:induction false} RunAbsolute(p: Program, w: World, s: Stub, cpu: Cpu)
    requires StubOk(p, w, s) && s.size == 12 && LinkOf(w.mem, s).ToGuest? && At(cpu, s.addr)
    ensures var w2 := Translated(Translated(w, s.addr), s.addr + 4); var r := Ticks(p, w, cpu, 2);
      r.Running? && r.world == w2 && JumpedTo(cpu, r.cpu, LinkOf(w.mem, s).target)
  {
    hide ReadWord, FindStub, HostFor, OrWord, KeepsLoad, HandleSvc;
    var w1 := Translated(w, s.addr);
    var c1 := Cpu(cpu.regs[PC := s.addr + 4][12 := s.slot], false);
    assert Plus(s.addr, 8 + LOAD_R12 % 0x1000) == s.addr + 8;
    assert Tick(p, w, cpu) == Running(w1, c1);
    assert Fetch(w1, s.addr + 4) == JUMP_R12;
    assert Tick(p, w1, c1) == Running(Translated(w1, s.addr + 4), BranchTo(c1, ReadWord(w.mem, s.slot)));
    TwoTicks(p, w, cpu, w1, c1);
  }

  lemma {:induction false} TwoTicks(p: Program, w: World, cpu: Cpu, w1: World, c1: Cpu)
    requires Tick(p, w, cpu) == Running(w1, c1) && Tick(p, w1, c1).Running?
    ensures Ticks(p, w, cpu, 2) == Tick(p, w1, c1)
  {
    hide Tick;
    assert Ticks(p, w1, c1, 1) == Tick(p, w1, c1);
  }

  /** The processor after the first instruction of a 16-byte stub, and after the second. */
  function PicLoaded(w: World, s: Stub, cpu: Cpu): Cpu
    requires InStub(s)
  {
    Cpu(cpu.regs[PC := s.addr + 4][12 := ReadWord(w.mem, s.addr + 12)], false)
  }

  function PicAdded(w: World, s: Stub, cpu: Cpu): Cpu
    requires InStub(s)
  {
    Cpu(PicLoaded(w, s, cpu).regs[PC := s.addr + 8][12 := s.slot], false)
  }

  predicate InStub(s: Stub) {
    s.addr + 16 <= ADDRESS_SPACE && s.slot < ADDRESS_SPACE
  }

  lemma {:induction false} PicLoad(p: Program, w: World, s: Stub, cpu: Cpu)
    requires StubOk(p, w, s) && s.size == 16 && LinkOf(w.mem, s).ToGuest? && At(cpu, s.addr)
    ensures InStub(s) && Tick(p, w, cpu) == Running(Translated(w, s.addr), PicLoaded(w, s, cpu))
  {
    hide ReadWord, FindStub, HostFor, OrWord, KeepsLoad, HandleSvc;
    assert Plus(s.addr, 8 + LOAD_R12_PIC % 0x1000) == s.addr + 12;
  }

  lemma {:induction false} PicAdd(p: Program, w: World, s: Stub, cpu: Cpu)
    requires StubOk(p, w, s) && s.size == 16 && LinkOf(w.mem, s).ToGuest? && InStub(s)
    ensures var w1 := Translated(w, s.addr);
      Tick(p, w1, PicLoaded(w, s, cpu)) == Running(Translated(w1, s.addr + 4), PicAdded(w, s, cpu))
  {
    hide ReadWord, FindStub, HostFor, OrWord, KeepsLoad, HandleSvc;
    var w1 := Translated(w, s.addr);
    assert Fetch(w1, s.addr + 4) == ADD_R12;
    assert Plus(ReadWord(w.mem, s.addr + 12), s.addr + 12) == s.slot;
  }

  lemma {:induction false} PicJump(p: Program, w: World, s: Stub, cpu: Cpu)
    requires StubOk(p, w, s) && s.size == 16 && LinkOf(w.mem, s).ToGuest? && InStub(s)
    ensures var w2 := Translated(Translated(w, s.addr), s.addr + 4);
      Tick(p, w2, PicAdded(w, s, cpu)) ==
        Running(Translated(w2, s.addr + 8), BranchTo(PicAdded(w, s, cpu), LinkOf(w.mem, s).target))
  {
    hide ReadWord, FindStub, HostFor, OrWord, KeepsLoad, HandleSvc;
    var w2 := Translated(Translated(w, s.addr), s.addr + 4);
    assert Fetch(w2, s.addr + 8) == JUMP_R12;
  }

  lemma {:induction false} RunPic(p: Program, w: World, s: Stub, cpu: Cpu)
    requires StubOk(p, w, s) && s.size == 16 && LinkOf(w.mem, s).ToGuest? && At(cpu, s.addr)
    ensures var w3 := Translated(Translated(Translated(w, s.addr), s.addr + 4), s.addr + 8);
      var r := Ticks(p, w, cpu, 3);
      r.Running? && r.world == w3 && JumpedTo(cpu, r.cpu, LinkOf(w.mem, s).target)
  {
    PicLoad(p, w, s, cpu);
    PicAdd(p, w, s, cpu);
    PicJump(p, w, s, cpu);
    hide ReadWord, Tick, StubOk, LinkOf, Translated;
    var w1 := Translated(w, s.addr);
    TwoTicks(p, w1, PicLoaded(w, s, cpu), Translated(w1, s.addr + 4), PicAdded(w, s, cpu));
  }

  /** A stub linked to guest code jumps there, in as many instructions as it has. */
  lemma {:induction false} LinkedStubJumps(p: Program, stubs: set<Stub>, w: World, s: Stub, cpu: Cpu)
    requires Inv(p, stubs, w) && s in stubs && LinkOf(w.mem, s).ToGuest? && At(cpu, s.addr)
    ensures var r := Ticks(p, w, cpu, |OriginalInstructions(s.size)|);
      r.Running? && Outside(stubs, w, r.world) && r.world.mem == w.mem && JumpedTo(cpu, r.cpu, LinkOf(w.mem, s).target)
  {
    hide ReadWord, Tick, StubOk, TrampolineOk;
    assert StubOk(p, w, s);
    if s.size == 4 {
      RunLoad(p, w, s, cpu);
    } else if s.size == 12 {
      RunAbsolute(p, w, s, cpu);
    } else {
      RunPic(p, w, s, cpu);
    }
  }

  /** Room for one more SVC number that leaves the return flag free. */
  predicate Room(w: World) {
    |w.linked| + SVC_LINKED_FUNCTIONS_BASE < SVC_LAZY_LINK_RET_FLAG
  }

  lemma {:induction false} ExtendsTransitive(p: Program, stubs: set<Stub>, u: World, v: World, w: World)
    requires Layout(p, stubs)
    requires (LayoutInBounds(p, stubs); Extends(stubs, u, v) && Extends(stubs, v, w))
    ensures (LayoutInBounds(p, stubs); Extends(stubs, u, w))
  {
    hide LinkOf, Sane;
    LayoutInBounds(p, stubs);
  }

  /** The tick that runs into the lazy linker's SVC links the stub to what a call of it would have reached anyway. */
  lemma {:induction false} LazyTick(p: Program, stubs: set<Stub>, w: World, s: Stub, cpu: Cpu)
    requires Inv(p, stubs, w) && s in stubs && Room(w) && At(cpu, s.addr) && LinkOf(w.mem, s) == Unlinked
    ensures var r := Tick(p, w, cpu);
      && !r.Elsewhere? && Inv(p, stubs, r.world) && Extends(stubs, w, r.world)
      && LinkOf(r.world.mem, s) != Unlinked && TargetOf(p, r.world, s) == TargetOf(p, w, s)
      && match TargetOf(p, w, s)
         case Guest(_) => r.Running? && r.cpu == cpu
         case Host(f) =>
           && r.AtHost? && r.f == f && r.cpu == Cpu(cpu.regs[PC := Plus(s.addr, 4)], false)
           && r.thenReturn == (s.size == 4)
  {
    hide ReadWord, StubOk, TrampolineOk, LazyLink, Resolve, Sane, LinkOf;
    LazyFetch(p, stubs, w, s);
    var w1 := Translated(w, s.addr);
    TranslatingIsOutside(stubs, w, s.addr);
    OutsideKeepsInv(p, stubs, w, w1);
    LinkingFixesTarget(p, stubs, w1, s);
    SameTarget(p, stubs, w, w1, s);
    var o := LazyLink(p, w1, s.addr);
    ExtendsTransitive(p, stubs, w, w1, o.world);
    assert cpu.regs[PC := Plus(s.addr, 4)][PC := s.addr] == cpu.regs;
    assert Plus(Plus(s.addr, 4), -4) == s.addr;
  }

  lemma {:induction false} LazyFetch(p: Program, stubs: set<Stub>, w: World, s: Stub)
    requires Inv(p, stubs, w) && s in stubs && LinkOf(w.mem, s) == Unlinked
    ensures StubOk(p, w, s) && Sane(p, s) && InBounds(s)
      && Fetch(w, s.addr) == SvcWord(if s.size == 4 then SVC_LAZY_LINK_RET_FLAG else SVC_LAZY_LINK)
  {
    hide ReadWord;
    assert StubOk(p, w, s);
  }

  /** Steps that leave links and trampolines alone do not change what a call reaches. */
  lemma {:induction false} SameTarget(p: Program, stubs: set<Stub>, w: World, w2: World, s: Stub)
    requires Inv(p, stubs, w) && Outside(stubs, w, w2) && s in stubs
    ensures StubOk(p, w, s) && StubOk(p, w2, s) && TargetOf(p, w2, s) == TargetOf(p, w, s)
  {
    hide ReadWord, KeepsLoad, FindStub, HostFor;
    assert StubOk(p, w, s);
    StubFrame(p, w, w2, s);
  }

  /**
   A call of a stub whose symbol means guest code arrives there, linking the stub on the way if need be,
   and with every register but r12 as it was.
   */
  lemma {:induction false} StubReachesGuest(p: Program, stubs: set<Stub>, w: World, s: Stub, cpu: Cpu, addr: Word)
    requires Inv(p, stubs, w) && s in stubs && Room(w) && At(cpu, s.addr)
    requires StubOk(p, w, s) && TargetOf(p, w, s) == Guest(addr)
    ensures var r := Ticks(p, w, cpu, |OriginalInstructions(s.size)| + if LinkOf(w.mem, s) == Unlinked then 1 else 0);
      && r.Running? && JumpedTo(cpu, r.cpu, addr)
      && Inv(p, stubs, r.world) && Extends(stubs, w, r.world) && LinkOf(r.world.mem, s) == ToGuest(addr)
    ensures StubNamed(p, s.addr, s.size, s.symbol)
    ensures LinkOf(w.mem, s) == Unlinked ==> Means(p, w, s.symbol, Guest(addr))
  {
    OwnSymbol(p, w, s);
    hide StubNamed, Means, HostMeaning;
    hide ReadWord, Tick, StubOk, TrampolineOk, Resolve, Sane, CodeOk;
    var n := |OriginalInstructions(s.size)|;
    StubInBounds(p, w, s);
    var lazy := LinkOf(w.mem, s) == Unlinked;
    if lazy {
      LazyTick(p, stubs, w, s, cpu);
    }
    var w1 := if lazy then Tick(p, w, cpu).world else w;
    LinkedStubJumps(p, stubs, w1, s, cpu);
    var w2 := Ticks(p, w1, cpu, n).world;
    OutsideKeepsInv(p, stubs, w1, w2);
    if lazy {
      ExtendsTransitive(p, stubs, w, w1, w2);
      assert Ticks(p, w, cpu, n + 1) == Ticks(p, w1, cpu, n);
    }
  }

  lemma {:induction false} LinkedStubCallsHost(p: Program, stubs: set<Stub>, w: World, s: Stub, cpu: Cpu,
      f: HostFunction)
    requires Inv(p, stubs, w) && s in stubs && At(cpu, s.addr) && StubOk(p, w, s)
    requires TargetOf(p, w, s) == Host(f) && LinkOf(w.mem, s) != Unlinked
    ensures f == HostFor(p, s.symbol)
    ensures var r := Tick(p, w, cpu);
      && r.AtHost? && r.f == f && r.cpu == Cpu(cpu.regs[PC := Plus(s.addr, 4)], false) && r.thenReturn == (s.size == 4)
      && Inv(p, stubs, r.world) && Extends(stubs, w, r.world) && LinkOf(r.world.mem, s).ToHost?
      && TargetOf(p, r.world, s) == Host(f)
  {
    hide ReadWord, TrampolineOk, FindStub, KeepsLoad, LazyLink, HostFor;
    var w1 := Translated(w, s.addr);
    TranslatingIsOutside(stubs, w, s.addr);
    OutsideKeepsInv(p, stubs, w, w1);
    HostFetch(p, w, s);
    SameTarget(p, stubs, w, w1, s);
  }

  lemma {:induction false} LazyStubCallsHost(p: Program, stubs: set<Stub>, w: World, s: Stub, cpu: Cpu,
      f: HostFunction)
    requires Inv(p, stubs, w) && s in stubs && Room(w) && At(cpu, s.addr) && StubOk(p, w, s)
    requires TargetOf(p, w, s) == Host(f) && LinkOf(w.mem, s) == Unlinked
    ensures f == HostFor(p, s.symbol)
    ensures var r := Tick(p, w, cpu);
      && r.AtHost? && r.f == f && r.cpu == Cpu(cpu.regs[PC := Plus(s.addr, 4)], false) && r.thenReturn == (s.size == 4)
      && Inv(p, stubs, r.world) && Extends(stubs, w, r.world) && LinkOf(r.world.mem, s).ToHost?
      && TargetOf(p, r.world, s) == Host(f)
  {
    LazyTick(p, stubs, w, s, cpu);
    hide ReadWord, TrampolineOk, FindStub, KeepsLoad, Tick, HostFor, Sane, LiteralOk, FreshStub;
  }

  /** A call of a stub whose symbol means host code calls that function first thing, all registers intact. */
  lemma {:induction false} StubCallsHost(p: Program, stubs: set<Stub>, w: World, s: Stub, cpu: Cpu, f: HostFunction)
    requires Inv(p, stubs, w) && s in stubs && Room(w) && At(cpu, s.addr)
    requires StubOk(p, w, s) && TargetOf(p, w, s) == Host(f)
    ensures var r := Tick(p, w, cpu);
      && r.AtHost? && r.f == f && r.cpu == Cpu(cpu.regs[PC := Plus(s.addr, 4)], false) && r.thenReturn == (s.size == 4)
      && Inv(p, stubs, r.world) && Extends(stubs, w, r.world) && LinkOf(r.world.mem, s).ToHost?
      && TargetOf(p, r.world, s) == Host(f)
    ensures StubNamed(p, s.addr, s.size, s.symbol) && HostMeaning(p, s.symbol, f)
    ensures LinkOf(w.mem, s) == Unlinked ==> Means(p, w, s.symbol, Host(f))
  {
    OwnSymbol(p, w, s);
    StubInBounds(p, w, s);
    hide StubNamed, Means, HostMeaning, Tick, ReadWord, StubOk, TrampolineOk, Inv, LinkOf, HostFor, Resolve, Extends,
      Sane;
    if LinkOf(w.mem, s) == Unlinked {
      LazyStubCallsHost(p, stubs, w, s, cpu, f);
    } else {
      LinkedStubCallsHost(p, stubs, w, s, cpu, f);
    }
  }

  lemma {:induction false} HostFetch(p: Program, w: World, s: Stub)
    requires StubOk(p, w, s) && LinkOf(w.mem, s).ToHost?
    ensures InBounds(s) && Fetch(w, s.addr) == SvcWord(SvcFor(s.size, LinkOf(w.mem, s).index).value)
    ensures s.size >= 12 ==> Fetch(w, s.addr + 4) == RET
  {
    hide ReadWord, FindStub, KeepsLoad, HostFor;
  }

  /**
   When the host function returns, whatever it did in between (it may have called guest code and so
   linked other stubs), control goes to the address in LR.
   */
  lemma {:induction false} HostCallReturns(p: Program, stubs: set<Stub>, w: World, s: Stub, cpu: Cpu)
    requires Inv(p, stubs, w) && s in stubs && LinkOf(w.mem, s).ToHost? && At(cpu, Plus(s.addr, 4))
    ensures var r := AfterHost(p, w, cpu, s.size == 4);
      r.Running? && r.cpu == BranchTo(cpu, cpu.regs[LR]) && Outside(stubs, w, r.world) && Inv(p, stubs, r.world)
  {
    hide ReadWord, StubOk, TrampolineOk, Sane;
    assert StubOk(p, w, s);
    HostFetch(p, w, s);
    hide LinkOf;
    if s.size != 4 {
      TranslatingIsOutside(stubs, w, s.addr + 4);
    }
    OutsideKeepsInv(p, stubs, w, AfterHost(p, w, cpu, s.size == 4).world);
  }

  // ----- trampolines

  lemma {:induction false} TrampolineCallsHost(p: Program, stubs: set<Stub>, w: World, key: string, cpu: Cpu)
    requires Inv(p, stubs, w) && key in w.nonLazy && At(cpu, w.nonLazy[key])
    ensures var r := Tick(p, w, cpu);
      && r.AtHost? && ProcMeaning(p, key, key, r.f) && !r.thenReturn
      && r.cpu == Cpu(cpu.regs[PC := w.nonLazy[key] + 4], false) && Outside(stubs, w, r.world) && Inv(p, stubs, r.world)
  {
    hide ReadWord, StubOk, LazyLink, FindHost;
    assert TrampolineOk(p, w, key);
    ProcForMeans(p, key, key, ProcFor(p, key).value.1);
    hide ProcMeaning;
    var a := w.nonLazy[key];
    TranslatingIsOutside(stubs, w, a);
    OutsideKeepsInv(p, stubs, w, Translated(w, a));
  }

  lemma {:induction false} TrampolineReturns(p: Program, stubs: set<Stub>, w: World, key: string, cpu: Cpu)
    requires Inv(p, stubs, w) && key in w.nonLazy && At(cpu, w.nonLazy[key] + 4)
    ensures var r := AfterHost(p, w, cpu, false);
      r.Running? && r.cpu == BranchTo(cpu, cpu.regs[LR]) && Outside(stubs, w, r.world) && Inv(p, stubs, r.world)
  {
    hide ReadWord, StubOk, HandleSvc, ProcFor;
    assert TrampolineOk(p, w, key);
    var a := w.nonLazy[key] + 4;
    TranslatingIsOutside(stubs, w, a);
    OutsideKeepsInv(p, stubs, w, Translated(w, a));
  }

  /** A block from the allocator: code-aligned, and apart from stubs, their pointers and other trampolines. */
  ghost predicate Unused(stubs: set<Stub>, w: World, block: nat) {
    block % 2 == 0 && block + 8 <= ADDRESS_SPACE && BlockApart(stubs, block) && BlockUnused(w, block)
  }

  lemma {:induction false} TrampolineMade(p: Program, stubs: set<Stub>, w: World, key: string, f: HostFunction,
      block: nat, w2: World)
    requires Inv(p, stubs, w) && Room(w) && Unused(stubs, w, block) && key !in w.nonLazy
      && ProcFor(p, key) == Some((key, f))
    requires w2.linked == w.linked + [(key, f)] && w2.nonLazy == w.nonLazy[key := block] && CacheFrom(w, w2)
    requires w2.mem == WriteWords(w.mem, block, [SvcWord(|w.linked| + SVC_LINKED_FUNCTIONS_BASE), RET])
    requires Fresh(w2, block) && Fresh(w2, block + 4)
    ensures Inv(p, stubs, w2) && Extends(stubs, w, w2)
  {
    hide ReadWord, WriteWords, StubOk, TrampolineOk, LinkOf, ProcFor, Sane;
    var code := [SvcWord(|w.linked| + SVC_LINKED_FUNCTIONS_BASE), RET];
    WriteWordsFrame(w.mem, block, code);
    WriteWordsCode(w.mem, block, code);
    forall t | t in stubs
      ensures StubOk(p, w2, t) && InBounds(t) && LinkOf(w2.mem, t) == LinkOf(w.mem, t)
    {
      StubInBounds(p, w, t);
      StubFrame(p, w, w2, t);
    }
    forall k | k in w.nonLazy
      ensures TrampolineOk(p, w2, k)
    {
      TrampolineFrame(p, w, w2, k);
    }
    NewTrampolineOk(p, w2, key, |w.linked|);
  }

  lemma {:induction false} NewTrampolineOk(p: Program, w: World, key: string, i: nat)
    requires key in w.nonLazy && var a := w.nonLazy[key];
      && a % 2 == 0 && a + 8 <= ADDRESS_SPACE && Fresh(w, a) && Fresh(w, a + 4)
      && i + SVC_LINKED_FUNCTIONS_BASE < SVC_LAZY_LINK_RET_FLAG
      && CodeIs(w.mem, a, [SvcWord(i + SVC_LINKED_FUNCTIONS_BASE), RET])
    requires i < |w.linked| && w.linked[i].0 == key && ProcFor(p, key) == Some(w.linked[i])
    ensures TrampolineOk(p, w, key)
  {
    hide ReadWord, ProcFor;
  }

  lemma {:induction false} ProcKeyStable(p: Program, symbol: string)
    requires ProcFor(p, symbol).Some?
    ensures ProcFor(p, ProcFor(p, symbol).value.0) == ProcFor(p, symbol)
  {
  }

  predicate IsTrampoline(w: World, key: string, addr: Word) {
    key in w.nonLazy && w.nonLazy[key] == addr
  }

  /** `create_proc_address` keeps the invariant, whatever the JIT had translated at the block before. */
  lemma {:induction false} ProcAddressKeepsInv(p: Program, stubs: set<Stub>, w: World, symbol: string, block: nat)
    requires Inv(p, stubs, w) && Room(w) && Unused(stubs, w, block)
    ensures var r := CreateProcAddress(p, w, symbol, block);
      && !r.Refused? && Inv(p, stubs, r.world) && Extends(stubs, w, r.world)
      && (r.Known? ==> exists key, f :: ProcMeaning(p, symbol, key, f) && IsTrampoline(r.world, key, r.addr))
      && (r.Unknown? ==> !exists key, f :: ProcMeaning(p, symbol, key, f))
  {
    ProcForMeansAll(p, symbol);
    hide ProcMeaning;
    hide ReadWord, WriteWords, StubOk, TrampolineOk, LinkOf, ProcFor, Sane;
    LayoutInBounds(p, stubs);
    var r := CreateProcAddress(p, w, symbol, block);
    if r.Known? {
      ProcKeyStable(p, symbol);
      var (key, f) := ProcFor(p, symbol).value;
      assert ProcMeaning(p, symbol, key, f) && IsTrampoline(r.world, key, r.addr);
      if key in w.nonLazy {
        OutsideKeepsInv(p, stubs, w, r.world);
      } else {
        TrampolineMade(p, stubs, w, key, f, block, r.world);
      }
    }
  }

  /** Before any code has run there is nothing to invalidate. */
  lemma {:induction false} EarlyProcAddressKeepsInv(p: Program, stubs: set<Stub>, w: World, symbol: string, block: nat)
    requires Inv(p, stubs, w) && Room(w) && Unused(stubs, w, block) && block !in w.cache && block + 4 !in w.cache
    ensures var r := CreateProcAddressNoInval(p, w, symbol, block);
      !r.Refused? && Inv(p, stubs, r.world) && Extends(stubs, w, r.world)
  {
    hide ReadWord, WriteWords, StubOk, TrampolineOk, LinkOf, ProcFor, Sane;
    LayoutInBounds(p, stubs);
    var r := CreateProcAddressNoInval(p, w, symbol, block);
    if r.Known? {
      ProcKeyStable(p, symbol);
      var (key, f) := ProcFor(p, symbol).value;
      if key !in w.nonLazy {
        TrampolineMade(p, stubs, w, key, f, block, r.world);
      }
    }
  }

  /**
   A symbol has one trampoline: asked again at any later time, the linker gives the same address and makes
   nothing.
   */
  lemma {:induction false} ProcAddressIsStable(p: Program, stubs: set<Stub>, w: World, symbol: string, block: nat,
      later: World, block2: nat)
    requires block + 8 <= ADDRESS_SPACE && block2 + 8 <= ADDRESS_SPACE
    requires var r := CreateProcAddressNoInval(p, w, symbol, block);
      r.Known? && (forall s :: s in stubs ==> InBounds(s)) && Extends(stubs, r.world, later)
    ensures CreateProcAddressNoInval(p, later, symbol, block2) ==
      Known(later, CreateProcAddressNoInval(p, w, symbol, block).addr)
  {
    hide ProcFor, CreateGuestFunction;
    var key := ProcFor(p, symbol).value.0;
    assert key in CreateProcAddressNoInval(p, w, symbol, block).world.nonLazy;
  }

  // ----- whole runs

  /** The lazy linker's SVCs are found in rewritten stubs only, not elsewhere in guest code. */
  ghost predicate LinkerCalledFromStub(stubs: set<Stub>, w: World, cpu: Cpu) {
    var pc := cpu.regs[PC];
    !cpu.thumb && pc + 4 <= ADDRESS_SPACE && Fetch(w, pc) in [SvcWord(SVC_LAZY_LINK),
      SvcWord(SVC_LAZY_LINK_RET_FLAG)] ==>
      exists s :: s in stubs && s.addr == pc
  }

  /** One turn of the emulator keeps the invariant, in whatever state the guest's registers are. */
  lemma {:induction false} TickKeepsInv(p: Program, stubs: set<Stub>, w: World, cpu: Cpu)
    requires Inv(p, stubs, w) && Room(w) && LinkerCalledFromStub(stubs, w, cpu) && !Tick(p, w, cpu).Elsewhere?
    ensures var w2 := Tick(p, w, cpu).world; Inv(p, stubs, w2) && Extends(stubs, w, w2)
  {
    hide ReadWord, StubOk, TrampolineOk, LinkOf, Sane, LazyLink;
    LayoutInBounds(p, stubs);
    var pc := cpu.regs[PC];
    var w1 := Translated(w, pc);
    TranslatingIsOutside(stubs, w, pc);
    OutsideKeepsInv(p, stubs, w, w1);
    if Fetch(w, pc) in [SvcWord(SVC_LAZY_LINK), SvcWord(SVC_LAZY_LINK_RET_FLAG)] {
      var s :| s in stubs && s.addr == pc;
      LinkerSvcMeansUnlinked(p, w, s);
      LazyTick(p, stubs, w, s, cpu);
    } else {
      OtherTick(p, w, cpu);
    }
  }

  lemma {:induction false} LinkerSvcMeansUnlinked(p: Program, w: World, s: Stub)
    requires StubOk(p, w, s) && Fetch(w, s.addr) in [SvcWord(SVC_LAZY_LINK), SvcWord(SVC_LAZY_LINK_RET_FLAG)]
    ensures InBounds(s) && LinkOf(w.mem, s) == Unlinked
  {
    hide ReadWord, FindStub, KeepsLoad, HostFor;
  }

  lemma {:induction false} OtherTick(p: Program, w: World, cpu: Cpu)
    requires !Tick(p, w, cpu).Elsewhere?
    requires Fetch(w, cpu.regs[PC]) !in [SvcWord(SVC_LAZY_LINK), SvcWord(SVC_LAZY_LINK_RET_FLAG)]
    ensures Tick(p, w, cpu).world == Translated(w, cpu.regs[PC])
  {
    hide ReadWord, LazyLink;
  }

  datatype Step = Turn(cpu: Cpu) | Proc(symbol: string, block: nat) | Other

  ghost predicate Next(p: Program, stubs: set<Stub>, w: World, step: Step, w2: World) {
    Room(w) && match step
      case Turn(cpu) => LinkerCalledFromStub(stubs, w, cpu) && !Tick(p, w, cpu).Elsewhere?
        && Tick(p, w, cpu).world == w2
      case Proc(symbol, block) => Unused(stubs, w, block) && !CreateProcAddress(p, w, symbol, block).Refused?
        && CreateProcAddress(p, w, symbol, block).world == w2
      case Other => Outside(stubs, w, w2)
  }

  /** `worlds` are the states after each of `steps`, starting from `w`. */
  ghost predicate Run(p: Program, stubs: set<Stub>, w: World, steps: seq<Step>, worlds: seq<World>)
    decreases |steps|
  {
    |worlds| == |steps| && (steps != [] ==>
      Next(p, stubs, w, steps[0], worlds[0]) && Run(p, stubs, worlds[0], steps[1..], worlds[1..]))
  }

  function EndOf(w: World, worlds: seq<World>): World {
    if worlds == [] then w else worlds[|worlds| - 1]
  }

  lemma {:induction false} NextKeepsInv(p: Program, stubs: set<Stub>, w: World, step: Step, w2: World)
    requires Inv(p, stubs, w) && Next(p, stubs, w, step, w2)
    ensures Inv(p, stubs, w2) && Extends(stubs, w, w2)
  {
    hide StubOk, TrampolineOk, LinkOf, Tick, CreateProcAddress, Sane, Outside, Unused, LinkerCalledFromStub;
    LayoutInBounds(p, stubs);
    match step
    case Turn(cpu) => TickKeepsInv(p, stubs, w, cpu);
    case Proc(symbol, block) => ProcAddressKeepsInv(p, stubs, w, symbol, block);
    case Other => OutsideKeepsInv(p, stubs, w, w2);
  }

  /** Over any run the invariant holds, and nothing that was linked, numbered or cached is lost. */
  lemma {:induction false} RunKeepsInv(p: Program, stubs: set<Stub>, w: World, steps: seq<Step>, worlds: seq<World>)
    requires Inv(p, stubs, w) && Run(p, stubs, w, steps, worlds)
    ensures Inv(p, stubs, EndOf(w, worlds)) && Extends(stubs, w, EndOf(w, worlds))
    decreases |steps|
  {
    hide StubOk, TrampolineOk, LinkOf, Next, Sane;
    LayoutInBounds(p, stubs);
    if steps != [] {
      NextKeepsInv(p, stubs, w, steps[0], worlds[0]);
      RunKeepsInv(p, stubs, worlds[0], steps[1..], worlds[1..]);
      assert EndOf(worlds[0], worlds[1..]) == EndOf(w, worlds);
      ExtendsTransitive(p, stubs, w, worlds[0], EndOf(w, worlds));
    }
  }

  /** A linked stub never changes its target, however long the emulator runs. */
  lemma {:induction false} LinkedTargetIsFinal(p: Program, stubs: set<Stub>, w: World, steps: seq<Step>,
      worlds: seq<World>, s: Stub)
    requires Inv(p, stubs, w) && Run(p, stubs, w, steps, worlds) && s in stubs
    requires StubOk(p, w, s) && LinkOf(w.mem, s) != Unlinked
    ensures var end := EndOf(w, worlds); StubOk(p, end, s) && TargetOf(p, end, s) == TargetOf(p, w, s)
  {
    hide ReadWord, FindStub, KeepsLoad, HostFor, Run, TrampolineOk;
    RunKeepsInv(p, stubs, w, steps, worlds);
    assert StubOk(p, EndOf(w, worlds), s);
  }

  /**
   A whole call of a stub whose symbol means host code: the host function of that symbol is called first
   thing with all registers intact; whatever the emulator does until it returns, linking and running other
   code included, control then goes to the address in LR, and the next call will be for the same function.
   */
  lemma {:induction false} HostCallFromStart(p: Program, stubs: set<Stub>, w: World, s: Stub, cpu: Cpu, f: HostFunction,
                                             steps: seq<Step>, worlds: seq<World>, later: Cpu)
    requires Inv(p, stubs, w) && s in stubs && Room(w) && At(cpu, s.addr) && StubOk(p, w, s)
      && TargetOf(p, w, s) == Host(f)
    requires !Tick(p, w, cpu).Elsewhere? && Run(p, stubs, Tick(p, w, cpu).world, steps, worlds)
    requires At(later, Plus(s.addr, 4))
    ensures StubNamed(p, s.addr, s.size, s.symbol) && HostMeaning(p, s.symbol, f)
    ensures var r := Tick(p, w, cpu);
      && r.AtHost? && r.f == f && r.cpu == Cpu(cpu.regs[PC := Plus(s.addr, 4)], false)
      && var back := AfterHost(p, EndOf(r.world, worlds), later, r.thenReturn);
      && back.Running? && back.cpu == BranchTo(later, later.regs[LR])
      && Inv(p, stubs, back.world) && Extends(stubs, w, back.world)
      && StubOk(p, back.world, s) && TargetOf(p, back.world, s) == Host(f)
  {
    hide ReadWord, StubOk, TrampolineOk, LinkOf, FindStub, KeepsLoad, HostFor, Tick, AfterHost, Run, TargetOf, Sane,
      Outside, StubNamed, HostMeaning, Means;
    StubCallsHost(p, stubs, w, s, cpu, f);
    StubInBounds(p, w, s);
    var r := Tick(p, w, cpu);
    var end := EndOf(r.world, worlds);
    StubHolds(p, stubs, r.world, s);
    RunKeepsInv(p, stubs, r.world, steps, worlds);
    LinkedTargetIsFinal(p, stubs, r.world, steps, worlds, s);
    HostCallReturns(p, stubs, end, s, later);
    var back := AfterHost(p, end, later, r.thenReturn);
    OutsideKeepsInv(p, stubs, end, back.world);
    SameTarget(p, stubs, end, back.world, s);
    ExtendsTransitive(p, stubs, w, r.world, end);
    ExtendsTransitive(p, stubs, w, end, back.world);
  }

  lemma {:induction false} StubHolds(p: Program, stubs: set<Stub>, w: World, s: Stub)
    requires Inv(p, stubs, w) && s in stubs
    ensures StubOk(p, w, s)
  {
  }

  // ----- the 4-byte stub's pointer

  /** The pointer of the stub with index `i` is the entry with index `i + 2` of the lazy pointer section. */
  lemma {:induction false} SlotIsTwoPast(w: World, bin: Binary, section: StubSection, i: nat, target: Word)
    requires bin.lazyPointers.Some? && section.addr <= bin.lazyPointers.value < section.addr + 0x1000
    requires section.addr + 4 * i + 4 <= ADDRESS_SPACE && bin.lazyPointers.value + 4 * (i + 2) + 4 <= ADDRESS_SPACE
    requires Disjoint(bin.lazyPointers.value + 4 * (i + 2), 4, section.addr + 4 * i, 4)
    ensures var o := RestoreStub(w, section.addr + 4 * i, 4, PicOffset(bin, section), target);
      o.Ok? && ReadWord(o.world.mem, bin.lazyPointers.value + 4 * (i + 2)) == target
  {
    hide WriteWord, ReadWord, OrWord;
    var offset := PicOffset(bin, section);
    RestoredLoad(offset);
    var mem := WriteWords(w.mem, section.addr + 4 * i, RestoredInstructions(4, offset));
    WriteWordsCode(w.mem, section.addr + 4 * i, RestoredInstructions(4, offset));
    assert SlotIn(mem, section.addr + 4 * i, 4) == bin.lazyPointers.value + 4 * (i + 2);
  }

  // ----- loading a binary

  /** The stub at an entry, as memory describes it before it is rewritten. */
  function StubAt(p: Program, mem: Ram, a: nat, size: nat): Stub
    requires size in {4, 12, 16} && a + size <= ADDRESS_SPACE
  {
    var found := FindStub(p.bins, a);
    var symbol := if found.Some? && found.value.symbol.Some? then found.value.symbol.value else "";
    var picOffset := if found.Some? then found.value.picOffset else 0;
    var slot :=
      if size == 12 then ReadWord(mem, a + 8)
      else if size == 4 then Plus(a, picOffset % 0x1000 + 8)
      else Plus(a + 12, ReadWord(mem, a + 12));
    Stub(a, size, symbol, picOffset, slot)
  }

  /** The entries of a stub section that look like stubs. */
  function StubsOf(p: Program, mem: Ram, a: nat, size: nat, count: nat): set<Stub>
    requires size in {4, 12, 16} && a + size * count <= ADDRESS_SPACE
    decreases count
  {
    if count == 0 then {}
    else
      var rest := StubsOf(p, mem, a + size, size, count - 1);
      if LooksLikeStub(mem, a, size) then {StubAt(p, mem, a, size)} + rest else rest
  }

  lemma {:induction false} StubsOfFrame(p: Program, m: Ram, n: Ram, a: nat, size: nat, count: nat)
    requires size in {4, 12, 16} && a + size * count <= ADDRESS_SPACE && SameRange(m, n, a, size * count)
    ensures StubsOf(p, m, a, size, count) == StubsOf(p, n, a, size, count)
    decreases count
  {
    hide StubAt, LooksLikeStub, ReadWord;
    if count > 0 {
      EntryFrame(p, m, n, a, size);
      assert a + size + size * (count - 1) == a + size * count;
      StubsOfFrame(p, m, n, a + size, size, count - 1);
    }
  }

  lemma {:induction false} EntryFrame(p: Program, m: Ram, n: Ram, a: nat, size: nat)
    requires size in {4, 12, 16} && a + size <= ADDRESS_SPACE && SameRange(m, n, a, size)
    ensures LooksLikeStub(m, a, size) == LooksLikeStub(n, a, size) && StubAt(p, m, a, size) == StubAt(p, n, a, size)
  {
    hide ReadWord;
    SameWord(m, n, a);
    if size >= 12 {
      SameWord(m, n, a + 4);
      SameWord(m, n, a + 8);
      assert WordsAt(m, a, 2) == WordsAt(n, a, 2);
    }
    if size == 16 {
      SameWord(m, n, a + 12);
      assert WordsAt(m, a, 3) == WordsAt(n, a, 3);
    }
  }

  lemma {:induction false} StubsOfAddresses(p: Program, mem: Ram, a: nat, size: nat, count: nat)
    requires size in {4, 12, 16} && a + size * count <= ADDRESS_SPACE
    ensures forall s :: s in StubsOf(p, mem, a, size, count) ==> s.addr >= a
    decreases count
  {
    hide StubAt, LooksLikeStub;
    if count > 0 {
      assert a + size + size * (count - 1) == a + size * count;
      AddressOfStub(p, mem, a, size);
      StubsOfAddresses(p, mem, a + size, size, count - 1);
    }
  }

  /** Before anything is loaded there is nothing to keep. */
  lemma {:induction false} NothingLoaded(p: Program, mem: Ram)
    ensures Inv(p, {}, World(mem, map[], [], map[]))
  {
  }

  /** Rewriting one more entry before any code has run. */
  lemma {:induction false} SetupEntryKeepsInv(p: Program, stubs: set<Stub>, w: World, a: nat, size: nat, s: Stub)
    requires size in {4, 12, 16} && a + size <= ADDRESS_SPACE && s == StubAt(p, w.mem, a, size)
    requires Inv(p, stubs, w) && w.cache == map[] && LooksLikeStub(w.mem, a, size) && s !in stubs
    requires Layout(p, stubs + {s}) && forall key :: key in w.nonLazy ==> BlockApart({s}, w.nonLazy[key])
    ensures var w2 := w.(mem := SetupEntry(w.mem, a, size));
      && Inv(p, stubs + {s}, w2) && Extends(stubs, w, w2) && LinkOf(w2.mem, s) == Unlinked
      && forall t :: t in stubs ==> LinkOf(w2.mem, t) == LinkOf(w.mem, t)
  {
    hide ReadWord, WriteWords, StubOk, TrampolineOk, LinkOf, Sane;
    var mem := SetupEntry(w.mem, a, size);
    var w2 := w.(mem := mem);
    WriteWordsFrame(w.mem, a, LazyInstructions(size));
    WriteWordsCode(w.mem, a, LazyInstructions(size));
    assert s in stubs + {s};
    SaneInBounds(p, s);
    forall t | t in stubs
      ensures StubOk(p, w2, t) && InBounds(t) && LinkOf(w2.mem, t) == LinkOf(w.mem, t)
    {
      StubInBounds(p, w, t);
      assert Apart(s, t);
      StubFrame(p, w, w2, t);
    }
    forall key | key in w.nonLazy
      ensures TrampolineOk(p, w2, key)
    {
      assert BlockApart({s}, w.nonLazy[key]) && s in {s};
      TrampolineFrame(p, w, w2, key);
    }
    NewStubOk(p, w, w2, a, size, s);
  }

  lemma {:induction false} NewStubOk(p: Program, w: World, w2: World, a: nat, size: nat, s: Stub)
    requires size in {4, 12, 16} && a + size <= ADDRESS_SPACE && s == StubAt(p, w.mem, a, size) && Sane(p, s)
      && w2.cache == map[]
    requires SameOutside(w.mem, w2.mem, a, a + 4 * |LazyInstructions(size)|)
      && CodeIs(w2.mem, a, LazyInstructions(size))
    ensures StubOk(p, w2, s) && LinkOf(w2.mem, s) == Unlinked
  {
    hide ReadWord, FindStub, KeepsLoad;
    if size == 12 {
      SameWord(w.mem, w2.mem, a + 8);
    } else if size == 16 {
      SameWord(w.mem, w2.mem, a + 12);
    }
  }

  /** After `setup_lazy_linking` every entry that looked like a stub is one that waits to be linked. */
  lemma {:induction false} SetupKeepsInv(p: Program, stubs: set<Stub>, w: World, a: nat, size: nat, count: nat)
    requires size in {4, 12, 16} && a + size * count <= ADDRESS_SPACE
    requires Inv(p, stubs, w) && w.cache == map[] && stubs !! StubsOf(p, w.mem, a, size, count)
    requires Layout(p, stubs + StubsOf(p, w.mem, a, size, count))
    requires forall key :: key in w.nonLazy ==> BlockApart(StubsOf(p, w.mem, a, size, count), w.nonLazy[key])
    ensures var w2 := w.(mem := SetupEntries(w.mem, a, size, count)); var added := StubsOf(p, w.mem, a, size, count);
      && Inv(p, stubs + added, w2) && Extends(stubs, w, w2)
      && (forall s :: s in added ==> LinkOf(w2.mem, s) == Unlinked)
      && (forall t :: t in stubs ==> LinkOf(w2.mem, t) == LinkOf(w.mem, t))
    decreases count
  {
    hide StubOk, TrampolineOk, LinkOf, Sane, ReadWord, WriteWords, StubAt, LooksLikeStub;
    var added := StubsOf(p, w.mem, a, size, count);
    if count == 0 {
      assert stubs + added == stubs;
      LayoutInBounds(p, stubs);
    } else {
      assert a + size + size * (count - 1) == a + size * count;
      var rest := StubsOf(p, w.mem, a + size, size, count - 1);
      var mem := SetupEntry(w.mem, a, size);
      var w1 := w.(mem := mem);
      if LooksLikeStub(w.mem, a, size) {
        WriteWordsFrame(w.mem, a, LazyInstructions(size));
        var s := StubAt(p, w.mem, a, size);
        assert added == {s} + rest;
        SubLayout(p, stubs + {s}, stubs + added);
        SetupEntryKeepsInv(p, stubs, w, a, size, s);
        StubsOfFrame(p, w.mem, mem, a + size, size, count - 1);
        StubsOfAddresses(p, w.mem, a + size, size, count - 1);
        assert s.addr == a by { AddressOfStub(p, w.mem, a, size); }
        assert (stubs + {s}) + rest == stubs + added;
        SetupKeepsInv(p, stubs + {s}, w1, a + size, size, count - 1);
        ExtendsTransitive(p, stubs, w, w1, w1.(mem := SetupEntries(mem, a + size, size, count - 1)));
      } else {
        SetupKeepsInv(p, stubs, w, a + size, size, count - 1);
      }
    }
  }

  lemma {:induction false} AddressOfStub(p: Program, mem: Ram, a: nat, size: nat)
    requires size in {4, 12, 16} && a + size <= ADDRESS_SPACE
    ensures StubAt(p, mem, a, size).addr == a
  {
  }

  lemma {:induction false} SubLayout(p: Program, small: set<Stub>, big: set<Stub>)
    requires Layout(p, big) && small <= big
    ensures Layout(p, small)
  {
  }

  // ----- restoring undoes rewriting

  lemma {:induction false} SameBytes(m: Ram, n: Ram, a: nat)
    requires a + 4 <= ADDRESS_SPACE && ReadWord(m, a) == ReadWord(n, a)
    ensures SameRange(m, n, a, 4)
  {
    var x, y := m[a..a + 4], n[a..a + 4];
    assert x[0] == y[0] && x[1] == y[1] && x[2] == y[2] && x[3] == y[3];
    assert m[a] == x[0] && m[a + 1] == x[1] && m[a + 2] == x[2] && m[a + 3] == x[3];
    assert n[a] == y[0] && n[a + 1] == y[1] && n[a + 2] == y[2] && n[a + 3] == y[3];
  }

  /** Linking a 12 or 16-byte stub to guest code leaves memory as it was before setup, but for the pointer. */
  lemma {:induction false} RestoringUndoesSetup(w: World, a: nat, size: nat, picOffset: Word, target: Word)
    requires size in {12, 16} && a + size <= ADDRESS_SPACE && LooksLikeStub(w.mem, a, size)
    requires SlotIn(w.mem, a, size) + 4 <= ADDRESS_SPACE
    ensures var o := RestoreStub(w.(mem := SetupEntry(w.mem, a, size)), a, size, picOffset, target);
      o.Ok? && o.world.mem == WriteWord(w.mem, SlotIn(w.mem, a, size), target)
  {
    hide ReadWord, WriteWord, WriteWords;
    var code, lazy := OriginalInstructions(size), LazyInstructions(size);
    var rewritten := WriteWords(w.mem, a, lazy);
    var restored := WriteWords(rewritten, a, code);
    WriteWordsFrame(w.mem, a, lazy);
    WriteWordsFrame(rewritten, a, code);
    WriteWordsCode(rewritten, a, code);
    StubWords(w.mem, a, size);
    SameBytes(restored, w.mem, a);
    SameBytes(restored, w.mem, a + 4);
    if size == 16 {
      SameBytes(restored, w.mem, a + 8);
    }
    assert restored == w.mem;
  }

  lemma {:induction false} StubWords(mem: Ram, a: nat, size: nat)
    requires size in {12, 16} && a + size <= ADDRESS_SPACE && LooksLikeStub(mem, a, size)
    ensures CodeIs(mem, a, OriginalInstructions(size))
  {
    hide ReadWord;
    assert WordsAt(mem, a, 2)[0] == ReadWord(mem, a) && WordsAt(mem, a, 2)[1] == ReadWord(mem, a + 4);
    if size == 16 {
      assert WordsAt(mem, a, 3)[0] == ReadWord(mem, a) && WordsAt(mem, a, 3)[1] == ReadWord(mem, a + 4)
        && WordsAt(mem, a, 3)[2] == ReadWord(mem, a + 8);
    }
  }

  // ----- which entries are rewritten

  /** The words of a stub that is to be linked lazily; four bytes are always one. */
  predicate HasStubCode(mem: Ram, a: nat, size: nat)
    requires a + size <= ADDRESS_SPACE && size in {4, 12, 16}
  {
    && (size == 12 ==> ReadWord(mem, a) == 0xE59F_C000 && ReadWord(mem, a + 4) == 0xE59C_F000)
    && (size == 16 ==> ReadWord(mem, a) == 0xE59F_C004 && ReadWord(mem, a + 4) == 0xE08F_C00C)
    && (size == 16 ==> ReadWord(mem, a + 8) == 0xE59C_F000)
  }

  /** An SVC that calls the linker, then a return, then a trap, as far as there is room. */
  predicate HasLazyCode(mem: Ram, a: nat, size: nat)
    requires a + size <= ADDRESS_SPACE && size in {4, 12, 16}
  {
    && ReadWord(mem, a) == (if size == 4 then 0xEF80_0000 else 0xEF00_0000)
    && (size >= 12 ==> ReadWord(mem, a + 4) == 0xE12F_FF1E)
    && (size == 16 ==> ReadWord(mem, a + 8) == 0xE7FF_DEFE)
  }

  lemma {:induction false} StubCodeLooks(mem: Ram, a: nat, size: nat)
    requires a + size <= ADDRESS_SPACE && size in {4, 12, 16}
    ensures LooksLikeStub(mem, a, size) <==> HasStubCode(mem, a, size)
  {
    hide ReadWord;
    if size == 12 {
      assert WordsAt(mem, a, 2) == [ReadWord(mem, a), ReadWord(mem, a + 4)];
    } else if size == 16 {
      assert WordsAt(mem, a, 3) == [ReadWord(mem, a), ReadWord(mem, a + 4), ReadWord(mem, a + 8)];
    }
  }

  lemma {:induction false} SetsUpEntry(mem: Ram, a: nat, size: nat)
    requires a + size <= ADDRESS_SPACE && size in {4, 12, 16}
    ensures var m := SetupEntry(mem, a, size);
      && SameOutside(mem, m, a, a + size)
      && (HasStubCode(mem, a, size) ==> HasLazyCode(m, a, size)) && (!HasStubCode(mem, a, size) ==> m == mem)
  {
    StubCodeLooks(mem, a, size);
    WriteWordsFrame(mem, a, LazyInstructions(size));
    WriteWordsCode(mem, a, LazyInstructions(size));
    hide ReadWord, WriteWords, LooksLikeStub;
  }

  /** Every entry with the code of a stub is rewritten to call the linker; every other one, and all else, stays. */
  lemma {:induction false} SetsUpEntries(mem: Ram, a: nat, size: nat, count: nat, k: nat)
    requires size in {4, 12, 16} && a + size * count <= ADDRESS_SPACE && k < count
      && a + size * k + size <= ADDRESS_SPACE
    ensures var m := SetupEntries(mem, a, size, count); var e := a + size * k;
      && SameOutside(mem, m, a, a + size * count)
      && (HasStubCode(mem, e, size) ==> HasLazyCode(m, e, size))
      && (!HasStubCode(mem, e, size) ==> SameRange(mem, m, e, size))
    decreases count
  {
    hide ReadWord, SetupEntry, HasStubCode, HasLazyCode;
    var m1 := SetupEntry(mem, a, size);
    SetsUpEntry(mem, a, size);
    assert a + size + size * (count - 1) == a + size * count;
    SetupStaysOutside(m1, a + size, size, count - 1);
    var m := SetupEntries(m1, a + size, size, count - 1);
    if k == 0 {
      SameCode(m1, m, a, size);
    } else {
      assert a + size + size * (k - 1) == a + size * k && size * (k - 1) + size <= size * (count - 1);
      SetsUpEntries(m1, a + size, size, count - 1, k - 1);
      SameCode(mem, m1, a + size * k, size);
    }
  }

  lemma {:induction false} SetupStaysOutside(mem: Ram, a: nat, size: nat, count: nat)
    requires size in {4, 12, 16} && a + size * count <= ADDRESS_SPACE
    ensures SameOutside(mem, SetupEntries(mem, a, size, count), a, a + size * count)
    decreases count
  {
    hide SetupEntry;
    if count > 0 {
      assert a + size + size * (count - 1) == a + size * count;
      SetsUpEntry(mem, a, size);
      SetupStaysOutside(SetupEntry(mem, a, size), a + size, size, count - 1);
    }
  }

  lemma {:induction false} SameCode(m: Ram, n: Ram, a: nat, size: nat)
    requires size in {4, 12, 16} && a + size <= ADDRESS_SPACE && SameRange(m, n, a, size)
    ensures HasStubCode(m, a, size) == HasStubCode(n, a, size) && HasLazyCode(m, a, size) == HasLazyCode(n, a, size)
  {
    hide ReadWord;
    SameWord(m, n, a);
    if size >= 12 {
      SameWord(m, n, a + 4);
      SameWord(m, n, a + 8);
    }
  }
}
