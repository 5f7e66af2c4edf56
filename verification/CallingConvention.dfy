/**
 Argument and return-value passing between guest and host code (src/abi.rs).
 Arguments fill r0-r3 and then the stack, word by word and without doubleword
 alignment; one argument may be split between the two.
 */
module CallingConvention {
  import opened GuestMemory

  // ----- argument types

  /** `bytes` is 1, 2, 4 or 8. Pointers and `f32` travel as `Unsigned(4)`, `f64` as `Unsigned(8)`. */
  datatype ArgType = Unsigned(bytes: nat) | Signed(bytes: nat) | Boolean | Aggregate(words: nat)
  {
    predicate Valid() {
      match this
      case Unsigned(b) => b in {1, 2, 4, 8}
      case Signed(b) => b in {1, 2, 4, 8}
      case Boolean => true
      case Aggregate(n) => n <= 16
    }

    function RegCount(): (n: nat)
      ensures Valid() ==> n <= 16
    {
      match this
      case Unsigned(b) => if b == 8 then 2 else 1
      case Signed(b) => if b == 8 then 2 else 1
      case Boolean => 1
      case Aggregate(n) => n
    }
  }

  datatype Value = Number(n: int) | Words(ws: seq<Word>)

  datatype Arg = Arg(type_: ArgType, value: Value)
  {
    ghost predicate Valid() {
      type_.Valid() && match type_
        case Unsigned(b) => value.Number? && 0 <= value.n < Span(b)
        case Signed(b) => value.Number? && -Span(b) <= 2 * value.n < Span(b)
        case Boolean => value.Number? && value.n in {0, 1}
        case Aggregate(n) => value.Words? && |value.ws| == n
    }
  }

  /** Number of values of an integer of so many bytes. */
  function Span(bytes: nat): int {
    if bytes == 1 then 0x100 else if bytes == 2 then 0x1_0000 else if bytes == 4 then 0x1_0000_0000
      else 0x1_0000_0000_0000_0000
  }

  function Doubleword(v: int): seq<Word> {
    [v % 0x1_0000_0000, (v / 0x1_0000_0000) % 0x1_0000_0000]
  }

  /** `GuestArg::to_regs`; `as u32` wraps, so a negative number is sign-extended. */
  function ToRegs(arg: Arg): (ws: seq<Word>)
    requires arg.Valid()
    ensures |ws| == arg.type_.RegCount()
  {
    match arg.value
    case Words(ws) => ws
    case Number(n) => if arg.type_.RegCount() == 2 then Doubleword(n) else [n % 0x1_0000_0000]
  }

  function Reinterpret(u: int, span: int): int
    requires span > 0
  {
    var r := u % span;
    if 2 * r >= span then r - span else r
  }

  /** `GuestArg::from_regs`; narrowing casts drop the high bits. */
  function FromRegs(t: ArgType, ws: seq<Word>): Value
    requires t.Valid() && |ws| == t.RegCount()
  {
    match t
    case Aggregate(_) => Words(ws)
    case Boolean => Number(if ws[0] != 0 then 1 else 0)
    case Unsigned(b) => Number(Whole(t, ws) % Span(b))
    case Signed(b) => Number(Reinterpret(Whole(t, ws), Span(b)))
  }

  function Whole(t: ArgType, ws: seq<Word>): int
    requires t.Valid() && |ws| == t.RegCount() && (t.Unsigned? || t.Signed?)
  {
    if |ws| == 2 then ws[0] as int + 0x1_0000_0000 * (ws[1] as int) else ws[0]
  }

  lemma {:induction false} DoublewordValue(n: int)
    requires -0x8000_0000_0000_0000 <= n < 0x1_0000_0000_0000_0000
    ensures var ws := Doubleword(n);
      ws[0] as int + 0x1_0000_0000 * (ws[1] as int) == if n < 0 then n + 0x1_0000_0000_0000_0000 else n
  {
    if n < 0 {
      assert n / 0x1_0000_0000 + 0x1_0000_0000 == (n / 0x1_0000_0000) % 0x1_0000_0000;
    }
  }

  lemma {:induction false} SignedDoubleword(n: int)
    requires -Span(8) <= 2 * n < Span(8)
    ensures var ws := Doubleword(n); Reinterpret(ws[0] as int + 0x1_0000_0000 * (ws[1] as int), Span(8)) == n
  {
    DoublewordValue(n);
  }

  lemma {:induction false} SignedRoundTrip(b: nat, n: int)
    requires b in {1, 2, 4} && -Span(b) <= 2 * n < Span(b)
    ensures Reinterpret(n % 0x1_0000_0000, Span(b)) == n
  {
    if n < 0 {
      assert n % 0x1_0000_0000 == n + 0x1_0000_0000;
      assert b == 1 ==> (n + 0x1_0000_0000) % 0x100 == n + 0x100;
      assert b == 2 ==> (n + 0x1_0000_0000) % 0x1_0000 == n + 0x1_0000;
    }
  }

  lemma {:induction false} UnsignedRoundTrip(b: nat, n: int)
    requires b in {1, 2, 4} && 0 <= n < Span(b)
    ensures (n % 0x1_0000_0000) % Span(b) == n
  {
  }

  lemma {:induction false} UnsignedDoubleword(n: int)
    requires 0 <= n < Span(8)
    ensures var ws := Doubleword(n); (ws[0] as int + 0x1_0000_0000 * (ws[1] as int)) % Span(8) == n
  {
    DoublewordValue(n);
  }

  lemma {:induction false} ArgRoundTrip(arg: Arg)
    requires arg.Valid()
    ensures FromRegs(arg.type_, ToRegs(arg)) == arg.value
  {
    hide Span, Reinterpret, Doubleword;
    match arg.type_
    case Aggregate(_) =>
    case Boolean =>
    case Unsigned(b) =>
      if b == 8 {
        UnsignedDoubleword(arg.value.n);
      } else {
        UnsignedRoundTrip(b, arg.value.n);
      }
    case Signed(b) =>
      if b == 8 {
        SignedDoubleword(arg.value.n);
      } else {
        SignedRoundTrip(b, arg.value.n);
      }
  }

  /**
   The words for an argument, as the AAPCS has them: short integers are extended to a word by their sign; of a
   doubleword the low half comes first; structures go word by word.
   */
  lemma {:induction false} RegistersHold(arg: Arg)
    requires arg.Valid()
    ensures var ws := ToRegs(arg);
      match arg.type_
      case Aggregate(_) => ws == arg.value.ws
      case Unsigned(8) => |ws| == 2 && ws[0] as int + 0x1_0000_0000 * (ws[1] as int) == arg.value.n
      case Signed(8) => |ws| == 2 && ws[0] as int + 0x1_0000_0000 * (ws[1] as int) ==
        if arg.value.n < 0 then arg.value.n + 0x1_0000_0000_0000_0000 else arg.value.n
      case _ => |ws| == 1 && ws[0] as int == if arg.value.n < 0 then arg.value.n + 0x1_0000_0000 else arg.value.n
  {
    match arg.type_
    case Unsigned(b) => if b == 8 { DoublewordValue(arg.value.n); }
    case Signed(b) => if b == 8 { DoublewordValue(arg.value.n); }
    case _ =>
  }

  function Power(bytes: nat): int {
    if bytes == 0 then 1 else 0x100 * Power(bytes - 1)
  }

  lemma {:induction false} SpanIsPower(b: nat)
    requires b in {1, 2, 4, 8}
    ensures Span(b) == Power(b)
  {
    assert Power(4) == 0x100 * (0x100 * (0x100 * (0x100 * Power(0))));
    assert Power(8) == 0x100 * (0x100 * (0x100 * (0x100 * Power(4))));
  }

  /** Integers of one, two, four or eight bytes can be passed, with or without sign, in their whole range. */
  lemma {:induction false} ValidIntegers(b: nat, n: int)
    ensures Arg(Unsigned(b), Number(n)).Valid() <==> b in {1, 2, 4, 8} && 0 <= n < Power(b)
    ensures Arg(Signed(b), Number(n)).Valid() <==> b in {1, 2, 4, 8} && -Power(b) <= 2 * n < Power(b)
  {
    if b in {1, 2, 4, 8} {
      SpanIsPower(b);
    }
  }

  /**
   `n` differs from `u` in high bits only, and is in the range of an integer of so many bytes, with or
   without sign.
   */
  ghost predicate Truncates(u: int, bytes: nat, signed: bool, n: int) {
    && (exists k {:trigger Wrapped(u, bytes, k)} :: n == Wrapped(u, bytes, k))
    && if signed then -Span(bytes) <= 2 * n < Span(bytes) else 0 <= n < Span(bytes)
  }

  /** Whatever words a caller has put there, what is read is their low bits, in the range of the type. */
  lemma {:induction false} ReadMeans(t: ArgType, ws: seq<Word>)
    requires t.Valid() && |ws| == t.RegCount()
    ensures match t
      case Aggregate(_) => FromRegs(t, ws) == Words(ws)
      case Boolean => FromRegs(t, ws) == Number(if ws[0] == 0 then 0 else 1)
      case Unsigned(b) => FromRegs(t, ws).Number? && Truncates(Joined(ws), b, false, FromRegs(t, ws).n)
      case Signed(b) => FromRegs(t, ws).Number? && Truncates(Joined(ws), b, true, FromRegs(t, ws).n)
  {
    match t
    case Unsigned(b) => TruncatesUnsigned(Joined(ws), b);
    case Signed(b) => TruncatesSigned(Joined(ws), b);
    case _ =>
  }

  function Joined(ws: seq<Word>): int
    requires |ws| == 1 || |ws| == 2
  {
    if |ws| == 1 then ws[0] else ws[0] as int + 0x1_0000_0000 * (ws[1] as int)
  }

  function Wrapped(u: int, bytes: nat, k: int): int {
    u + k * Span(bytes)
  }

  lemma {:induction false} Remainder(u: int, b: nat)
    requires b in {1, 2, 4, 8}
    ensures u % Span(b) == Wrapped(u, b, -(u / Span(b))) && 0 <= u % Span(b) < Span(b)
    ensures u % Span(b) - Span(b) == Wrapped(u, b, -(u / Span(b)) - 1)
  {
    if b == 1 {
      assert u == u / 0x100 * 0x100 + u % 0x100;
    } else if b == 2 {
      assert u == u / 0x1_0000 * 0x1_0000 + u % 0x1_0000;
    } else if b == 4 {
      assert u == u / 0x1_0000_0000 * 0x1_0000_0000 + u % 0x1_0000_0000;
    } else {
      assert u == u / 0x1_0000_0000_0000_0000 * 0x1_0000_0000_0000_0000 + u % 0x1_0000_0000_0000_0000;
    }
  }

  lemma {:induction false} TruncatesUnsigned(u: int, b: nat)
    requires b in {1, 2, 4, 8}
    ensures Truncates(u, b, false, u % Span(b))
  {
    Remainder(u, b);
    hide Span, Wrapped;
  }

  lemma {:induction false} TruncatesSigned(u: int, b: nat)
    requires b in {1, 2, 4, 8}
    ensures Truncates(u, b, true, Reinterpret(u, Span(b)))
  {
    Remainder(u, b);
    hide Span, Wrapped;
  }

  /** A variable argument list: where the next argument word is. */
  datatype VaList = VaList(regOffset: nat, stackPointer: Word)

  /** `VaList::from_regs`: the guest passes a pointer to the arguments, which are all in memory. */
  function VaListFromRegs(ws: seq<Word>): VaList
    requires |ws| == 1
  {
    VaList(4, ws[0])
  }

  /** `VaList::to_regs` leaves the word as `write_next_arg` has it, which is zero. */
  function VaListToRegs(va: VaList): seq<Word> {
    [0]
  }

  /** A list is read back from the word written for it exactly if it is at address zero: the host cannot pass one. */
  lemma {:induction false} VaListRoundTrip(va: VaList)
    ensures VaListFromRegs(VaListToRegs(va)) == va <==> va.regOffset == 4 && va.stackPointer == 0
  {
    assert VaListFromRegs(VaListToRegs(va)) == VaList(4, 0);
  }

  // ----- where argument words live

  /** Argument word `k`: r0-r3 first, then the stack upwards from `sp`. */
  function Slot(regs: Registers, mem: Ram, sp: nat, k: nat): Word
    requires k >= 4 ==> sp + 4 * (k - 4) + 4 <= ADDRESS_SPACE
  {
    if k < 4 then regs[k] else ReadWord(mem, sp + 4 * (k - 4))
  }

  /** `n` argument words fit below the end of memory. */
  predicate Fits(sp: nat, n: nat) {
    n > 4 ==> sp + 4 * (n - 4) <= ADDRESS_SPACE
  }

  /** The argument words from number `off` on are `words`. */
  ghost predicate Holds(regs: Registers, mem: Ram, sp: nat, off: nat, words: seq<Word>)
    requires Fits(sp, off + |words|)
  {
    forall k :: off <= k < off + |words| ==> Slot(regs, mem, sp, k) == words[k - off]
  }

  /** The first `n` argument words, as far as they are in memory, are the same in two states. */
  ghost predicate SameSlots(r0: Registers, m0: Ram, r1: Registers, m1: Ram, sp: nat, n: nat) {
    forall k :: 0 <= k < n && Fits(sp, k + 1) ==> Slot(r1, m1, sp, k) == Slot(r0, m0, sp, k)
  }

  /** Only argument registers differ. */
  ghost predicate SameHighRegs(r0: Registers, r1: Registers) {
    forall r :: 4 <= r < 16 ==> r1[r] == r0[r]
  }

  ghost predicate AllValid(args: seq<Arg>) {
    forall a :: a in args ==> a.Valid()
  }

  ghost function Flatten(args: seq<Arg>): (ws: seq<Word>)
    requires AllValid(args)
    ensures |ws| == RegCounts(Types(args))
  {
    if args == [] then []
    else
      assert Types(args)[1..] == Types(args[1..]);
      ToRegs(args[0]) + Flatten(args[1..])
  }

  function Types(args: seq<Arg>): (ts: seq<ArgType>)
    ensures |ts| == |args| && forall i :: 0 <= i < |ts| ==> ts[i] == args[i].type_
  {
    if args == [] then [] else [args[0].type_] + Types(args[1..])
  }

  function RegCounts(types: seq<ArgType>): nat {
    if types == [] then 0 else types[0].RegCount() + RegCounts(types[1..])
  }

  function Values(args: seq<Arg>): (vs: seq<Value>)
    ensures |vs| == |args| && forall i :: 0 <= i < |vs| ==> vs[i] == args[i].value
  {
    if args == [] then [] else [args[0].value] + Values(args[1..])
  }

  lemma {:induction false} FlattenAppend(xs: seq<Arg>, ys: seq<Arg>)
    requires AllValid(xs) && AllValid(ys)
    ensures AllValid(xs + ys) && Flatten(xs + ys) == Flatten(xs) + Flatten(ys)
  {
    if xs == [] {
      assert xs + ys == ys;
    } else {
      assert (xs + ys)[1..] == xs[1..] + ys;
      FlattenAppend(xs[1..], ys);
    }
  }

  lemma {:induction false} HoldsJoin(regs: Registers, mem: Ram, sp: nat, off: nat, xs: seq<Word>, ys: seq<Word>)
    requires Fits(sp, off + |xs| + |ys|)
    ensures Holds(regs, mem, sp, off, xs + ys) <==>
      Holds(regs, mem, sp, off, xs) && Holds(regs, mem, sp, off + |xs|, ys)
  {
    if Holds(regs, mem, sp, off, xs + ys) {
      forall k | off <= k < off + |xs|
        ensures Slot(regs, mem, sp, k) == xs[k - off]
      {
        assert (xs + ys)[k - off] == xs[k - off];
      }
      forall k | off + |xs| <= k < off + |xs| + |ys|
        ensures Slot(regs, mem, sp, k) == ys[k - (off + |xs|)]
      {
        assert (xs + ys)[k - off] == ys[k - (off + |xs|)];
      }
    }
  }

  lemma {:induction false} HoldsUnique(regs: Registers, mem: Ram, sp: nat, off: nat, xs: seq<Word>, ys: seq<Word>)
    requires |xs| == |ys| && Fits(sp, off + |xs|)
    requires Holds(regs, mem, sp, off, xs) && Holds(regs, mem, sp, off, ys)
    ensures xs == ys
  {
    forall k | 0 <= k < |xs|
      ensures xs[k] == ys[k]
    {
      assert Slot(regs, mem, sp, off + k) == xs[k];
    }
  }

  lemma {:induction false} FlattenFirst(args: seq<Arg>, tail: seq<Word>)
    requires AllValid(args) && args != []
    ensures Types(args) == [args[0].type_] + Types(args[1..])
    ensures Flatten(args) + tail == ToRegs(args[0]) + (Flatten(args[1..]) + tail)
    ensures |Flatten(args)| == |ToRegs(args[0])| + |Flatten(args[1..])|
  {
  }

  lemma {:induction false} NextOfList(args: seq<Arg>)
    requires AllValid(args) && args != []
    ensures args[0].Valid() && AllValid(args[1..]) && Flatten(args) == ToRegs(args[0]) + Flatten(args[1..])
    ensures Types(args)[0] == args[0].type_ && Types(args)[1..] == Types(args[1..])
    ensures RegCounts(Types(args)) == args[0].type_.RegCount() + RegCounts(Types(args[1..]))
    ensures Values(args) == [args[0].value] + Values(args[1..])
  {
  }

  lemma {:induction false} FirstArgument(regs: Registers, mem: Ram, sp: nat, off: nat, args: seq<Arg>, tail: seq<Word>)
    requires AllValid(args) && args != [] && Fits(sp, off + RegCounts(Types(args)) + |tail|)
    requires Holds(regs, mem, sp, off, Flatten(args) + tail)
    ensures Types(args) == [args[0].type_] + Types(args[1..])
    ensures Holds(regs, mem, sp, off, ToRegs(args[0]))
    ensures Holds(regs, mem, sp, off + |ToRegs(args[0])|, Flatten(args[1..]) + tail)
  {
    FlattenFirst(args, tail);
    HoldsJoin(regs, mem, sp, off, ToRegs(args[0]), Flatten(args[1..]) + tail);
  }

  lemma {:induction false} StillHolds(r0: Registers, m0: Ram, r1: Registers, m1: Ram, sp: nat, off: nat, ws: seq<Word>)
    requires Fits(sp, off + |ws|) && Holds(r0, m0, sp, off, ws) && SameSlots(r0, m0, r1, m1, sp, off + |ws|)
    ensures Holds(r1, m1, sp, off, ws)
  {
    hide Slot;
    forall k | off <= k < off + |ws|
      ensures Slot(r1, m1, sp, k) == ws[k - off]
    {
      assert Slot(r0, m0, sp, k) == ws[k - off];
    }
  }

  // ----- the emulated machine

  datatype Snapshot = Snapshot(regs: Registers, thumb: bool, mem: Ram)

  /** How a host function returns: in registers, or through an implicit pointer in r0. */
  datatype ReturnType = Nothing | InRegs(t: ArgType) | InMemory(size: nat)

  datatype Return = NoValue | Register(v: Value) | Block(bytes: seq<Byte>)

  /** The argument words taken by the implicit return pointer. */
  function Implicit(ret: ReturnType): nat {
    if ret.InMemory? then 1 else 0
  }

  /** `r` is a result of the declared kind. Only structures larger than a word are returned in memory. */
  ghost predicate Returns(ret: ReturnType, r: Return) {
    match ret
    case Nothing => r.NoValue?
    case InRegs(t) => r.Register? && Arg(t, r.v).Valid() && t.RegCount() <= 4
    case InMemory(size) => r.Block? && |r.bytes| == size && size >= 4
  }

  /** Bytes below the entry stack pointer that a host-implemented call may write. */
  function Room(argWords: nat, ret: ReturnType): nat {
    (if ret.InMemory? then ret.size else 0) + if argWords > 4 then 4 * (argWords - 4) else 0
  }

  class Machine {
    var regs: Registers
    var thumb: bool
    var mem: Ram

    constructor (regs: Registers, thumb: bool, mem: Ram)
      ensures this.regs == regs && this.thumb == thumb && this.mem == mem
    {
      this.regs, this.thumb, this.mem := regs, thumb, mem;
    }

    /** Reads the words of one argument (`read_next_arg`). */
    method ReadWords(regOffset: nat, sp: Word, count: nat) returns (words: seq<Word>, next: nat)
      requires Fits(sp, regOffset + count)
      ensures next == regOffset + count && |words| == count
      ensures Holds(regs, mem, sp, regOffset, words)
    {
      words, next := [], regOffset;
      for i := 0 to count
        invariant next == regOffset + i && |words| == i
        invariant Holds(regs, mem, sp, regOffset, words)
      {
        var word := if next < 4 then regs[next] else ReadWord(mem, sp + 4 * (next - 4));
        words := words + [word];
        next := next + 1;
      }
    }

    /** Makes room for stack arguments; returns the stack pointer to restore. */
    method ExtendStackForArgs(regCountSum: nat) returns (oldSp: Word)
      requires regCountSum > 4 ==> 4 * (regCountSum - 4) <= regs[SP]
      modifies this`regs
      ensures oldSp == old(regs[SP])
      ensures regs == old(regs)[SP := oldSp - if regCountSum > 4 then 4 * (regCountSum - 4) else 0]
    {
      oldSp := regs[SP];
      if regCountSum > 4 {
        regs := regs[SP := regs[SP] - 4 * (regCountSum - 4)];
      }
    }

    /** Writes the words of one argument (`write_next_arg`). */
    method WriteWords(regOffset: nat, words: seq<Word>) returns (next: nat)
      requires Fits(regs[SP], regOffset + |words|)
      modifies this`regs, this`mem
      ensures next == regOffset + |words|
      ensures SameHighRegs(old(regs), regs)
      ensures Holds(regs, mem, regs[SP], regOffset, words)
      ensures SameSlots(old(regs), old(mem), regs, mem, regs[SP], regOffset)
      ensures SameOutside(old(mem), mem, regs[SP], regs[SP] as int + 4 * (next - 4))
    {
      next := regOffset;
      for i := 0 to |words|
        invariant next == regOffset + i
        invariant SameHighRegs(old(regs), regs)
        invariant Holds(regs, mem, regs[SP], regOffset, words[..i])
        invariant SameSlots(old(regs), old(mem), regs, mem, regs[SP], regOffset)
        invariant SameOutside(old(mem), mem, regs[SP], regs[SP] as int + 4 * (next - 4))
      {
        StoreSlot(next, words[i]);
        next := next + 1;
      }
    }

    method StoreSlot(k: nat, w: Word)
      requires Fits(regs[SP], k + 1)
      modifies this`regs, this`mem
      ensures SameHighRegs(old(regs), regs)
      ensures Slot(regs, mem, regs[SP], k) == w
      ensures forall j: nat :: j != k && Fits(regs[SP], j + 1) ==>
        Slot(regs, mem, regs[SP], j) == old(Slot(regs, mem, regs[SP], j))
      ensures forall a ::
        0 <= a < ADDRESS_SPACE && !(k >= 4 && regs[SP] as int + 4 * (k - 4) <= a < regs[SP] as int + 4 * (k - 3)) ==>
        mem[a] == old(mem[a])
    {
      if k < 4 {
        regs := regs[k := w];
      } else {
        ghost var before := mem;
        mem := WriteWord(mem, regs[SP] + 4 * (k - 4), w);
        forall j: nat | j != k && Fits(regs[SP], j + 1)
          ensures Slot(regs, mem, regs[SP], j) == Slot(regs, before, regs[SP], j)
        {
          if j >= 4 {
            SameWord(mem, before, regs[SP] + 4 * (j - 4));
          }
        }
      }
    }

    /** Writes all arguments in order. */
    method WriteArgs(regOffset: nat, args: seq<Arg>) returns (next: nat)
      requires AllValid(args) && Fits(regs[SP], regOffset + RegCounts(Types(args)))
      modifies this`regs, this`mem
      ensures next == regOffset + RegCounts(Types(args))
      ensures SameHighRegs(old(regs), regs)
      ensures Holds(regs, mem, regs[SP], regOffset, Flatten(args))
      ensures SameSlots(old(regs), old(mem), regs, mem, regs[SP], regOffset)
      ensures SameOutside(old(mem), mem, regs[SP], regs[SP] as int + 4 * (next - 4))
      decreases |args|
    {
      next := regOffset;
      if args == [] {
        assert Flatten(args) == [];
      } else {
        NextOfList(args);
        hide Slot, Flatten, Types, RegCounts, AllValid, ToRegs;
        next := WriteWords(next, ToRegs(args[0]));
        ghost var regs1, mem1 := regs, mem;
        next := WriteArgs(next, args[1..]);
        StillHolds(regs1, mem1, regs, mem, regs[SP], regOffset, ToRegs(args[0]));
        HoldsJoin(regs, mem, regs[SP], regOffset, ToRegs(args[0]), Flatten(args[1..]));
      }
    }

    /** Reads arguments of the given types in order; whatever follows them stays in place. */
    method ReadArgs(regOffset: nat, sp: Word, types: seq<ArgType>, ghost args: seq<Arg>, ghost tail: seq<Word>)
      returns (values: seq<Value>, next: nat)
      requires AllValid(args) && types == Types(args) && Fits(sp, regOffset + RegCounts(types) + |tail|)
      requires Holds(regs, mem, sp, regOffset, Flatten(args) + tail)
      ensures next == regOffset + RegCounts(types) && values == Values(args)
      ensures Holds(regs, mem, sp, next, tail)
      decreases |types|
    {
      values, next := [], regOffset;
      if types == [] {
        assert Flatten(args) + tail == tail;
      } else {
        FirstArgument(regs, mem, sp, regOffset, args, tail);
        var words, others;
        words, next := ReadWords(next, sp, types[0].RegCount());
        HoldsUnique(regs, mem, sp, regOffset, words, ToRegs(args[0]));
        ArgRoundTrip(args[0]);
        others, next := ReadArgs(next, sp, types[1..], args[1..], tail);
        values := [FromRegs(types[0], words)] + others;
      }
    }

    /** `VaList::next`: the next variadic argument, wherever it is. */
    method NextVariadic(va: VaList, t: ArgType, ghost arg: Arg, ghost tail: seq<Word>) returns (v: Value, rest: VaList)
      requires arg.Valid() && arg.type_ == t && Fits(va.stackPointer, va.regOffset + t.RegCount() + |tail|)
      requires Holds(regs, mem, va.stackPointer, va.regOffset, ToRegs(arg) + tail)
      ensures v == arg.value && rest == va.(regOffset := va.regOffset + t.RegCount())
      ensures Holds(regs, mem, va.stackPointer, rest.regOffset, tail)
    {
      assert Types([arg]) == [t] && Flatten([arg]) == ToRegs(arg);
      assert RegCounts([t]) == t.RegCount();
      var values, next := ReadArgs(va.regOffset, va.stackPointer, [t], [arg], tail);
      assert values == Values([arg]);
      return values[0], va.(regOffset := next);
    }

    /** A variadic host function: its named arguments, then as many others as it asks for. */
    method ReadVariadic(named: seq<ArgType>, others: seq<ArgType>, ghost args: seq<Arg>, ghost extra: seq<Arg>)
      returns (values: seq<Value>, more: seq<Value>)
      requires AllValid(args) && AllValid(extra) && named == Types(args) && others == Types(extra)
      requires Fits(regs[SP], RegCounts(named) + RegCounts(others))
      requires Holds(regs, mem, regs[SP], 0, Flatten(args) + Flatten(extra))
      ensures values == Values(args) && more == Values(extra)
    {
      var regOffset;
      values, regOffset := ReadArgs(0, regs[SP], named, args, Flatten(extra));
      var va := VaList(regOffset, regs[SP]);
      more, va := ReadList(va, others, extra);
    }

    /** Arguments asked for one after the other. */
    method ReadList(list: VaList, types: seq<ArgType>, ghost args: seq<Arg>) returns (values: seq<Value>, va: VaList)
      requires AllValid(args) && types == Types(args) && Fits(list.stackPointer, list.regOffset + RegCounts(types))
      requires Holds(regs, mem, list.stackPointer, list.regOffset, Flatten(args))
      ensures values == Values(args) && va == list.(regOffset := list.regOffset + RegCounts(types))
      decreases |types|
    {
      values, va := [], list;
      if types != [] {
        NextOfList(args);
        var v, others;
        v, va := NextVariadic(va, types[0], args[0], Flatten(args[1..]));
        others, va := ReadList(va, types[1..], args[1..]);
        values := [v] + others;
      }
    }

    /** A host function that is given a list as a pointer: the arguments laid out from there on. */
    method ReadPassedList(pointer: Word, types: seq<ArgType>, ghost args: seq<Arg>) returns (values: seq<Value>)
      requires AllValid(args) && types == Types(args) && pointer + 4 * RegCounts(types) <= ADDRESS_SPACE
      requires forall k :: 0 <= k < RegCounts(types) ==> ReadWord(mem, pointer + 4 * k) == Flatten(args)[k]
      ensures values == Values(args)
    {
      var va := VaListFromRegs([pointer]);
      forall k | 4 <= k < 4 + RegCounts(types)
        ensures Slot(regs, mem, pointer, k) == Flatten(args)[k - 4]
      {
      }
      values, va := ReadList(va, types, args);
    }

    /** The adapter that lets guest code call a host function (`call_from_guest`). */
    method CallFromGuest(f: seq<Value> -> Return, types: seq<ArgType>, ret: ReturnType, ghost pointer: Word,
        ghost args: seq<Arg>)
      requires AllValid(args) && types == Types(args) && Returns(ret, f(Values(args)))
      requires Fits(regs[SP], Implicit(ret) + RegCounts(types))
      requires ret.InMemory? ==> regs[0] == pointer && pointer + ret.size <= ADDRESS_SPACE
      requires Holds(regs, mem, regs[SP], Implicit(ret), Flatten(args))
      modifies this`regs, this`mem
      ensures SameHighRegs(old(regs), regs)
      ensures match f(Values(args))
        case NoValue => regs == old(regs) && mem == old(mem)
        case Register(v) => mem == old(mem) && regs[..ret.t.RegCount()] == ToRegs(Arg(ret.t, v))
        case Block(bytes) => regs == old(regs) && mem == WriteBytes(old(mem), pointer, bytes)
    {
      var regOffset, sp := 0, regs[SP];
      var pointerWords: seq<Word> := [];
      if ret.InMemory? {
        pointerWords, regOffset := ReadWords(regOffset, sp, 1);
        assert Slot(regs, mem, sp, 0) == pointerWords[0];
      }
      assert Flatten(args) + [] == Flatten(args);
      var values;
      values, regOffset := ReadArgs(regOffset, sp, types, args, []);
      match f(values)
      case NoValue =>
      case Register(v) => regs := ToRegs(Arg(ret.t, v)) + regs[ret.t.RegCount()..];
      case Block(bytes) => mem := WriteBytes(mem, pointerWords[0], bytes);
    }

    /**
     Host code calls a host function as if it were guest code. The implicit
     return pointer is not counted when the stack is extended, so the last
     argument word may land in the return buffer; the call still passes every
     argument and returns the result, restores the stack pointer and touches
     nothing at or above it.
     */
    method CallHostFunction(f: seq<Value> -> Return, args: seq<Arg>, ret: ReturnType) returns (r: Return)
      requires AllValid(args) && Returns(ret, f(Values(args)))
      requires Room(RegCounts(Types(args)), ret) <= regs[SP]
      modifies this`regs, this`mem
      ensures r == f(Values(args))
      ensures SameHighRegs(old(regs), regs)
      ensures SameOutside(old(mem), mem, old(regs[SP]) - Room(RegCounts(Types(args)), ret), old(regs[SP]))
    {
      hide Flatten, ToRegs, FromRegs, AllValid, ReadWord, Values, Types, RegCounts;
      var regOffset, pointer := 0, 0;
      if ret.InMemory? {
        regs := regs[SP := regs[SP] - ret.size];
        pointer := regs[SP];
        regOffset := WriteWords(regOffset, [pointer]);
        assert Slot(regs, mem, regs[SP], 0) == pointer;
      }
      var oldSp := ExtendStackForArgs(RegCounts(Types(args)));
      assert Implicit(ret) == 1 ==> Slot(regs, mem, regs[SP], 0) == pointer;
      regOffset := WriteArgs(regOffset, args);
      assert Implicit(ret) == 1 ==> Slot(regs, mem, regs[SP], 0) == pointer;
      CallFromGuest(f, Types(args), ret, pointer, args);
      regs := regs[SP := oldSp];
      match ret
      case Nothing => r := NoValue;
      case InRegs(t) =>
        ArgRoundTrip(Arg(t, f(Values(args)).v));
        r := Register(FromRegs(t, regs[..t.RegCount()]));
      case InMemory(size) =>
        regs := regs[SP := regs[SP] + size];
        r := Block(mem[pointer..pointer + size]);
    }

    /** PC with the Thumb bit set as the CPU mode says. */
    function PcWithThumbBit(): Word
      reads this
    {
      if thumb && regs[PC] % 2 == 0 then regs[PC] + 1 else regs[PC]
    }

    method Branch(f: Word)
      modifies this`regs, this`thumb
      ensures regs == old(regs)[PC := f - f % 2] && thumb == (f % 2 == 1)
    {
      regs, thumb := regs[PC := f - f % 2], f % 2 == 1;
    }

    /** A stack frame that makes stack traces work: the old frame pointer and return address. */
    method PushFrame(oldLr: Word)
      requires 8 <= regs[SP] <= ADDRESS_SPACE
      modifies this`regs, this`mem
      ensures regs == old(regs)[SP := old(regs[SP]) - 8][FRAME_POINTER := old(regs[SP]) - 8]
      ensures ReadWord(mem, old(regs[SP]) - 8) == old(regs[FRAME_POINTER])
      ensures ReadWord(mem, old(regs[SP]) - 4) == oldLr
      ensures SameOutside(old(mem), mem, old(regs[SP]) - 8, old(regs[SP]))
    {
      var oldFp := regs[FRAME_POINTER];
      regs := regs[SP := regs[SP] - 8];
      regs := regs[FRAME_POINTER := regs[SP]];
      mem := WriteWord(mem, regs[SP], oldFp);
      ReadElsewhere(mem, regs[SP] + 4, oldLr, regs[SP]);
      mem := WriteWord(mem, regs[SP] + 4, oldLr);
    }

    /** What a guest function called with `args` finds when it starts, its caller's stack pointer being `callerSp`. */
    ghost predicate Entered(s: Snapshot, f: Word, returnRoutine: Word, args: seq<Arg>, callerSp: Word, callerFp: Word,
        callerLr: Word)
      requires AllValid(args) && 8 <= callerSp <= ADDRESS_SPACE
    {
      && s.regs[PC] == f - f % 2 && s.thumb == (f % 2 == 1) && s.regs[LR] == returnRoutine
      && s.regs[SP] == callerSp - 8 - Room(RegCounts(Types(args)), Nothing)
      && Fits(s.regs[SP], RegCounts(Types(args))) && Holds(s.regs, s.mem, s.regs[SP], 0, Flatten(args))
      && s.regs[FRAME_POINTER] == callerSp - 8
      && ReadWord(s.mem, callerSp - 8) == callerFp && ReadWord(s.mem, callerSp - 4) == callerLr
    }

    method EnterGuestFunction(f: Word, returnRoutine: Word, args: seq<Arg>)
      requires AllValid(args) && 8 + Room(RegCounts(Types(args)), Nothing) <= regs[SP] <= ADDRESS_SPACE
      modifies this
      ensures Entered(Snapshot(regs, thumb, mem), f, returnRoutine, args, old(regs[SP]), old(regs[FRAME_POINTER]),
        old(regs[LR]))
      ensures SameOutside(old(mem), mem, regs[SP], old(regs[SP]))
    {
      hide ReadWord, WriteWord, Flatten, ToRegs;
      var oldLr := regs[LR];
      Branch(f);
      regs := regs[LR := returnRoutine];
      PushFrame(oldLr);
      ghost var framed, frame := mem, regs[SP];
      var _ := ExtendStackForArgs(RegCounts(Types(args)));
      var _ := WriteArgs(0, args);
      SameWord(framed, mem, frame);
      SameWord(framed, mem, frame + 4);
    }

    /**
     Host code calls a guest function: `run` is whatever the guest code, and the
     threads scheduled meanwhile, do until the return-to-host routine is reached.
     */
    method CallGuestFunction(f: Word, returnRoutine: Word, args: seq<Arg>, ret: ReturnType, run: Snapshot -> Snapshot)
      returns (entered: Snapshot, r: Return)
      requires AllValid(args) && !ret.InMemory? && (ret.InRegs? ==> ret.t.Valid() && ret.t.RegCount() <= 4)
      requires 8 + Room(RegCounts(Types(args)), Nothing) <= regs[SP] <= ADDRESS_SPACE
      modifies this
      ensures Entered(entered, f, returnRoutine, args, old(regs[SP]), old(regs[FRAME_POINTER]), old(regs[LR]))
      ensures SameOutside(old(mem), entered.mem, entered.regs[SP], old(regs[SP]))
      ensures mem == run(entered).mem && thumb == (old(PcWithThumbBit()) % 2 == 1)
      ensures regs == run(entered).regs[PC := old(regs[PC]) - old(regs[PC]) % 2][LR := old(regs[LR])][SP :=
        old(regs[SP])][FRAME_POINTER := old(regs[FRAME_POINTER])]
      ensures r == if ret.InRegs? then Register(FromRegs(ret.t, run(entered).regs[..ret.t.RegCount()])) else NoValue
    {
      hide ReadWord, Flatten, ToRegs, FromRegs, Entered;
      var oldPc, oldLr, oldSp, oldFp := PcWithThumbBit(), regs[LR], regs[SP], regs[FRAME_POINTER];
      EnterGuestFunction(f, returnRoutine, args);
      entered := Snapshot(regs, thumb, mem);
      var after := run(entered);
      regs, thumb, mem := after.regs, after.thumb, after.mem;
      Branch(oldPc);
      regs := regs[LR := oldLr][SP := oldSp][FRAME_POINTER := oldFp];
      match ret
      case InRegs(t) =>
        assert regs[..t.RegCount()] == after.regs[..t.RegCount()];
        r := Register(FromRegs(t, regs[..t.RegCount()]));
      case _ =>
        r := NoValue;
    }
  }
}
