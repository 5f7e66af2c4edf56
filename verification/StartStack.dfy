/**
 Initial stack of the main thread (src/stack.rs): the strings at the very top
 of the address space, below them the table of argc and string pointers. The
 image is built back to front and big-endian, then copied in reverse.
 */
module StartStack {
  import opened GuestMemory

  const MAIN_THREAD_STACK_SIZE: nat := 1024 * 1024

  type Bytes = seq<Byte>

  // ----- the intended image

  function Reverse(s: Bytes): (r: Bytes)
    ensures |r| == |s|
  {
    if s == [] then [] else [s[|s| - 1]] + Reverse(s[..|s| - 1])
  }

  /** NUL-terminated strings, the first one at the highest address. */
  function Block(strings: seq<Bytes>): Bytes {
    if strings == [] then []
    else strings[|strings| - 1] + [0] + Block(strings[..|strings| - 1])
  }

  /** Address of string `k` of a block that ends where memory ends. */
  function Pointer(strings: seq<Bytes>, k: nat): int
    requires k < |strings|
  {
    ADDRESS_SPACE - |Block(strings[..k + 1])|
  }

  function Pointers(strings: seq<Bytes>, lo: nat, hi: nat): seq<int>
    requires lo <= hi <= |strings|
  {
    seq(hi - lo, k requires 0 <= k < hi - lo => Pointer(strings, lo + k))
  }

  /** argc, argv, envp, 0, apple, 0. Nothing terminates argv. */
  function Table(argv: seq<Bytes>, envp: seq<Bytes>, apple: seq<Bytes>): (t: seq<int>)
    ensures |t| == |argv| + |envp| + |apple| + 3
  {
    var all := argv + envp + apple;
    var n, m := |argv|, |argv| + |envp|;
    [n] + Pointers(all, 0, n) + Pointers(all, n, m) + [0] + Pointers(all, m, |all|) + [0]
  }

  function Padding(n: nat): nat {
    if n % 4 != 0 then 4 - n % 4 else 0
  }

  function Height(argv: seq<Bytes>, envp: seq<Bytes>, apple: seq<Bytes>): nat {
    var size := |Block(argv + envp + apple)|;
    4 * (|argv| + |envp| + |apple| + 3) + size + Padding(size)
  }

  function Encode(words: seq<Word>): (b: Bytes)
    ensures |b| == 4 * |words|
  {
    if words == [] then [] else LittleEndian(words[0]) + Encode(words[1..])
  }

  function BigEndian(w: Word): Bytes {
    var b := LittleEndian(w);
    [b[3], b[2], b[1], b[0]]
  }

  // ----- building it

  lemma {:induction false} ReverseAppend(s: Bytes, t: Bytes)
    ensures Reverse(s + t) == Reverse(t) + Reverse(s)
  {
    if t == [] {
      assert s + t == s;
    } else {
      assert (s + t)[..|s + t| - 1] == s + t[..|t| - 1];
      ReverseAppend(s, t[..|t| - 1]);
    }
  }

  lemma {:induction false} ReverseAt(s: Bytes, i: nat)
    requires i < |s|
    ensures Reverse(s)[i] == s[|s| - 1 - i]
  {
    if i > 0 {
      ReverseAt(s[..|s| - 1], i - 1);
    }
  }

  lemma {:induction false} ReverseBigEndian(w: Word)
    ensures Reverse(BigEndian(w)) == LittleEndian(w)
  {
    var s := BigEndian(w);
    forall i | 0 <= i < 4
      ensures Reverse(s)[i] == LittleEndian(w)[i]
    {
      ReverseAt(s, i);
    }
  }

  lemma {:induction false} ReverseZeros(n: nat)
    ensures Reverse(seq(n, _ => 0)) == seq(n, _ => 0)
  {
    var s: Bytes := seq(n, _ => 0);
    forall i | 0 <= i < n
      ensures Reverse(s)[i] == 0
    {
      ReverseAt(s, i);
    }
  }

  method PushString(string_: Bytes, reversedData: Bytes, stringPtrs: seq<int>) returns (data: Bytes, ptrs: seq<int>)
    ensures Reverse(data) == string_ + [0] + Reverse(reversedData)
    ensures ptrs == stringPtrs + [ADDRESS_SPACE - |data|]
  {
    data := reversedData + [0];
    ReverseAppend(reversedData, [0]);
    assert Reverse(data) == [0] + Reverse(reversedData);
    for i := |string_| downto 0
      invariant Reverse(data) == string_[i..] + [0] + Reverse(reversedData)
    {
      ReverseAppend(data, [string_[i]]);
      assert string_[i..] == [string_[i]] + string_[i + 1..];
      data := data + [string_[i]];
    }
    ptrs := stringPtrs + [ADDRESS_SPACE - |data|];
  }

  /** Pushes `strings[lo..hi]`, those before it being there already. */
  method PushStrings(strings: seq<Bytes>, lo: nat, hi: nat, reversedData: Bytes, stringPtrs: seq<int>)
    returns (data: Bytes, ptrs: seq<int>)
    requires lo <= hi <= |strings| && Reverse(reversedData) == Block(strings[..lo])
    ensures Reverse(data) == Block(strings[..hi]) && ptrs == stringPtrs + Pointers(strings, lo, hi)
  {
    data, ptrs := reversedData, stringPtrs;
    for i := lo to hi
      invariant Reverse(data) == Block(strings[..i]) && ptrs == stringPtrs + Pointers(strings, lo, i)
    {
      assert strings[..i + 1][..i] == strings[..i];
      data, ptrs := PushString(strings[i], data, ptrs);
      assert |data| == |Reverse(data)| == |Block(strings[..i + 1])|;
      assert Pointers(strings, lo, i + 1) == Pointers(strings, lo, i) + [Pointer(strings, i)];
    }
  }

  method PushWords(words: seq<Word>, reversedData: Bytes) returns (data: Bytes)
    ensures Reverse(data) == Encode(words) + Reverse(reversedData)
  {
    data := reversedData;
    for i := |words| downto 0
      invariant Reverse(data) == Encode(words[i..]) + Reverse(reversedData)
    {
      ReverseAppend(data, BigEndian(words[i]));
      ReverseBigEndian(words[i]);
      data := data + BigEndian(words[i]);
    }
    assert words[0..] == words;
  }

  function Image(argv: seq<Bytes>, envp: seq<Bytes>, apple: seq<Bytes>): (b: Bytes)
    requires Height(argv, envp, apple) < ADDRESS_SPACE
    ensures |b| == Height(argv, envp, apple)
  {
    var block := Block(argv + envp + apple);
    Encode(TableWords(argv, envp, apple)) + seq(Padding(|block|), _ => 0) + block
  }

  function Narrow(t: seq<int>): (ws: seq<Word>)
    requires forall w :: w in t ==> 0 <= w < ADDRESS_SPACE
    ensures ws == t
  {
    if t == [] then [] else assert t[0] in t; assert forall w :: w in t[1..] ==> w in t; [t[0] as Word] + Narrow(t[1..])
  }

  function TableWords(argv: seq<Bytes>, envp: seq<Bytes>, apple: seq<Bytes>): (t: seq<Word>)
    requires Height(argv, envp, apple) < ADDRESS_SPACE
    ensures t == Table(argv, envp, apple)
  {
    var t := Table(argv, envp, apple);
    TableInRange(argv, envp, apple);
    Narrow(t)
  }

  lemma {:induction false} PointersInRange(strings: seq<Bytes>, n: nat)
    requires n <= |strings|
    ensures forall k :: 0 <= k < n ==> ADDRESS_SPACE - |Block(strings[..n])| <= Pointer(strings, k) < ADDRESS_SPACE
    ensures strings[..|strings|] == strings
  {
    if n > 0 {
      PointersInRange(strings, n - 1);
      assert strings[..n][..n - 1] == strings[..n - 1];
    }
  }

  lemma {:induction false} RunInRange(strings: seq<Bytes>, lo: nat, hi: nat)
    requires lo <= hi <= |strings| && |Block(strings)| < ADDRESS_SPACE
    ensures forall k :: 0 <= k < hi - lo ==> 0 <= Pointers(strings, lo, hi)[k] < ADDRESS_SPACE
  {
    PointersInRange(strings, |strings|);
    hide Block, Pointer;
  }

  lemma {:induction false} TableInRange(argv: seq<Bytes>, envp: seq<Bytes>, apple: seq<Bytes>)
    requires Height(argv, envp, apple) < ADDRESS_SPACE
    ensures forall w :: w in Table(argv, envp, apple) ==> 0 <= w < ADDRESS_SPACE
  {
    var all, n, m := argv + envp + apple, |argv|, |argv| + |envp|;
    RunInRange(all, 0, n);
    RunInRange(all, n, m);
    RunInRange(all, m, |all|);
    hide Pointers, Block;
    assert forall w :: w in Pointers(all, 0, n) + Pointers(all, n, m) + Pointers(all, m, |all|) ==>
      0 <= w < ADDRESS_SPACE;
  }

  /**
   Lays out the stack below the end of memory. Returns false where the program
   asserts that the image is smaller than the main thread's stack.
   */
  method PrepStackForStart(mem: Ram, regs: Registers, argv: seq<Bytes>, envp: seq<Bytes>, apple: seq<Bytes>,
      passArgsInRegisters: bool)
    returns (ok: bool, mem': Ram, regs': Registers)
    ensures ok <==> Height(argv, envp, apple) < MAIN_THREAD_STACK_SIZE
    ensures !ok ==> mem' == mem && regs' == regs
    ensures ok ==> var sp := ADDRESS_SPACE - Height(argv, envp, apple);
      && Started(mem', sp, argv, envp, apple) && mem'[..sp] == mem[..sp]
      && regs' == StartRegisters(regs, sp, argv, envp, passArgsInRegisters)
  {
    mem', regs' := mem, regs;
    var strings := argv + envp + apple;
    var reversedData, stringPtrs: seq<int> := [], [|argv|];
    reversedData, stringPtrs := PushStrings(strings, 0, |argv|, reversedData, stringPtrs);
    reversedData, stringPtrs := PushStrings(strings, |argv|, |argv| + |envp|, reversedData, stringPtrs);
    stringPtrs := stringPtrs + [0];
    reversedData, stringPtrs := PushStrings(strings, |argv| + |envp|, |strings|, reversedData, stringPtrs);
    stringPtrs := stringPtrs + [0];
    assert strings[..|strings|] == strings;
    assert stringPtrs == Table(argv, envp, apple);
    var padBy := Padding(|reversedData|);
    if |reversedData| + padBy + 4 * |stringPtrs| >= MAIN_THREAD_STACK_SIZE {
      return false, mem, regs;
    }
    ReverseAppend(reversedData, seq(padBy, _ => 0));
    ReverseZeros(padBy);
    reversedData := reversedData + seq(padBy, _ => 0);
    var words := TableWords(argv, envp, apple);
    reversedData := PushWords(words, reversedData);
    assert Reverse(reversedData) == Image(argv, envp, apple);
    var sp := ADDRESS_SPACE - |reversedData|;
    mem' := CopyReversed(mem, reversedData);
    assert mem'[sp..] == Image(argv, envp, apple);
    ok, regs' := true, StartRegisters(regs, sp, argv, envp, passArgsInRegisters);
  }

  method CopyReversed(mem: Ram, data: Bytes) returns (mem': Ram)
    requires |data| <= ADDRESS_SPACE
    ensures mem' == mem[..ADDRESS_SPACE - |data|] + Reverse(data)
  {
    mem' := mem;
    var sp := ADDRESS_SPACE - |data|;
    for i := 0 to |data|
      invariant forall a :: 0 <= a < sp ==> mem'[a] == mem[a]
      invariant forall a :: sp <= a < sp + i ==> mem'[a] == Reverse(data)[a - sp]
    {
      ReverseAt(data, i);
      mem' := mem'[sp + i := data[|data| - i - 1]];
    }
  }

  function StartRegisters(regs: Registers, sp: Word, argv: seq<Bytes>, envp: seq<Bytes>,
      passArgsInRegisters: bool): Registers
    requires |argv| < ADDRESS_SPACE
  {
    if !passArgsInRegisters then regs[SP := sp]
    else
      var argvPtr := (sp + 4) % ADDRESS_SPACE;
      var envpPtr := (argvPtr + 4 * (|argv| + 1)) % ADDRESS_SPACE;
      var applePtr := (envpPtr + 4 * (|envp| + 1)) % ADDRESS_SPACE;
      regs[SP := sp][0 := |argv|][1 := argvPtr][2 := envpPtr][3 := applePtr]
  }

  // ----- reading it back as a program does

  function CString(mem: Ram, a: nat): Bytes
    decreases ADDRESS_SPACE - a
  {
    if a >= ADDRESS_SPACE || mem[a] == 0 then [] else [mem[a]] + CString(mem, a + 1)
  }

  /** The strings of a NULL-terminated array of pointers. */
  function StringList(mem: Ram, a: nat): seq<Bytes>
    decreases ADDRESS_SPACE - a
  {
    if a + 4 > ADDRESS_SPACE || ReadWord(mem, a) == 0 then []
    else [CString(mem, ReadWord(mem, a))] + StringList(mem, a + 4)
  }

  predicate NulFree(strings: seq<Bytes>) {
    forall s, i :: s in strings && 0 <= i < |s| ==> s[i] != 0
  }

  lemma {:induction false} ReadString(mem: Ram, a: nat, s: Bytes)
    requires a + |s| < ADDRESS_SPACE && mem[a..a + |s| + 1] == s + [0]
    requires forall i :: 0 <= i < |s| ==> s[i] != 0
    ensures CString(mem, a) == s
    decreases |s|
  {
    assert mem[a] == (s + [0])[0];
    if s != [] {
      assert mem[a + 1..a + |s| + 1] == (s + [0])[1..] == s[1..] + [0];
      ReadString(mem, a + 1, s[1..]);
    }
  }

  lemma {:induction false} BlockSuffix(strings: seq<Bytes>, k: nat)
    requires k < |strings|
    ensures var b, c := Block(strings), Block(strings[..k + 1]); |c| <= |b| && b[|b| - |c|..] == c
  {
    if k + 1 == |strings| {
      assert strings[..k + 1] == strings;
    } else {
      var n := |strings| - 1;
      BlockSuffix(strings[..n], k);
      assert strings[..n][..k + 1] == strings[..k + 1];
      var b, front, c := Block(strings), Block(strings[..n]), Block(strings[..k + 1]);
      assert b[|b| - |c|..] == front[|front| - |c|..];
    }
  }

  lemma {:induction false} EncodeAt(words: seq<Word>, i: nat)
    requires i < |words|
    ensures Encode(words)[4 * i..4 * i + 4] == LittleEndian(words[i])
  {
    if i > 0 {
      EncodeAt(words[1..], i - 1);
      assert Encode(words)[4 * i..4 * i + 4] == Encode(words[1..])[4 * (i - 1)..4 * (i - 1) + 4];
    }
  }

  /** What `PrepStackForStart` leaves behind when it succeeds. */
  ghost predicate Started(mem: Ram, sp: nat, argv: seq<Bytes>, envp: seq<Bytes>, apple: seq<Bytes>) {
    && Height(argv, envp, apple) < MAIN_THREAD_STACK_SIZE
    && sp == ADDRESS_SPACE - Height(argv, envp, apple)
    && mem[sp..] == Image(argv, envp, apple)
  }

  lemma {:induction false} WordBack(b: Bytes, w: Word)
    requires b == LittleEndian(w)
    ensures WordOf(b) == w
  {
  }

  lemma {:induction false} TableWord(mem: Ram, sp: nat, argv: seq<Bytes>, envp: seq<Bytes>, apple: seq<Bytes>, i: nat)
    requires Started(mem, sp, argv, envp, apple) && i < |Table(argv, envp, apple)|
    ensures sp + 4 * i + 4 <= ADDRESS_SPACE && ReadWord(mem, sp + 4 * i) == Table(argv, envp, apple)[i]
  {
    var words := TableWords(argv, envp, apple);
    EncodeAt(words, i);
    var image := Image(argv, envp, apple);
    assert mem[sp + 4 * i..sp + 4 * i + 4] == image[4 * i..4 * i + 4] == Encode(words)[4 * i..4 * i + 4];
    WordBack(mem[sp + 4 * i..sp + 4 * i + 4], words[i]);
  }

  lemma {:induction false} StringAt(mem: Ram, sp: nat, argv: seq<Bytes>, envp: seq<Bytes>, apple: seq<Bytes>, k: nat)
    requires Started(mem, sp, argv, envp, apple) && k < |argv + envp + apple|
    requires forall i :: 0 <= i < |(argv + envp + apple)[k]| ==> (argv + envp + apple)[k][i] != 0
    ensures var p := Pointer(argv + envp + apple, k);
      0 < p < ADDRESS_SPACE && CString(mem, p) == (argv + envp + apple)[k]
  {
    var all := argv + envp + apple;
    var image, b, c := Image(argv, envp, apple), Block(all), Block(all[..k + 1]);
    PointersInRange(all, |all|);
    BlockSuffix(all, k);
    var p := Pointer(all, k);
    assert image[|image| - |c|..] == b[|b| - |c|..] == c;
    assert mem[p..] == mem[sp..][p - sp..] == c;
    var s := all[k];
    assert all[..k + 1][k] == s;
    assert c[..|s| + 1] == s + [0];
    assert mem[p..p + |s| + 1] == mem[p..][..|s| + 1];
    ReadString(mem, p, s);
  }

  ghost predicate PointsTo(mem: Ram, a: nat, s: Bytes) {
    a + 4 <= ADDRESS_SPACE && ReadWord(mem, a) != 0 && CString(mem, ReadWord(mem, a)) == s
  }

  ghost predicate Ends(mem: Ram, a: nat) {
    a + 4 <= ADDRESS_SPACE && ReadWord(mem, a) == 0
  }

  /** The pointers to `strings` stand one after another from `a` on. */
  ghost predicate Listed(mem: Ram, a: nat, strings: seq<Bytes>)
    decreases |strings|
  {
    strings == [] || (PointsTo(mem, a, strings[0]) && Listed(mem, a + 4, strings[1..]))
  }

  lemma {:induction false} ListAt(mem: Ram, a: nat, strings: seq<Bytes>)
    requires Listed(mem, a, strings) && Ends(mem, a + 4 * |strings|)
    ensures StringList(mem, a) == strings
    decreases |strings|
  {
    if strings != [] {
      ListAt(mem, a + 4, strings[1..]);
    }
  }

  lemma {:induction false} ListedJoin(mem: Ram, a: nat, xs: seq<Bytes>, ys: seq<Bytes>)
    requires Listed(mem, a, xs) && Listed(mem, a + 4 * |xs|, ys)
    ensures Listed(mem, a, xs + ys)
    decreases |xs|
  {
    if xs == [] {
      assert xs + ys == ys;
    } else {
      ListedJoin(mem, a + 4, xs[1..], ys);
      assert (xs + ys)[1..] == xs[1..] + ys;
    }
  }

  /** Every table word is at its place, and every string where its pointer says. */
  ghost predicate Decoded(mem: Ram, sp: nat, table: seq<int>, ptrs: seq<int>, strings: seq<Bytes>) {
    && (forall i :: 0 <= i < |table| ==> EntryIs(mem, sp, i, table[i]))
    && |ptrs| == |strings| && forall k :: 0 <= k < |strings| ==> StringIs(mem, ptrs[k], strings[k])
  }

  ghost predicate EntryIs(mem: Ram, sp: nat, i: nat, w: int) {
    sp + 4 * i + 4 <= ADDRESS_SPACE && ReadWord(mem, sp + 4 * i) == w
  }

  ghost predicate StringIs(mem: Ram, p: int, s: Bytes) {
    0 < p < ADDRESS_SPACE && CString(mem, p) == s
  }

  /** Table entries from `i` on that point to `strings` list them. */
  lemma {:induction false} TableRun(mem: Ram, sp: nat, table: seq<int>, ptrs: seq<int>, strings: seq<Bytes>, i: nat)
    requires i + |strings| <= |table| && table[i..i + |strings|] == ptrs
    requires forall j :: 0 <= j < |table| ==> EntryIs(mem, sp, j, table[j])
    requires |ptrs| == |strings| && forall k :: 0 <= k < |strings| ==> StringIs(mem, ptrs[k], strings[k])
    ensures Listed(mem, sp + 4 * i, strings)
    decreases |strings|
  {
    if strings != [] {
      assert table[i] == table[i..i + |strings|][0] == ptrs[0];
      assert EntryIs(mem, sp, i, table[i]) && StringIs(mem, ptrs[0], strings[0]);
      assert table[i + 1..i + 1 + |strings[1..]|] == table[i..i + |strings|][1..] == ptrs[1..];
      TableRun(mem, sp, table, ptrs[1..], strings[1..], i + 1);
    }
  }

  /** The table at the stack pointer: argc, pointers to argv and envp, 0, pointers to apple, 0. */
  ghost predicate Laid(mem: Ram, sp: nat, argv: seq<Bytes>, envp: seq<Bytes>, apple: seq<Bytes>) {
    && sp + 4 <= ADDRESS_SPACE && sp % 4 == 0 && ReadWord(mem, sp) == |argv|
    && Listed(mem, sp + 4, argv)
    && Listed(mem, sp + 4 + 4 * |argv|, envp) && Ends(mem, sp + 4 + 4 * |argv| + 4 * |envp|)
    && Listed(mem, sp + 8 + 4 * |argv| + 4 * |envp|, apple) && Ends(mem, sp + 8 + 4 * |argv| + 4 * |envp| + 4 * |apple|)
  }

  /** The table `t` is made of argc and of the pointers to the three parts of `all`. */
  ghost predicate Parts(t: seq<int>, ptrs: seq<int>, all: seq<Bytes>, argv: seq<Bytes>, envp: seq<Bytes>,
      apple: seq<Bytes>) {
    var n, m := |argv|, |argv| + |envp|;
    && all == argv + envp + apple && |ptrs| == |all| && |t| == |all| + 3
    && t[0] == n && t[1 + m] == 0 && t[2 + |all|] == 0
    && t[1..1 + n] == ptrs[..n] && t[1 + n..1 + m] == ptrs[n..m] && t[2 + m..2 + |all|] == ptrs[m..]
  }

  lemma {:induction false} PartsLaid(mem: Ram, sp: nat, t: seq<int>, ptrs: seq<int>, all: seq<Bytes>,
                                     argv: seq<Bytes>, envp: seq<Bytes>, apple: seq<Bytes>)
    requires Decoded(mem, sp, t, ptrs, all) && Parts(t, ptrs, all, argv, envp, apple) && sp % 4 == 0
    ensures Laid(mem, sp, argv, envp, apple)
  {
    FixedLaid(mem, sp, t, ptrs, all, argv, envp, apple);
    ListsLaid(mem, sp, t, ptrs, all, argv, envp, apple);
  }

  lemma {:induction false} FixedLaid(mem: Ram, sp: nat, t: seq<int>, ptrs: seq<int>, all: seq<Bytes>,
                                     argv: seq<Bytes>, envp: seq<Bytes>, apple: seq<Bytes>)
    requires Decoded(mem, sp, t, ptrs, all) && Parts(t, ptrs, all, argv, envp, apple)
    ensures sp + 4 <= ADDRESS_SPACE && ReadWord(mem, sp) == |argv|
    ensures Ends(mem, sp + 4 + 4 * |argv| + 4 * |envp|)
    ensures Ends(mem, sp + 8 + 4 * |argv| + 4 * |envp| + 4 * |apple|)
  {
    FixedEntries(mem, sp, t, |argv|, |argv| + |envp|, |all|);
  }

  /** One run of the table lists the strings it points to. */
  lemma {:induction false} RunListed(mem: Ram, sp: nat, t: seq<int>, ptrs: seq<int>, all: seq<Bytes>, lo: nat, hi: nat,
      i: nat)
    requires Decoded(mem, sp, t, ptrs, all) && lo <= hi <= |all| == |ptrs| && i + (hi - lo) <= |t|
      && t[i..i + (hi - lo)] == ptrs[lo..hi]
    ensures Listed(mem, sp + 4 * i, all[lo..hi])
  {
    TableRun(mem, sp, t, ptrs[lo..hi], all[lo..hi], i);
  }

  lemma {:induction false} ListsLaid(mem: Ram, sp: nat, t: seq<int>, ptrs: seq<int>, all: seq<Bytes>,
                                     argv: seq<Bytes>, envp: seq<Bytes>, apple: seq<Bytes>)
    requires Decoded(mem, sp, t, ptrs, all) && Parts(t, ptrs, all, argv, envp, apple)
    ensures Listed(mem, sp + 4, argv)
    ensures Listed(mem, sp + 4 + 4 * |argv|, envp)
    ensures Listed(mem, sp + 8 + 4 * |argv| + 4 * |envp|, apple)
  {
    hide Decoded, Listed;
    var n, m := |argv|, |argv| + |envp|;
    RunListed(mem, sp, t, ptrs, all, 0, n, 1);
    RunListed(mem, sp, t, ptrs, all, n, m, 1 + n);
    RunListed(mem, sp, t, ptrs, all, m, |all|, 2 + m);
    assert all[0..n] == argv && all[n..m] == envp && all[m..|all|] == apple;
  }

  lemma {:induction false} FixedEntries(mem: Ram, sp: nat, t: seq<int>, n: nat, m: nat, k: nat)
    requires forall i :: 0 <= i < |t| ==> EntryIs(mem, sp, i, t[i])
    requires m <= k && |t| == k + 3 && t[0] == n && t[1 + m] == 0 && t[2 + k] == 0
    ensures EntryIs(mem, sp, 0, n) && EntryIs(mem, sp, 1 + m, 0) && EntryIs(mem, sp, 2 + k, 0)
  {
    assert EntryIs(mem, sp, 0, t[0]) && EntryIs(mem, sp, 1 + m, t[1 + m]) && EntryIs(mem, sp, 2 + k, t[2 + k]);
  }

  /** What is started is laid out: the precondition of the lemmas below. */
  lemma {:induction false} StartedIsLaid(mem: Ram, sp: nat, argv: seq<Bytes>, envp: seq<Bytes>, apple: seq<Bytes>)
    requires Started(mem, sp, argv, envp, apple) && NulFree(argv + envp + apple)
    ensures Laid(mem, sp, argv, envp, apple)
  {
    var t, ptrs := Decode(mem, sp, argv, envp, apple);
    PartsLaid(mem, sp, t, ptrs, argv + envp + apple, argv, envp, apple);
  }

  lemma {:induction false} Decode(mem: Ram, sp: nat, argv: seq<Bytes>, envp: seq<Bytes>, apple: seq<Bytes>)
    returns (t: seq<int>, ptrs: seq<int>)
    requires Started(mem, sp, argv, envp, apple) && NulFree(argv + envp + apple)
    ensures Decoded(mem, sp, t, ptrs, argv + envp + apple) && Parts(t, ptrs, argv + envp + apple, argv, envp, apple)
    ensures sp % 4 == 0
  {
    t, ptrs := Table(argv, envp, apple), Pointers(argv + envp + apple, 0, |argv + envp + apple|);
    DecodeTable(mem, sp, argv, envp, apple);
    DecodeStrings(mem, sp, argv, envp, apple);
    PartsOfTable(argv, envp, apple);
  }

  lemma {:induction false} DecodeTable(mem: Ram, sp: nat, argv: seq<Bytes>, envp: seq<Bytes>, apple: seq<Bytes>)
    requires Started(mem, sp, argv, envp, apple)
    ensures sp % 4 == 0
    ensures var t := Table(argv, envp, apple); forall i :: 0 <= i < |t| ==> EntryIs(mem, sp, i, t[i])
  {
    forall i | 0 <= i < |Table(argv, envp, apple)|
      ensures EntryIs(mem, sp, i, Table(argv, envp, apple)[i])
    {
      TableWord(mem, sp, argv, envp, apple, i);
    }
  }

  lemma {:induction false} DecodeStrings(mem: Ram, sp: nat, argv: seq<Bytes>, envp: seq<Bytes>, apple: seq<Bytes>)
    requires Started(mem, sp, argv, envp, apple) && NulFree(argv + envp + apple)
    ensures var all := argv + envp + apple; var ptrs := Pointers(all, 0, |all|);
      forall k :: 0 <= k < |all| ==> StringIs(mem, ptrs[k], all[k])
  {
    var all := argv + envp + apple;
    var ptrs := Pointers(all, 0, |all|);
    forall k | 0 <= k < |all|
      ensures StringIs(mem, ptrs[k], all[k])
    {
      assert all[k] in all;
      StringAt(mem, sp, argv, envp, apple, k);
    }
  }

  lemma {:induction false} PartsOfTable(argv: seq<Bytes>, envp: seq<Bytes>, apple: seq<Bytes>)
    ensures var all := argv + envp + apple; Parts(Table(argv, envp, apple), Pointers(all, 0, |all|), all, argv, envp,
      apple)
  {
  }

  /** The start routine of an old-style binary finds what was passed. */
  lemma {:induction false} StackRoundTrip(mem: Ram, sp: nat, argv: seq<Bytes>, envp: seq<Bytes>, apple: seq<Bytes>)
    requires Laid(mem, sp, argv, envp, apple)
    ensures StringList(mem, sp + 4 + 4 * |argv|) == envp
    ensures StringList(mem, sp + 8 + 4 * |argv| + 4 * |envp|) == apple
  {
    ListAt(mem, sp + 4 + 4 * |argv|, envp);
    ListAt(mem, sp + 8 + 4 * |argv| + 4 * |envp|, apple);
  }

  /**
   What a binary whose entry point is `main` finds in r0-r3. The comments in the
   program promise argv, envp and apple arrays, each ended by NULL; since no NULL
   is pushed after argv, r1 leads to argv and envp together, and r2 and r3 are
   one entry too far.
   */
  lemma {:induction false} RegisterArguments(mem: Ram, sp: Word, regs: Registers, argv: seq<Bytes>, envp: seq<Bytes>,
      apple: seq<Bytes>)
    requires Laid(mem, sp, argv, envp, apple)
    ensures var r := StartRegisters(regs, sp, argv, envp, true);
      && r[0] == |argv| && StringList(mem, r[1]) == argv + envp
      && StringList(mem, r[2]) == (if envp == [] then apple else envp[1..])
      && (apple != [] ==> StringList(mem, r[3]) == apple[1..])
  {
    hide StringList, StartRegisters, Listed, ReadWord;
    RegistersPlain(regs, sp, argv, envp, |apple|);
    FirstRegister(mem, sp, argv, envp, apple);
    SecondRegister(mem, sp, argv, envp, apple);
    if apple != [] {
      ThirdRegister(mem, sp, argv, envp, apple);
    }
  }

  lemma {:induction false} RegistersPlain(regs: Registers, sp: Word, argv: seq<Bytes>, envp: seq<Bytes>, n: nat)
    requires sp + 8 + 4 * |argv| + 4 * |envp| + 4 * n + 4 <= ADDRESS_SPACE
    ensures var r := StartRegisters(regs, sp, argv, envp, true);
      r[0] == |argv| && r[1] == sp + 4 && r[2] == sp + 8 + 4 * |argv|
        && (n > 0 ==> r[3] == sp + 12 + 4 * |argv| + 4 * |envp|)
  {
  }

  lemma {:induction false} ThirdRegister(mem: Ram, sp: Word, argv: seq<Bytes>, envp: seq<Bytes>, apple: seq<Bytes>)
    requires Laid(mem, sp, argv, envp, apple) && apple != []
    ensures StringList(mem, sp + 12 + 4 * |argv| + 4 * |envp|) == apple[1..]
  {
    ListAt(mem, sp + 8 + 4 * |argv| + 4 * |envp|, apple);
  }

  lemma {:induction false} FirstRegister(mem: Ram, sp: Word, argv: seq<Bytes>, envp: seq<Bytes>, apple: seq<Bytes>)
    requires Laid(mem, sp, argv, envp, apple)
    ensures StringList(mem, sp + 4) == argv + envp
  {
    ListedJoin(mem, sp + 4, argv, envp);
    ListAt(mem, sp + 4, argv + envp);
  }

  lemma {:induction false} SecondRegister(mem: Ram, sp: Word, argv: seq<Bytes>, envp: seq<Bytes>, apple: seq<Bytes>)
    requires Laid(mem, sp, argv, envp, apple)
    ensures StringList(mem, sp + 8 + 4 * |argv|) == if envp == [] then apple else envp[1..]
  {
    if envp == [] {
      ListAt(mem, sp + 8 + 4 * |argv|, apple);
    } else {
      ListAt(mem, sp + 4 + 4 * |argv|, envp);
    }
  }

  ghost predicate StartsWithZeros(b: Bytes, count: nat) {
    forall i :: 0 <= i < count && i < |b| ==> b[i] == 0
  }

  predicate LastAreEmpty(strings: seq<Bytes>, count: nat) {
    count <= |strings| && forall k :: |strings| - count <= k < |strings| ==> strings[k] == []
  }

  /** The strings whose bytes fill the first word behind the table are empty. */
  predicate EmptyTail(strings: seq<Bytes>) {
    LastAreEmpty(strings, 4 - Padding(|Block(strings)|))
  }

  lemma {:induction false} OneMoreZero(b: Bytes, count: nat)
    ensures StartsWithZeros([0] + b, count + 1) <==> StartsWithZeros(b, count)
  {
    var c := [0] + b;
    if StartsWithZeros(c, count + 1) {
      forall i | 0 <= i < count && i < |b|
        ensures b[i] == 0
      {
        assert c[i + 1] == b[i];
      }
    }
  }

  lemma {:induction false} OneMoreEmpty(strings: seq<Bytes>, last: Bytes, count: nat)
    ensures LastAreEmpty(strings + [last], count + 1) <==> LastAreEmpty(strings, count) && last == []
  {
    var all := strings + [last];
    assert all[|strings|] == last && forall k :: 0 <= k < |strings| ==> all[k] == strings[k];
  }

  /** A block of strings without NULs starts with as many zeros as there are empty strings at its start. */
  lemma {:induction false} ZeroRun(strings: seq<Bytes>, count: nat)
    requires NulFree(strings) && count <= |Block(strings)|
    ensures StartsWithZeros(Block(strings), count) <==> LastAreEmpty(strings, count)
    decreases |strings|
  {
    if strings != [] && count > 0 {
      var last, init := strings[|strings| - 1], strings[..|strings| - 1];
      assert last in strings && forall s :: s in init ==> s in strings;
      assert strings == init + [last];
      OneMoreEmpty(init, last, count - 1);
      if last == [] {
        assert Block(strings) == [0] + Block(init);
        ZeroRun(init, count - 1);
        OneMoreZero(Block(init), count - 1);
      } else {
        assert Block(strings)[0] == last[0];
      }
    }
  }

  lemma {:induction false} WordIsZero(mem: Ram, a: nat)
    requires a + 4 <= ADDRESS_SPACE
    ensures ReadWord(mem, a) == 0 <==> mem[a] == 0 && mem[a + 1] == 0 && mem[a + 2] == 0 && mem[a + 3] == 0
  {
  }

  /** Byte `i` from `a` on is padding or belongs to the strings. */
  predicate ByteIs(mem: Ram, a: nat, block: Bytes, pad: nat, i: nat) {
    a + i < ADDRESS_SPACE && i < pad + |block| && mem[a + i] == if i < pad then 0 else block[i - pad]
  }

  /** What follows the table: padding and the strings. */
  lemma {:induction false} ByteBehindTable(mem: Ram, sp: nat, argv: seq<Bytes>, envp: seq<Bytes>, block: Bytes, i: nat)
    requires Started(mem, sp, argv, envp, []) && block == Block(argv + envp) && i < Padding(|block|) + |block|
    ensures ByteIs(mem, sp + 12 + 4 * |argv| + 4 * |envp|, block, Padding(|block|), i)
  {
    assert argv + envp + [] == argv + envp;
    var words := TableWords(argv, envp, []);
    var at := 12 + 4 * |argv| + 4 * |envp|;
    assert |Encode(words)| == at;
    hide Encode, Block, TableWords;
    assert mem[sp + at + i] == mem[sp..][at + i] == Image(argv, envp, [])[at + i];
  }

  lemma {:induction false} WordOfBytes(mem: Ram, a: nat, block: Bytes, pad: nat)
    requires pad < 4 && ByteIs(mem, a, block, pad, 0) && ByteIs(mem, a, block, pad, 1)
    requires ByteIs(mem, a, block, pad, 2) && ByteIs(mem, a, block, pad, 3)
    ensures ReadWord(mem, a) == 0 <==> StartsWithZeros(block, 4 - pad)
  {
    WordIsZero(mem, a);
    hide ReadWord;
    if ReadWord(mem, a) == 0 {
      forall i | 0 <= i < 4 - pad
        ensures block[i] == 0
      {
        assert i + pad == 0 || i + pad == 1 || i + pad == 2 || i + pad == 3;
      }
    }
  }

  lemma {:induction false} BlockSize(strings: seq<Bytes>)
    requires strings != []
    ensures |Block(strings)| > 0 && Padding(|Block(strings)|) < 4 && |Block(strings)| + Padding(|Block(strings)|) >= 4
  {
  }

  /** The word behind the table. */
  lemma {:induction false} WordBehindTable(mem: Ram, sp: nat, argv: seq<Bytes>, envp: seq<Bytes>)
    requires Started(mem, sp, argv, envp, []) && NulFree(argv + envp) && argv + envp != []
    ensures var a := sp + 12 + 4 * |argv| + 4 * |envp|;
      a + 4 <= ADDRESS_SPACE && (ReadWord(mem, a) == 0 <==> EmptyTail(argv + envp))
  {
    var block := Block(argv + envp);
    BlockSize(argv + envp);
    hide Started, Block, ReadWord, NulFree, Padding, StartsWithZeros, LastAreEmpty;
    ByteBehindTable(mem, sp, argv, envp, block, 0);
    ByteBehindTable(mem, sp, argv, envp, block, 1);
    ByteBehindTable(mem, sp, argv, envp, block, 2);
    ByteBehindTable(mem, sp, argv, envp, block, 3);
    WordOfBytes(mem, sp + 12 + 4 * |argv| + 4 * |envp|, block, Padding(|block|));
    ZeroRun(argv + envp, 4 - Padding(|block|));
  }

  lemma {:induction false} NothingToPass(mem: Ram, sp: nat)
    requires Started(mem, sp, [], [], [])
    ensures sp == ADDRESS_SPACE - 12
  {
    hide Image;
    var none: seq<Bytes> := [];
    assert none + none + none == none;
  }

  lemma {:induction false} WrappedThird(regs: Registers, sp: Word)
    requires sp == ADDRESS_SPACE - 12
    ensures StartRegisters(regs, sp, [], [], true)[3] == 0
  {
  }

  /** With nothing to pass, r3 is where the addresses wrap around; with no apple strings, it points into the strings. */
  lemma {:induction false} ThirdWithoutApple(mem: Ram, sp: Word, regs: Registers, argv: seq<Bytes>, envp: seq<Bytes>)
    requires Started(mem, sp, argv, envp, []) && NulFree(argv + envp)
    ensures var r := StartRegisters(regs, sp, argv, envp, true);
      if argv + envp == [] then r[3] == 0 else StringList(mem, r[3]) == [] <==> EmptyTail(argv + envp)
  {
    if argv + envp == [] {
      NothingToPass(mem, sp);
      assert argv == [] && envp == [];
      WrappedThird(regs, sp);
    } else {
      WordBehindTable(mem, sp, argv, envp);
      hide Started, EmptyTail, ReadWord, NulFree, StartRegisters;
      RegistersPlain(regs, sp, argv, envp, 1);
    }
  }

  /**
   When the documented register arguments hold: r1 leads to argv exactly if envp is empty, r2 to envp
   exactly if envp and apple are, and r3 to apple exactly if apple is empty and the word behind the table,
   which belongs to the strings, happens to be zero.
   */
  lemma {:induction false} DocumentedArgumentsHold(mem: Ram, sp: Word, regs: Registers, argv: seq<Bytes>,
      envp: seq<Bytes>, apple: seq<Bytes>)
    requires Started(mem, sp, argv, envp, apple) && NulFree(argv + envp + apple)
    ensures var r := StartRegisters(regs, sp, argv, envp, true);
      && (StringList(mem, r[1]) == argv <==> envp == [])
      && (StringList(mem, r[2]) == envp <==> envp == [] && apple == [])
      && if argv + envp + apple == [] then r[3] == 0 else StringList(mem, r[3]) == apple <==>
        apple == [] && EmptyTail(argv + envp)
  {
    StartedIsLaid(mem, sp, argv, envp, apple);
    if apple == [] {
      assert argv + envp + [] == argv + envp;
      ThirdWithoutApple(mem, sp, regs, argv, envp);
    }
    hide StringList, StartRegisters, Laid, Started, NulFree, EmptyTail;
    RegisterArguments(mem, sp, regs, argv, envp, apple);
    assert |argv + envp| == |argv| <==> envp == [];
    assert envp == [] ==> argv + envp == argv;
    assert envp != [] ==> |envp[1..]| < |envp|;
    assert apple != [] ==> |apple[1..]| < |apple|;
  }
}
