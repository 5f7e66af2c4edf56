/** Guest memory and registers: a flat 32-bit little-endian address space and sixteen A32 registers. */
module GuestMemory {

  const ADDRESS_SPACE: nat := 0x1_0000_0000

  type Byte = b: int | 0 <= b < 0x100
  type Word = w: int | 0 <= w < 0x1_0000_0000
  type Ram = m: seq<Byte> | |m| == ADDRESS_SPACE ghost witness seq(ADDRESS_SPACE, _ => 0)
  type Registers = r: seq<Word> | |r| == 16 witness seq(16, _ => 0)

  const FRAME_POINTER := 7
  const SP := 13
  const LR := 14
  const PC := 15

  function LittleEndian(w: Word): (r: seq<Byte>)
    ensures |r| == 4 && w == r[0] + 0x100 * (r[1] as int) + 0x1_0000 * (r[2] as int) + 0x100_0000 * (r[3] as int)
  {
    var q := w / 0x100;
    var r := q / 0x100;
    [w % 0x100, q % 0x100, r % 0x100, r / 0x100]
  }

  function WordOf(bytes: seq<Byte>): Word
    requires |bytes| == 4
  {
    bytes[0] + 0x100 * (bytes[1] as int) + 0x1_0000 * (bytes[2] as int) + 0x100_0000 * (bytes[3] as int)
  }

  function ReadWord(mem: Ram, a: nat): Word
    requires a + 4 <= ADDRESS_SPACE
  {
    WordOf(mem[a..a + 4])
  }

  function WriteBytes(mem: Ram, a: nat, bytes: seq<Byte>): (r: Ram)
    requires a + |bytes| <= ADDRESS_SPACE
    ensures r[a..a + |bytes|] == bytes
    ensures forall i :: 0 <= i < ADDRESS_SPACE && !(a <= i < a + |bytes|) ==> r[i] == mem[i]
  {
    mem[..a] + bytes + mem[a + |bytes|..]
  }

  function WriteWord(mem: Ram, a: nat, w: Word): (r: Ram)
    requires a + 4 <= ADDRESS_SPACE
    ensures ReadWord(r, a) == w
    ensures forall i :: 0 <= i < ADDRESS_SPACE && !(a <= i < a + 4) ==> r[i] == mem[i]
  {
    WriteBytes(mem, a, LittleEndian(w))
  }

  /** Memory outside `[lo, hi)` is the same. */
  ghost predicate SameOutside(m: Ram, n: Ram, lo: int, hi: int) {
    forall a :: 0 <= a < ADDRESS_SPACE && !(lo <= a < hi) ==> m[a] == n[a]
  }

  lemma {:induction false} ReadElsewhere(mem: Ram, a: nat, w: Word, b: nat)
    requires a + 4 <= ADDRESS_SPACE && b + 4 <= ADDRESS_SPACE && (a + 4 <= b || b + 4 <= a)
    ensures ReadWord(WriteWord(mem, a, w), b) == ReadWord(mem, b)
  {
    assert WriteWord(mem, a, w)[b..b + 4] == mem[b..b + 4];
  }

  /** Two memories with the same bytes in a range read the same words there. */
  lemma {:induction false} SameWord(m: Ram, n: Ram, a: nat)
    requires a + 4 <= ADDRESS_SPACE && forall i :: a <= i < a + 4 ==> m[i] == n[i]
    ensures ReadWord(m, a) == ReadWord(n, a)
  {
    assert m[a..a + 4] == n[a..a + 4];
  }
}
