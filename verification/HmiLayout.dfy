/** Typed members of a PLC structure: their byte.bit addresses, their decoding from
    16-bit words, and what they mean in the PLC's byte-addressed memory
    (plc_client._hmi_addr, _hmi_block_words, _hmi_decode). */
module HmiLayout {
  import opened Wrappers
  import opened Registers

  type Word = w: int | 0 <= w < 0x1_0000

  /** %MW words by absolute address. */
  type Memory = int -> Word

  datatype Kind = Bool | UInt | WordKind | Int | UDInt | DInt | Real

  datatype Member = Member(name: string, kind: Kind, byte: nat, bit: nat)

  /** A 32-bit real is kept as its bit pattern. */
  datatype Value = Flag(flag: bool) | Number(n: int) | Pattern(bits: int)

  function WordOf(m: Member): nat { m.byte / 2 }

  function BitInWord(m: Member): nat { m.byte % 2 * 8 + m.bit }

  function TypeWords(kind: Kind): nat { if kind in {UDInt, DInt, Real} then 2 else 1 }

  /** Words needed to cover every member. */
  function BlockWords(layout: seq<Member>): nat {
    if layout == [] then 0 else
    var rest, m := BlockWords(layout[..|layout| - 1]), layout[|layout| - 1];
    if rest < WordOf(m) + TypeWords(m.kind) then WordOf(m) + TypeWords(m.kind) else rest
  }

  method CountBlockWords(layout: seq<Member>) returns (count: nat)
    ensures count == BlockWords(layout)
  {
    count := 0;
    for k := 0 to |layout|
      invariant count == BlockWords(layout[..k])
    {
      assert layout[..k + 1][..k] == layout[..k];
      var end := WordOf(layout[k]) + TypeWords(layout[k].kind);
      count := if count < end then end else count;
    }
    assert layout[..|layout|] == layout;
  }

  /** n >> k for Python integers: k floor halvings. */
  function Shr(n: int, k: nat): int
    decreases k
  {
    if k == 0 then n else Shr(n / 2, k - 1)
  }

  predicate BitOf(n: int, k: nat) { Shr(n, k) % 2 == 1 }

  /** One member from a block's words; None when the words do not reach it. */
  function Decode(words: seq<Word>, kind: Kind, w: nat, bit: nat): Option<Value> {
    if w >= |words| then None else
    match kind
    case Bool => Some(Flag(BitOf(words[w], bit)))
    case UInt => Some(Number(words[w]))
    case WordKind => Some(Number(words[w]))
    case Int => Some(Number(SignExtend16(words[w])))
    case _ =>
      if w + 1 >= |words| then None else
      var v := Pair(words[w + 1], words[w]);
      match kind
      case UDInt => Some(Number(v))
      case DInt => Some(Number(SignExtend32(v)))
      case _ => Some(Pattern(v))
  }

  // ------------------------------------------------------------ the PLC's own view

  /** Byte i of the area: a word holds its low byte first. */
  function ByteAt(mem: Memory, i: int): int {
    if i % 2 == 0 then mem(i / 2) % 0x100 else mem(i / 2) / 0x100
  }

  /** `count` bytes from i as one little-endian number. */
  function LittleEndian(mem: Memory, i: int, count: nat): int
    decreases count
  {
    if count == 0 then 0 else ByteAt(mem, i) + 0x100 * LittleEndian(mem, i + 1, count - 1)
  }

  /** The member read straight from the byte-addressed memory of a block at %MW base. */
  function Direct(mem: Memory, base: int, m: Member): Value {
    var i := 2 * base + m.byte;
    match m.kind
    case Bool => Flag(BitOf(ByteAt(mem, i), m.bit))
    case UInt => Number(LittleEndian(mem, i, 2))
    case WordKind => Number(LittleEndian(mem, i, 2))
    case Int => Number(SignExtend16(LittleEndian(mem, i, 2)))
    case UDInt => Number(LittleEndian(mem, i, 4))
    case DInt => Number(SignExtend32(LittleEndian(mem, i, 4)))
    case Real => Pattern(LittleEndian(mem, i, 4))
  }

  /** As in every UDT table: a bit address below 8, numbers on a word boundary. */
  predicate WellFormed(m: Member) {
    m.bit < 8 && (m.kind != Bool ==> m.byte % 2 == 0 && m.bit == 0)
  }

  // ------------------------------------------------------------------------ bits

  function Pow2(j: nat): (p: int)
    ensures p >= 1
  {
    if j == 0 then 1 else 2 * Pow2(j - 1)
  }

  /** The low j bits of x + 2^j * y are x, the rest are y, also for negative y. */
  lemma {:induction false} BitSplit(x: int, y: int, j: nat, k: nat)
    requires 0 <= x < Pow2(j)
    ensures BitOf(x + Pow2(j) * y, k) == if k < j then BitOf(x, k) else BitOf(y, k - j)
    decreases j
  {
    if j > 0 {
      var z := Pow2(j - 1) * y;
      assert Pow2(j) * y == 2 * z;
      assert (x + 2 * z) / 2 == x / 2 + z && (x + 2 * z) % 2 == x % 2;
      if k > 0 {
        BitSplit(x / 2, y, j - 1, k - 1);
      }
    }
  }

  lemma Powers()
    ensures Pow2(8) == 0x100 && Pow2(16) == 0x1_0000 && Pow2(32) == 0x1_0000_0000
  {
    assert Pow2(4) == 16 && Pow2(8) == 256;
    assert Pow2(12) == 0x1000 && Pow2(16) == 0x1_0000;
    assert Pow2(20) == 0x10_0000 && Pow2(24) == 0x100_0000;
    assert Pow2(28) == 0x1000_0000 && Pow2(32) == 0x1_0000_0000;
  }

  /** A bit of a word is a bit of one of its two bytes. */
  lemma BitOfWord(v: Word, k: nat)
    ensures BitOf(v, k) == if k < 8 then BitOf(v % 0x100, k) else BitOf(v / 0x100, k - 8)
  {
    Powers();
    assert v == v % 0x100 + 0x100 * (v / 0x100);
    BitSplit(v % 0x100, v / 0x100, 8, k);
  }

  // -------------------------------------------------------------------- decoding

  /** The words a block read returns: the memory from `base` on. */
  predicate Mirrors(words: seq<Word>, mem: Memory, base: int) {
    forall i :: 0 <= i < |words| ==> words[i] == mem(base + i)
  }

  lemma EvenBytes(mem: Memory, base: int, byte: nat)
    requires byte % 2 == 0
    ensures var (w, i) := (base + byte / 2, 2 * base + byte);
            LittleEndian(mem, i, 2) == mem(w) && LittleEndian(mem, i, 4) == Pair(mem(w + 1), mem(w))
  {
    var w, i := base + byte / 2, 2 * base + byte;
    assert i == 2 * w;
    assert ByteAt(mem, i) == mem(w) % 0x100 && ByteAt(mem, i + 1) == mem(w) / 0x100;
    assert ByteAt(mem, i + 2) == mem(w + 1) % 0x100 && ByteAt(mem, i + 3) == mem(w + 1) / 0x100;
    assert LittleEndian(mem, i + 4, 0) == 0;
    assert LittleEndian(mem, i + 3, 1) == mem(w + 1) / 0x100;
    assert LittleEndian(mem, i + 2, 2) == mem(w + 1);
    assert LittleEndian(mem, i + 2, 0) == 0;
    assert LittleEndian(mem, i + 1, 1) == mem(w) / 0x100;
    assert LittleEndian(mem, i + 1, 3) == mem(w) / 0x100 + 0x100 * mem(w + 1);
  }

  /** Every covered member decodes, and to exactly what the PLC's memory holds at its
      absolute byte and bit. */
  lemma DecodeIsDirect(words: seq<Word>, mem: Memory, base: int, m: Member)
    requires WellFormed(m) && Mirrors(words, mem, base)
    requires WordOf(m) + TypeWords(m.kind) <= |words|
    ensures Decode(words, m.kind, WordOf(m), BitInWord(m)) == Some(Direct(mem, base, m))
  {
    var w := WordOf(m);
    assert words[w] == mem(base + w);
    if m.kind == Bool {
      BitOfWord(words[w], BitInWord(m));
      assert (2 * base + m.byte) / 2 == base + w;
    } else {
      EvenBytes(mem, base, m.byte);
    }
  }

  lemma {:induction false} BlockCovers(layout: seq<Member>, k: nat)
    requires k < |layout|
    ensures WordOf(layout[k]) + TypeWords(layout[k].kind) <= BlockWords(layout)
    decreases |layout|
  {
    if k < |layout| - 1 {
      BlockCovers(layout[..|layout| - 1], k);
    }
  }

  /** And the span is no wider than the farthest member needs. */
  lemma {:induction false} BlockIsTight(layout: seq<Member>) returns (k: nat)
    requires layout != []
    ensures k < |layout| && WordOf(layout[k]) + TypeWords(layout[k].kind) == BlockWords(layout)
    decreases |layout|
  {
    var n := |layout| - 1;
    if n == 0 || BlockWords(layout[..n]) < WordOf(layout[n]) + TypeWords(layout[n].kind) {
      k := n;
    } else {
      k := BlockIsTight(layout[..n]);
    }
  }

  /** Bit k of a number is the parity of the number divided by 2^k, rounded down. */
  lemma {:induction false} BitMeaning(n: int, k: nat)
    ensures BitOf(n, k) <==> n / Pow2(k) % 2 == 1
    decreases k
  {
    if k > 0 {
      BitMeaning(n / 2, k - 1);
      DivTwice(n, Pow2(k - 1));
    }
  }

  lemma DivTwice(n: int, p: int)
    requires p >= 1
    ensures n / 2 / p == n / (2 * p)
  {
    var q, r := n / (2 * p), n % (2 * p);
    assert n == 2 * p * q + r == 2 * (p * q) + r;
    assert n / 2 == p * q + r / 2;
    assert 0 <= r / 2 < p;
    QuotientOf(n / 2, p, q, r / 2);
  }

  lemma QuotientOf(n: int, p: int, q: int, r: int)
    requires p >= 1 && n == p * q + r && 0 <= r < p
    ensures n / p == q
  {
    var d := n / p - q;
    assert n == p * (n / p) + n % p;
    assert p * d == p * (n / p) - p * q == r - n % p;
    FarMultiple(p, d);
  }

  lemma FarMultiple(p: int, d: int)
    requires p >= 1
    ensures d == 0 || p * d >= p || p * d <= -p
  {
    if d >= 1 {
      AtLeastOnce(p, d);
    } else if d <= -1 {
      AtLeastOnce(p, -d);
    }
  }

  lemma {:induction false} AtLeastOnce(p: int, d: int)
    requires p >= 1 && d >= 1
    ensures p * d >= p && p * -d <= -p
    decreases d
  {
    if d > 1 {
      AtLeastOnce(p, d - 1);
    }
  }

  // -------------------------------------------------------------- '#bit' references

  /** (int(v) >> k) & 1 as the screens use it on whole-number members. */
  predicate ShownBit(v: Value, k: nat)
    requires !v.Pattern?
  {
    match v
    case Flag(flag) => BitOf(if flag then 1 else 0, k)
    case Number(n) => BitOf(n, k)
  }

  /** A flag has its one bit at 0. */
  lemma ShownFlag(flag: bool, k: nat)
    ensures ShownBit(Flag(flag), k) <==> flag && k == 0
  {
    Powers();
    BitMeaning(if flag then 1 else 0, k);
    if k > 0 {
      assert Pow2(k) >= 2;
    }
  }

  predicate IsWhole(kind: Kind) { kind != Bool && kind != Real }

  lemma SignKeepsBits16(v: Word, k: nat)
    ensures k < 16 ==> BitOf(SignExtend16(v), k) == BitOf(v, k)
  {
    Powers();
    BitSplit(v, -1, 16, k);
  }

  lemma SignKeepsBits32(lo: Word, hi: Word, k: nat)
    ensures var v := Pair(hi, lo);
            k < 32 ==> BitOf(SignExtend32(v), k) == BitOf(v, k) == if k < 16 then BitOf(lo, k) else BitOf(hi, k - 16)
  {
    Powers();
    BitSplit(Pair(hi, lo), -1, 32, k);
    BitSplit(lo, hi, 16, k);
  }

  /** Bit k of the two words at w. */
  predicate WordsBit(mem: Memory, w: int, k: nat) {
    if k < 16 then BitOf(mem(w), k) else BitOf(mem(w + 1), k - 16)
  }

  lemma WordsBitIsByteBit(mem: Memory, w: int, k: nat)
    requires k < 32
    ensures WordsBit(mem, w, k) == BitOf(ByteAt(mem, 2 * w + k / 8), k % 8)
  {
    hide BitOf;
    if k < 16 {
      BitOfWord(mem(w), k);
    } else {
      BitOfWord(mem(w + 1), k - 16);
    }
  }

  lemma ShownBitIsWordsBit(mem: Memory, base: int, m: Member, k: nat)
    requires WellFormed(m) && IsWhole(m.kind) && k < 16 * TypeWords(m.kind)
    ensures ShownBit(Direct(mem, base, m), k) == WordsBit(mem, base + m.byte / 2, k)
  {
    var w := base + m.byte / 2;
    EvenBytes(mem, base, m.byte);
    SignKeepsBits16(mem(w), k);
    SignKeepsBits32(mem(w), mem(w + 1), k);
    hide BitOf, LittleEndian, SignExtend16, SignExtend32, Pair;
  }

  /** Bit k of a whole-number member, negative values included, is bit k % 8 of its
      byte k / 8 in the PLC's memory. */
  lemma ShownBitIsDirect(mem: Memory, base: int, m: Member, k: nat)
    requires WellFormed(m) && IsWhole(m.kind) && k < 16 * TypeWords(m.kind)
    ensures ShownBit(Direct(mem, base, m), k) == BitOf(ByteAt(mem, 2 * base + m.byte + k / 8), k % 8)
  {
    ShownBitIsWordsBit(mem, base, m, k);
    WordsBitIsByteBit(mem, base + m.byte / 2, k);
    assert 2 * (base + m.byte / 2) == 2 * base + m.byte;
    hide ShownBit, WordsBit, BitOf, ByteAt;
  }
}
