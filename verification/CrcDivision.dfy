/** Which checksum crc16 is: the remainder of dividing the line bits by
    x^16 + x^15 + x^2 + 1, with the first sixteen bits complemented. Polynomials over
    GF(2) are bit sequences, highest power first, as the line carries them. */
module CrcDivision {
  import opened Crc

  /** The seventeen coefficients of the generator of section 6.2.2 of MODBUS over
      Serial Line Specification V1.02. */
  function Generator(): (g: seq<bool>)
    ensures |g| == 17
  {
    seq(17, i requires 0 <= i < 17 => 16 - i in {16, 15, 2, 0})
  }

  function Zeros(n: nat): (z: seq<bool>)
    ensures |z| == n && forall i :: 0 <= i < n ==> !z[i]
  {
    seq(n, i => false)
  }

  /** b * g * x^n */
  function Term(b: bool, g: seq<bool>, n: nat): (t: seq<bool>)
    ensures |t| == |g| + n
  {
    if b then g + Zeros(n) else Zeros(|g| + n)
  }

  /** The product of two polynomials, term by term of the first. */
  function Product(q: seq<bool>, g: seq<bool>): (p: seq<bool>)
    requires g != []
    ensures |p| == |q| + |g| - 1
  {
    if q == [] then Zeros(|g| - 1)
    else Differences(Term(q[0], g, |q| - 1), [false] + Product(q[1..], g))
  }

  ghost predicate IsMultiple(bits: seq<bool>) {
    exists q {:trigger Product(q, Generator())} :: Product(q, Generator()) == bits
  }

  // ------------------------------------------------------------ the register's side

  lemma {:induction false} BitRegisterLinear(x: bv16, y: bv16, a: seq<bool>, b: seq<bool>)
    requires |a| == |b|
    ensures BitRegister(Plus(x, y), Differences(a, b)) == Plus(BitRegister(x, a), BitRegister(y, b))
    decreases |a|
  {
    hide BitStep, Plus, Bit;
    if a != [] {
      var p, q := Plus(x, Bit(a[0])), Plus(y, Bit(b[0]));
      BitsAdd(a[0], b[0]);
      PlusRegroups(x, y, Bit(a[0]), Bit(b[0]));
      BitStepIsLinear(p, q);
      assert Differences(a, b)[1..] == Differences(a[1..], b[1..]);
      BitRegisterLinear(BitStep(p), BitStep(q), a[1..], b[1..]);
    }
  }

  lemma BitsAdd(a: bool, b: bool)
    ensures Bit(a != b) == Plus(Bit(a), Bit(b))
  {
  }

  lemma ClearLine(n: nat)
    ensures BitRegister(0, Zeros(n)) == 0
  {
    ClearBitsShift(0, Zeros(n));
    ZeroStaysZero(n);
  }

  lemma LeadingClear(bits: seq<bool>)
    ensures BitRegister(0, [false] + bits) == BitRegister(0, bits)
  {
    assert ([false] + bits)[1..] == bits;
    assert BitStep(Plus(0, Bit(false))) == 0;
  }

  /** The generator itself runs the register to zero. */
  lemma GeneratorVanishes()
    ensures BitRegister(0, Generator()) == 0
  {
    var g := Generator();
    assert g == [true, true] + (Zeros(12) + [true, false, true]);
    var tail := [true, false, true];
    BitRegisterConcat(0, [true, true], Zeros(12) + tail);
    BitRegisterConcat(0x5000, Zeros(12), tail);
    ClearBitsShift(0x5000, Zeros(12));
    FirstTwo();
    TwelveShifts();
    LastThree();
  }

  lemma FirstTwo()
    ensures BitRegister(0, [true, true]) == 0x5000
  {
    assert [true, true][1..] == [true] && [true][1..] == [];
    assert BitStep(Plus(0, Bit(true))) == 0xA001 && BitStep(Plus(0xA001, Bit(true))) == 0x5000;
    BitRegisterEmpty(0x5000);
  }

  lemma TwelveShifts()
    ensures BitSteps(0x5000, 12) == 5
  {
    assert BitSteps(0x5000, 12) == BitSteps(0x2800, 11) == BitSteps(0x1400, 10) == BitSteps(0xA00, 9);
    assert BitSteps(0xA00, 9) == BitSteps(0x500, 8) == BitSteps(0x280, 7) == BitSteps(0x140, 6);
    assert BitSteps(0x140, 6) == BitSteps(0xA0, 5) == BitSteps(0x50, 4) == BitSteps(0x28, 3);
    assert BitSteps(0x28, 3) == BitSteps(0x14, 2) == BitSteps(0xA, 1) == BitSteps(5, 0);
  }

  lemma LastThree()
    ensures BitRegister(5, [true, false, true]) == 0
  {
    assert [true, false, true][1..] == [false, true] && [false, true][1..] == [true] && [true][1..] == [];
    assert BitStep(Plus(5, Bit(true))) == 2 && BitStep(Plus(2, Bit(false))) == 1 && BitStep(Plus(1, Bit(true))) == 0;
    BitRegisterEmpty(0);
  }

  lemma TermVanishes(b: bool, n: nat)
    ensures BitRegister(0, Term(b, Generator(), n)) == 0
  {
    hide BitRegister, Generator;
    ClearLine(n);
    ClearLine(17 + n);
    GeneratorVanishes();
    BitRegisterConcat(0, Generator(), Zeros(n));
  }

  lemma {:induction false} ProductVanishes(q: seq<bool>)
    ensures BitRegister(0, Product(q, Generator())) == 0
    decreases |q|
  {
    hide BitRegister, Generator, Plus, Term;
    if q == [] {
      ClearLine(16);
    } else {
      var term, rest := Term(q[0], Generator(), |q| - 1), Product(q[1..], Generator());
      ProductVanishes(q[1..]);
      TermVanishes(q[0], |q| - 1);
      LeadingClear(rest);
      PlusLaws(0, 0);
      BitRegisterLinear(0, 0, term, [false] + rest);
    }
  }

  lemma ShortVanishes(bits: seq<bool>)
    requires |bits| == 16 && BitRegister(0, bits) == 0
    ensures bits == Zeros(16)
  {
    hide BitRegister, Plus, Pack, BitSteps;
    BitRegisterPacks(0, bits);
    PlusLaws(0, Pack(bits));
    PlusLaws(Pack(bits), 0);
    NonzeroStaysNonzero(Pack(bits), 16);
    PackIsZero(bits);
  }

  lemma DifferencesUndo(a: seq<bool>, b: seq<bool>)
    requires |a| == |b|
    ensures Differences(b, Differences(a, b)) == a
  {
  }

  /** Long division: what runs the register to zero has a quotient. */
  lemma {:induction false} Quotient(bits: seq<bool>) returns (q: seq<bool>)
    requires |bits| >= 16 && BitRegister(0, bits) == 0
    ensures Product(q, Generator()) == bits
    decreases |bits|
  {
    hide BitRegister, Plus;
    if |bits| == 16 {
      ShortVanishes(bits);
      q := [];
    } else {
      var n := |bits| - 17;
      var term := Term(bits[0], Generator(), n);
      assert term[0] == bits[0] by {
        assert Generator()[0];
      }
      var left := Differences(bits, term);
      TermVanishes(bits[0], n);
      PlusLaws(0, 0);
      BitRegisterLinear(0, 0, bits, term);
      assert left == [false] + left[1..];
      LeadingClear(left[1..]);
      var rest := Quotient(left[1..]);
      q := [bits[0]] + rest;
      assert q[1..] == rest;
      DifferencesUndo(bits, term);
      hide Generator, Term, Differences;
      assert |Product(rest, Generator())| == |left[1..]|;
    }
  }

  /** The bit register is polynomial division: from zero it ends at zero exactly on the
      multiples of the generator. */
  lemma RegisterDivides(bits: seq<bool>)
    requires |bits| >= 16
    ensures BitRegister(0, bits) == 0 <==> IsMultiple(bits)
  {
    if BitRegister(0, bits) == 0 {
      var q := Quotient(bits);
    }
    if q :| Product(q, Generator()) == bits {
      ProductVanishes(q);
    }
  }

  // ------------------------------------------------------------------- the preset

  /** The first sixteen line bits complemented. */
  function Complemented(bits: seq<bool>): (c: seq<bool>)
    ensures |c| == |bits|
  {
    seq(|bits|, i requires 0 <= i < |bits| => if i < 16 then !bits[i] else bits[i])
  }

  function Ones(n: nat): (z: seq<bool>)
    ensures |z| == n && forall i :: 0 <= i < n ==> z[i]
  {
    seq(n, i => true)
  }

  lemma {:induction false} OnesFill(n: nat)
    requires n <= 16
    ensures Pack(Ones(n)) == LowOnes(n)
  {
    if n > 0 {
      OnesFill(n - 1);
      assert Ones(n)[1..] == Ones(n - 1);
      assert Pack(Ones(n)) == Plus(Bit(true), Double(LowOnes(n - 1)));
    }
  }

  function LowOnes(n: nat): bv16 { if n == 0 then 0 else (LowOnes(n - 1) << 1) | 1 }

  lemma SixteenOnes()
    ensures Pack(Ones(16)) == 0xFFFF
  {
    OnesFill(16);
    assert LowOnes(4) == 0xF;
    assert LowOnes(8) == 0xFF;
    assert LowOnes(12) == 0xFFF;
  }

  /** Starting the register at all ones is complementing the first sixteen bits. */
  lemma PresetComplements(bits: seq<bool>)
    requires |bits| >= 16
    ensures BitRegister(0xFFFF, bits) == BitRegister(0, Complemented(bits))
  {
    hide BitRegister, Plus, Pack, BitSteps;
    var clear := Zeros(|bits|);
    var mask := Ones(16) + Zeros(|bits| - 16);
    assert clear == Zeros(16) + Zeros(|bits| - 16);
    assert Differences(bits, clear) == bits && Differences(bits, mask) == Complemented(bits);
    BitRegisterConcat(0xFFFF, Zeros(16), Zeros(|bits| - 16));
    BitRegisterConcat(0, Ones(16), Zeros(|bits| - 16));
    ClearBitsShift(0xFFFF, Zeros(16));
    BitRegisterPacks(0, Ones(16));
    SixteenOnes();
    PlusLaws(0xFFFF, 0);
    PlusLaws(0, 0);
    assert BitRegister(0xFFFF, clear) == BitRegister(0, mask);
    BitRegisterLinear(0, 0xFFFF, bits, clear);
    BitRegisterLinear(0, 0, bits, mask);
  }

  // --------------------------------------------------------------------- the frame

  /** Bit k of a byte, from the lowest. */
  predicate ByteBit(b: bv8, k: nat) {
    match k
    case 0 => b & 0x01 != 0
    case 1 => b & 0x02 != 0
    case 2 => b & 0x04 != 0
    case 3 => b & 0x08 != 0
    case 4 => b & 0x10 != 0
    case 5 => b & 0x20 != 0
    case 6 => b & 0x40 != 0
    case _ => b & 0x80 != 0
  }

  /** Line bit 8 i + k is bit k of byte i: each byte goes out low bit first. */
  lemma {:induction false} LineBitsInOrder(data: seq<bv8>, i: nat, k: nat)
    requires i < |data| && k < 8
    ensures LineBits(data)[8 * i + k] <==> ByteBit(data[i], k)
    decreases i
  {
    hide BitsFrom, ByteBit, Wide;
    assert LineBits(data) == BitsFrom(Wide(data[0]), 8) + LineBits(data[1..]);
    if i == 0 {
      BitsOfByte(data[0], k);
    } else {
      LineBitsInOrder(data[1..], i - 1, k);
      assert data[1..][i - 1] == data[i];
      assert LineBits(data)[8 * i + k] == LineBits(data[1..])[8 * (i - 1) + k];
    }
  }

  function Halved(v: bv16, k: nat): bv16 { if k == 0 then v else Halved(Half(v), k - 1) }

  lemma {:induction false} BitsFromAt(v: bv16, n: nat, k: nat)
    requires k < n
    ensures BitsFrom(v, n)[k] == Odd(Halved(v, k))
    decreases k
  {
    hide Half, Odd;
    if k > 0 {
      BitsFromAt(Half(v), n - 1, k - 1);
    }
  }

  lemma BitsOfByte(b: bv8, k: nat)
    requires k < 8
    ensures BitsFrom(Wide(b), 8)[k] <==> ByteBit(b, k)
  {
    BitsFromAt(Wide(b), 8, k);
    HalvedBit(b, k);
    hide BitsFrom, Wide, Odd, Halved, ByteBit;
  }

  lemma {:induction false} HalvedMore(v: bv16, k: nat)
    ensures Halved(v, k + 1) == Half(Halved(v, k))
    decreases k
  {
    hide Half;
    if k > 0 {
      HalvedMore(Half(v), k - 1);
    }
  }

  function Shifted(v: bv16, k: nat): bv16 {
    match k
    case 0 => v
    case 1 => v >> 1
    case 2 => v >> 2
    case 3 => v >> 3
    case 4 => v >> 4
    case 5 => v >> 5
    case 6 => v >> 6
    case _ => v >> 7
  }

  lemma HalfShifted(v: bv16, k: nat)
    requires k < 7
    ensures Half(Shifted(v, k)) == Shifted(v, k + 1)
  {
    HalfChain(v);
    hide Half;
    match k {
      case 0 => assert Shifted(v, 0) == v && Shifted(v, 1) == v >> 1;
      case 1 => assert Shifted(v, 1) == v >> 1 && Shifted(v, 2) == v >> 2;
      case 2 => assert Shifted(v, 2) == v >> 2 && Shifted(v, 3) == v >> 3;
      case 3 => assert Shifted(v, 3) == v >> 3 && Shifted(v, 4) == v >> 4;
      case 4 => assert Shifted(v, 4) == v >> 4 && Shifted(v, 5) == v >> 5;
      case 5 => assert Shifted(v, 5) == v >> 5 && Shifted(v, 6) == v >> 6;
      case _ => assert Shifted(v, 6) == v >> 6 && Shifted(v, 7) == v >> 7;
    }
  }

  lemma HalfChain(v: bv16)
    ensures Half(v) == v >> 1 && Half(v >> 1) == v >> 2 && Half(v >> 2) == v >> 3 && Half(v >> 3) == v >> 4
    ensures Half(v >> 4) == v >> 5 && Half(v >> 5) == v >> 6 && Half(v >> 6) == v >> 7
  {
  }

  lemma OddShifted(b: bv8, k: nat)
    requires k < 8
    ensures Odd(Shifted(Wide(b), k)) <==> ByteBit(b, k)
  {
  }

  lemma {:induction false} HalvedIsShifted(v: bv16, k: nat)
    requires k < 8
    ensures Halved(v, k) == Shifted(v, k)
    decreases k
  {
    if k > 0 {
      hide Half, Shifted, Halved;
      HalvedIsShifted(v, k - 1);
      HalvedMore(v, k - 1);
      HalfShifted(v, k - 1);
    }
  }

  lemma HalvedBit(b: bv8, k: nat)
    requires k < 8
    ensures Odd(Halved(Wide(b), k)) <==> ByteBit(b, k)
  {
    hide Half, Odd, Wide, ByteBit, Halved, Shifted;
    HalvedIsShifted(Wide(b), k);
    OddShifted(b, k);
  }

  /** Which CRC this is: two bytes are the checksum of the data exactly when data and
      bytes together, with the first sixteen line bits complemented, are a multiple of
      x^16 + x^15 + x^2 + 1. */
  lemma CrcIsDivision(data: seq<bv8>, x: bv8, y: bv8)
    ensures [x, y] == CrcBytes(data) <==> IsMultiple(Complemented(LineBits(data + [x, y])))
  {
    hide BitRegister, Register, LineBits, CrcBytes;
    var line := LineBits(data + [x, y]);
    CrcResidue(data, x, y);
    RegisterReadsBits(0xFFFF, data + [x, y]);
    PresetComplements(line);
    RegisterDivides(Complemented(line));
  }

  /** The example of that section: the frame 02 07 carries the bytes 41 12. */
  lemma StandardExample()
    ensures CrcBytes([0x02, 0x07]) == [0x41, 0x12]
  {
    assert BitSteps(0xFFFD, 8) == BitSteps(0xDFFF, 7) == BitSteps(0xCFFE, 6) == BitSteps(0x67FF, 5);
    assert BitSteps(0x67FF, 5) == BitSteps(0x93FE, 4) == BitSteps(0x49FF, 3) == BitSteps(0x84FE, 2);
    assert BitSteps(0x84FE, 2) == BitSteps(0x427F, 1) == BitSteps(0x813E, 0);
    assert BitSteps(0x8139, 8) == BitSteps(0xE09D, 7) == BitSteps(0xD04F, 6) == BitSteps(0xC826, 5);
    assert BitSteps(0xC826, 5) == BitSteps(0x6413, 4) == BitSteps(0x9208, 3) == BitSteps(0x4904, 2);
    assert BitSteps(0x4904, 2) == BitSteps(0x2482, 1) == BitSteps(0x1241, 0);
    assert [0x02 as bv8, 0x07][1..] == [0x07] && [0x07 as bv8][1..] == [];
    assert Register(0xFFFF, [0x02, 0x07]) == Register(0x813E, [0x07]) == Register(0x1241, []);
  }
}
