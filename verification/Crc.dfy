/** The CRC of the chassis' Modbus RTU link: the bit-serial register of
    protocol.crc16 and the error-detection theorems behind it.

    The word-level facts are one-line lemmas on 16-bit vectors; the inductive
    proofs `hide` the word operations and work from those facts alone. */
module Crc {

  /** Generator x^16 + x^15 + x^2 + 1, bit-reversed because the line sends each
      byte least significant bit first (section 6.2.2 of MODBUS over Serial Line
      Specification V1.02). */
  const GENERATOR: bv16 := 0xA001
  const PRESET: bv16 := 0xFFFF

  // ---------------------------------------------------------------- the register

  /** One turn of the inner loop: shift out the low bit, feed it back. */
  function BitStep(c: bv16): bv16 {
    if c & 1 == 1 then (c >> 1) ^ GENERATOR else c >> 1
  }

  function BitSteps(c: bv16, n: nat): bv16
    decreases n
  {
    if n == 0 then c else BitSteps(BitStep(c), n - 1)
  }

  /** Addition of polynomials over GF(2). */
  function Plus(x: bv16, y: bv16): bv16 { x ^ y }

  function Wide(b: bv8): bv16 { b as bv16 }

  function Double(v: bv16): bv16 { v << 1 }

  function Half(v: bv16): bv16 { v >> 1 }

  function Odd(v: bv16): bool { v & 1 == 1 }

  /** One turn of the outer loop. */
  function ByteStep(c: bv16, b: bv8): bv16 {
    BitSteps(Plus(c, Wide(b)), 8)
  }

  /** The register after `data`, started from `c`. */
  function Register(c: bv16, data: seq<bv8>): bv16
    decreases |data|
  {
    if data == [] then c else Register(ByteStep(c, data[0]), data[1..])
  }

  function Low(c: bv16): bv8 { (c & 0xFF) as bv8 }

  function High(c: bv16): bv8 { (c >> 8) as bv8 }

  function Bytes(c: bv16): seq<bv8> { [Low(c), High(c)] }

  /** The two CRC bytes in transmission order, low byte first. */
  function CrcBytes(data: seq<bv8>): seq<bv8> {
    Bytes(Register(PRESET, data))
  }

  lemma LoadByte(c: bv16, b: bv8)
    ensures c ^ (b as bv16) == Plus(c, Wide(b))
  {
  }

  method Crc16(data: seq<bv8>) returns (bytes: seq<bv8>)
    ensures bytes == CrcBytes(data)
  {
    var crc := PRESET;
    for i := 0 to |data|
      invariant Register(PRESET, data) == Register(crc, data[i..])
    {
      LoadByte(crc, data[i]);
      ghost var loaded := Plus(crc, Wide(data[i]));
      crc := crc ^ (data[i] as bv16);
      for k := 0 to 8
        invariant BitSteps(loaded, 8) == BitSteps(crc, 8 - k)
      {
        crc := BitStep(crc);
      }
      assert data[i..][1..] == data[i + 1..];
    }
    bytes := Bytes(crc);
  }

  // ------------------------------------------------------- linearity over XOR

  lemma PlusLaws(x: bv16, y: bv16)
    ensures Plus(x, y) == Plus(y, x)
    ensures Plus(x, x) == 0 && Plus(x, 0) == x
    ensures Plus(x, y) == 0 <==> x == y
  {
  }

  lemma PlusRegroups(x: bv16, y: bv16, a: bv16, b: bv16)
    ensures Plus(Plus(x, y), Plus(a, b)) == Plus(Plus(x, a), Plus(y, b))
  {
    hide Plus;
    PlusAssociates(x, y, Plus(a, b));
    PlusAssociates(y, a, b);
    PlusAssociates(a, y, b);
    PlusAssociates(x, a, Plus(y, b));
    PlusLaws(y, a);
  }

  lemma PlusAssociates(x: bv16, y: bv16, z: bv16)
    ensures Plus(Plus(x, y), z) == Plus(x, Plus(y, z))
  {
  }

  lemma PlusHalves(x: bv16, y: bv16)
    ensures Half(Plus(x, y)) == Plus(Half(x), Half(y))
  {
  }

  lemma PlusParity(x: bv16, y: bv16)
    ensures Odd(Plus(x, y)) <==> Odd(x) != Odd(y)
  {
  }

  function Feedback(odd: bool): bv16 { if odd then GENERATOR else 0 }

  lemma BitStepFeeds(c: bv16)
    ensures BitStep(c) == Plus(Half(c), Feedback(Odd(c)))
  {
    if !Odd(c) {
      hide Plus;
      PlusLaws(c >> 1, 0);
    }
  }

  lemma BitStepIsLinear(x: bv16, y: bv16)
    ensures BitStep(Plus(x, y)) == Plus(BitStep(x), BitStep(y))
  {
    hide Plus, Odd, Half;
    PlusHalves(x, y);
    PlusParity(x, y);
    var fx, fy := Feedback(Odd(x)), Feedback(Odd(y));
    PlusRegroups(Half(x), Half(y), fx, fy);
    BitStepFeeds(x);
    BitStepFeeds(y);
    BitStepFeeds(Plus(x, y));
    PlusLaws(GENERATOR, GENERATOR);
    PlusLaws(GENERATOR, 0);
    PlusLaws(0, GENERATOR);
    PlusLaws(0, 0);
  }

  lemma {:induction false} BitStepsAreLinear(x: bv16, y: bv16, n: nat)
    ensures BitSteps(Plus(x, y), n) == Plus(BitSteps(x, n), BitSteps(y, n))
    decreases n
  {
    hide Plus, BitStep;
    if n > 0 {
      BitStepIsLinear(x, y);
      BitStepsAreLinear(BitStep(x), BitStep(y), n - 1);
    }
  }

  /** Bytewise XOR of two strings of one length. */
  function Xor(a: seq<bv8>, b: seq<bv8>): (d: seq<bv8>)
    requires |a| == |b|
    ensures |d| == |a|
  {
    seq(|a|, i requires 0 <= i < |a| => a[i] ^ b[i])
  }

  lemma WidePlus(a: bv8, b: bv8)
    ensures Wide(a ^ b) == Plus(Wide(a), Wide(b))
  {
  }

  lemma XorTail(a: seq<bv8>, b: seq<bv8>)
    requires |a| == |b| > 0
    ensures Xor(a, b)[0] == a[0] ^ b[0] && Xor(a, b)[1..] == Xor(a[1..], b[1..])
  {
  }

  /** The register of a bytewise XOR is the XOR of the registers. */
  lemma {:induction false} RegisterIsLinear(x: bv16, y: bv16, a: seq<bv8>, b: seq<bv8>)
    requires |a| == |b|
    ensures Register(Plus(x, y), Xor(a, b)) == Plus(Register(x, a), Register(y, b))
    decreases |a|
  {
    hide Plus, Wide, BitSteps, Xor;
    if a != [] {
      WidePlus(a[0], b[0]);
      PlusRegroups(x, y, Wide(a[0]), Wide(b[0]));
      BitStepsAreLinear(Plus(x, Wide(a[0])), Plus(y, Wide(b[0])), 8);
      XorTail(a, b);
      RegisterIsLinear(ByteStep(x, a[0]), ByteStep(y, b[0]), a[1..], b[1..]);
    }
  }

  lemma BytesOfPlus(x: bv16, y: bv16)
    ensures Bytes(Plus(x, y)) == Xor(Bytes(x), Bytes(y))
  {
    HalvesOfPlus(x, y);
    hide Low, High, Plus;
    var d := Xor(Bytes(x), Bytes(y));
    assert d[0] == Low(x) ^ Low(y) && d[1] == High(x) ^ High(y);
    assert d == [d[0], d[1]];
  }

  lemma HalvesOfPlus(x: bv16, y: bv16)
    ensures Low(Plus(x, y)) == Low(x) ^ Low(y) && High(Plus(x, y)) == High(x) ^ High(y)
  {
  }

  /** The preset cancels in threes: crc(a) ^ crc(b) ^ crc(c) == crc(a ^ b ^ c). */
  lemma CrcOfXor3(a: seq<bv8>, b: seq<bv8>, c: seq<bv8>)
    requires |a| == |b| == |c|
    ensures CrcBytes(Xor(Xor(a, b), c)) == Xor(Xor(CrcBytes(a), CrcBytes(b)), CrcBytes(c))
  {
    hide Plus, Register, Xor, Bytes, PRESET;
    RegisterIsLinear(PRESET, PRESET, a, b);
    PlusLaws(PRESET, PRESET);
    PlusLaws(0, PRESET);
    PlusLaws(PRESET, 0);
    RegisterIsLinear(0, PRESET, Xor(a, b), c);
    var ra, rb, rc := Register(PRESET, a), Register(PRESET, b), Register(PRESET, c);
    BytesOfPlus(ra, rb);
    BytesOfPlus(Plus(ra, rb), rc);
  }

  // ------------------------------------------------------------- invertibility

  /** The low bit that was shifted out can be read off the top of the result. */
  lemma TopBitTells(x: bv16)
    ensures BitStep(x) & 0x8000 == 0x8000 <==> x & 1 == 1
  {
    assert (x >> 1) & 0x8000 == 0;
    assert ((x >> 1) ^ GENERATOR) & 0x8000 == 0x8000;
  }

  lemma Unshift(x: bv16, y: bv16)
    ensures (x >> 1) ^ GENERATOR == (y >> 1) ^ GENERATOR ==> x >> 1 == y >> 1
    ensures x & 1 == y & 1 && x >> 1 == y >> 1 ==> x == y
    ensures x & 1 == 0 || x & 1 == 1
    ensures y & 1 == 0 || y & 1 == 1
  {
  }

  lemma BitStepInjective(x: bv16, y: bv16)
    requires BitStep(x) == BitStep(y)
    ensures x == y
  {
    TopBitTells(x);
    TopBitTells(y);
    Unshift(x, y);
  }

  lemma {:induction false} BitStepsInjective(x: bv16, y: bv16, n: nat)
    requires BitSteps(x, n) == BitSteps(y, n)
    ensures x == y
    decreases n
  {
    hide BitStep;
    if n > 0 {
      BitStepsInjective(BitStep(x), BitStep(y), n - 1);
      BitStepInjective(x, y);
    }
  }

  lemma {:induction false} ZeroStaysZero(n: nat)
    ensures BitSteps(0, n) == 0
  {
    if n > 0 {
      ZeroStaysZero(n - 1);
    }
  }

  /** A nonzero register never becomes zero by shifting alone. */
  lemma NonzeroStaysNonzero(c: bv16, n: nat)
    ensures BitSteps(c, n) == 0 <==> c == 0
  {
    hide BitStep;
    ZeroStaysZero(n);
    if BitSteps(c, n) == 0 {
      BitStepsInjective(c, 0, n);
    }
  }

  lemma {:induction false} BitStepsAdd(c: bv16, m: nat, n: nat)
    ensures BitSteps(c, m + n) == BitSteps(BitSteps(c, m), n)
    decreases m
  {
    hide BitStep;
    if m > 0 {
      BitStepsAdd(BitStep(c), m - 1, n);
    }
  }

  // ------------------------------------------------------------------ bit level

  function Bit(b: bool): bv16 { if b then 1 else 0 }

  /** The register fed one line bit at a time. */
  function BitRegister(c: bv16, bits: seq<bool>): bv16
    decreases |bits|
  {
    if bits == [] then c else BitRegister(BitStep(Plus(c, Bit(bits[0]))), bits[1..])
  }

  /** The word whose bit k is bits[k]. */
  function Pack(bits: seq<bool>): bv16
    decreases |bits|
  {
    if bits == [] then 0 else Plus(Bit(bits[0]), Double(Pack(bits[1..])))
  }

  /** `v` has no bit set at or above position n. */
  predicate Fits(v: bv16, n: nat)
    decreases n
  {
    if n == 0 then v == 0 else Fits(Half(v), n - 1)
  }

  lemma HalfOfZero()
    ensures Half(0) == 0 && Double(0) == 0 && !Odd(0)
  {
  }

  lemma {:induction false} FitsMore(v: bv16, n: nat, m: nat)
    requires Fits(v, n) && n <= m
    ensures Fits(v, m)
    decreases m
  {
    hide Half;
    if n > 0 {
      FitsMore(Half(v), n - 1, m - 1);
    } else if m > 0 {
      HalfOfZero();
      FitsMore(Half(v), 0, m - 1);
    }
  }

  lemma Fits5(v: bv16, n: nat)
    requires Fits(v, n + 5)
    ensures Fits(v >> 5, n)
  {
    assert Fits(Half(v), n + 4);
    assert Fits(Half(Half(v)), n + 3);
    assert Fits(Half(Half(Half(v))), n + 2);
    assert Fits(Half(Half(Half(Half(v)))), n + 1);
    assert Fits(Half(Half(Half(Half(Half(v))))), n);
  }

  lemma TopClear(v: bv16)
    ensures ((v >> 5) >> 5) >> 5 == 0 ==> Half(Double(v)) == v
  {
  }

  /** Doubling loses nothing below the top bit. */
  lemma DoubleHalves(v: bv16, n: nat)
    requires Fits(v, n) && n <= 15
    ensures Half(Double(v)) == v
  {
    hide Half, Double;
    FitsMore(v, n, 15);
    Fits5(v, 10);
    Fits5(v >> 5, 5);
    Fits5((v >> 5) >> 5, 0);
    TopClear(v);
  }

  lemma PackHead(b: bool, v: bv16)
    requires Half(Double(v)) == v
    ensures Odd(Plus(Bit(b), Double(v))) == b
    ensures Half(Plus(Bit(b), Double(v))) == v
    ensures BitStep(Double(v)) == v
  {
    hide Plus, Half;
    PlusParity(Bit(b), Double(v));
    PlusHalves(Bit(b), Double(v));
    assert Half(Bit(b)) == 0 && !Odd(Double(v)) && Odd(Bit(b)) == b by {
      HalfOfBit(b, v);
    }
    PlusLaws(0, v);
    PlusLaws(v, 0);
    BitStepFeeds(Double(v));
  }

  lemma HalfOfBit(b: bool, v: bv16)
    ensures Half(Bit(b)) == 0 && !Odd(Double(v)) && Odd(Bit(b)) == b
  {
  }

  lemma {:induction false} PackFits(bits: seq<bool>)
    requires |bits| <= 16
    ensures Fits(Pack(bits), |bits|)
    decreases |bits|
  {
    hide Half, Double, Plus, Bit, BitStep;
    if bits != [] {
      PackFits(bits[1..]);
      DoubleHalves(Pack(bits[1..]), |bits| - 1);
      PackHead(bits[0], Pack(bits[1..]));
    }
  }

  /** Up to sixteen line bits may be added to the register in one go. */
  lemma {:induction false} BitRegisterPacks(c: bv16, bits: seq<bool>)
    requires |bits| <= 16
    ensures BitRegister(c, bits) == BitSteps(Plus(c, Pack(bits)), |bits|)
    decreases |bits|
  {
    hide Half, Double, Plus, Bit, BitStep;
    if bits == [] {
      PlusLaws(c, 0);
    } else {
      var rest := Pack(bits[1..]);
      var head := Bit(bits[0]);
      PackFits(bits[1..]);
      DoubleHalves(rest, |bits| - 1);
      PackHead(bits[0], rest);
      BitStepIsLinear(Plus(c, head), Double(rest));
      PlusRegroups(c, head, 0, Double(rest));
      PlusRegroups(c, 0, head, Double(rest));
      PlusLaws(c, 0);
      PlusLaws(0, Double(rest));
      PlusLaws(Double(rest), 0);
      BitRegisterPacks(BitStep(Plus(c, head)), bits[1..]);
    }
  }

  predicate AllClear(bits: seq<bool>) {
    forall i :: 0 <= i < |bits| ==> !bits[i]
  }

  lemma {:induction false} PackIsZero(bits: seq<bool>)
    requires |bits| <= 16 && Pack(bits) == 0
    ensures AllClear(bits)
    decreases |bits|
  {
    hide Half, Double, Plus, Bit, BitStep;
    if bits != [] {
      PackFits(bits[1..]);
      DoubleHalves(Pack(bits[1..]), |bits| - 1);
      PackHead(bits[0], Pack(bits[1..]));
      HalfOfZero();
      PackIsZero(bits[1..]);
    }
  }

  // ------------------------------------------------------------------- residue

  /** A byte in the upper half moves down without feedback. */
  lemma UpperByteFalls(b: bv8)
    ensures BitSteps(Wide(b) << 8, 8) == Wide(b)
  {
    var v := Wide(b) << 8;
    FallsClear(v);
    hide Wide, BitStep;
    BitStepsAdd(v, 4, 4);
    var v4 := v >> 4;
    assert BitSteps(v, 4) == BitSteps(v >> 1, 3) == BitSteps(v >> 2, 2) == BitSteps(v >> 3, 1) == v4;
    assert BitSteps(v4, 4) == BitSteps(v >> 5, 3) == BitSteps(v >> 6, 2) == BitSteps(v >> 7, 1) == v >> 8;
    UpperByteBack(b);
  }

  lemma UpperByteBack(b: bv8)
    ensures (Wide(b) << 8) >> 8 == Wide(b)
    ensures (Wide(b) << 8) & 0xFF == 0
  {
  }

  lemma FallsClear(v: bv16)
    requires v & 0xFF == 0
    ensures BitStep(v) == v >> 1 && BitStep(v >> 1) == v >> 2 && BitStep(v >> 2) == v >> 3
    ensures BitStep(v >> 3) == v >> 4 && BitStep(v >> 4) == v >> 5 && BitStep(v >> 5) == v >> 6
    ensures BitStep(v >> 6) == v >> 7 && BitStep(v >> 7) == v >> 8
  {
  }

  lemma HalvesMeet(c: bv16, x: bv8, y: bv8)
    ensures Plus(c, Wide(x)) == Wide(y) << 8 <==> x == Low(c) && y == High(c)
  {
  }

  /** Two trailing bytes bring the register to zero exactly when they are its own
      value, low byte first. */
  lemma RegisterResidue(c: bv16, x: bv8, y: bv8)
    ensures Register(c, [x, y]) == 0 <==> [x, y] == Bytes(c)
  {
    hide Plus, Wide, BitSteps, Low, High;
    var t := ByteStep(c, x);
    assert [x, y][1..] == [y] && [y][1..] == [];
    assert Register(c, [x, y]) == Register(t, [y]) == Register(ByteStep(t, y), []) == ByteStep(t, y);
    NonzeroStaysNonzero(Plus(t, Wide(y)), 8);
    PlusLaws(t, Wide(y));
    UpperByteFalls(y);
    if t == Wide(y) {
      BitStepsInjective(Plus(c, Wide(x)), Wide(y) << 8, 8);
    }
    HalvesMeet(c, x, y);
    assert [x, y] == Bytes(c) <==> x == Low(c) && y == High(c) by {
      assert [x, y][0] == x && [x, y][1] == y;
    }
  }

  lemma {:induction false} RegisterConcat(c: bv16, a: seq<bv8>, b: seq<bv8>)
    ensures Register(c, a + b) == Register(Register(c, a), b)
    decreases |a|
  {
    hide ByteStep;
    if a == [] {
      assert a + b == b;
    } else {
      assert (a + b)[1..] == a[1..] + b;
      RegisterConcat(ByteStep(c, a[0]), a[1..], b);
    }
  }

  /** A receiver's check: the register over the whole frame comes out zero. */
  predicate FrameOk(frame: seq<bv8>) {
    Register(PRESET, frame) == 0
  }

  /** CRC residue: a frame passes exactly when its last two bytes are the CRC of
      the rest, low byte first. */
  lemma CrcResidue(data: seq<bv8>, x: bv8, y: bv8)
    ensures FrameOk(data + [x, y]) <==> [x, y] == CrcBytes(data)
  {
    hide ByteStep, Bytes;
    RegisterConcat(PRESET, data, [x, y]);
    RegisterResidue(Register(PRESET, data), x, y);
  }

  // ---------------------------------------------------------- bytes as line bits

  /** The low `n` bits of a word, least significant first. */
  function BitsFrom(v: bv16, n: nat): (bits: seq<bool>)
    ensures |bits| == n
    decreases n
  {
    if n == 0 then [] else [Odd(v)] + BitsFrom(Half(v), n - 1)
  }

  /** The line bits of a byte string: each byte least significant bit first. */
  function LineBits(data: seq<bv8>): (bits: seq<bool>)
    ensures |bits| == 8 * |data|
  {
    if data == [] then [] else BitsFrom(Wide(data[0]), 8) + LineBits(data[1..])
  }

  lemma SplitWord(v: bv16)
    ensures v == Plus(Bit(Odd(v)), Double(Half(v)))
  {
  }

  lemma {:induction false} PackBitsFrom(v: bv16, n: nat)
    requires Fits(v, n)
    ensures Pack(BitsFrom(v, n)) == v
    decreases n
  {
    hide Half, Double, Plus, Bit, Odd;
    if n > 0 {
      SplitWord(v);
      assert BitsFrom(v, n)[1..] == BitsFrom(Half(v), n - 1);
      PackBitsFrom(Half(v), n - 1);
    }
  }

  lemma ByteFits(b: bv8)
    ensures Fits(Wide(b), 8)
  {
    var v := Wide(b);
    assert v >> 8 == 0;
    Halve4(v);
    Halve4(v >> 4);
    hide Half, Wide;
    var v4 := v >> 4;
    assert Fits(v4 >> 4, 0);
    assert Fits(Half(Half(Half(v4))), 1);
    assert Fits(Half(Half(v4)), 2);
    assert Fits(Half(v4), 3);
    assert Fits(v4, 4);
    assert Fits(Half(Half(Half(v))), 5);
    assert Fits(Half(Half(v)), 6);
    assert Fits(Half(v), 7);
  }

  lemma Halve4(v: bv16)
    ensures Half(Half(Half(Half(v)))) == v >> 4
    ensures (v >> 4) >> 4 == v >> 8
  {
  }

  lemma {:induction false} BitRegisterConcat(c: bv16, a: seq<bool>, b: seq<bool>)
    ensures BitRegister(c, a + b) == BitRegister(BitRegister(c, a), b)
    decreases |a|
  {
    hide BitStep, Plus, Bit;
    if a == [] {
      assert a + b == b;
    } else {
      assert (a + b)[1..] == a[1..] + b;
      BitRegisterConcat(BitStep(Plus(c, Bit(a[0]))), a[1..], b);
    }
  }

  /** The two nested loops read the line bit by bit. */
  lemma {:induction false} RegisterReadsBits(c: bv16, data: seq<bv8>)
    ensures Register(c, data) == BitRegister(c, LineBits(data))
    decreases |data|
  {
    hide BitStep, Plus, Bit, Wide, Pack, BitSteps, BitsFrom, Fits, BitRegister;
    if data == [] {
      BitRegisterEmpty(c);
    } else {
      var v := Wide(data[0]);
      ByteFits(data[0]);
      PackBitsFrom(v, 8);
      BitRegisterPacks(c, BitsFrom(v, 8));
      BitRegisterConcat(c, BitsFrom(v, 8), LineBits(data[1..]));
      RegisterReadsBits(ByteStep(c, data[0]), data[1..]);
    }
  }

  lemma BitRegisterEmpty(c: bv16)
    ensures BitRegister(c, []) == c
  {
  }

  // ------------------------------------------------------------ error detection

  /** Where two bit strings of one length differ. */
  function Differences(a: seq<bool>, b: seq<bool>): (d: seq<bool>)
    requires |a| == |b|
    ensures |d| == |a| && forall i :: 0 <= i < |a| ==> d[i] == (a[i] != b[i])
  {
    seq(|a|, i requires 0 <= i < |a| => a[i] != b[i])
  }

  lemma DifferencesConcat(a: seq<bool>, b: seq<bool>, c: seq<bool>, d: seq<bool>)
    requires |a| == |b| && |c| == |d|
    ensures Differences(a + c, b + d) == Differences(a, b) + Differences(c, d)
  {
  }

  lemma {:induction false} BitsFromPlus(v: bv16, w: bv16, n: nat)
    ensures BitsFrom(Plus(v, w), n) == Differences(BitsFrom(v, n), BitsFrom(w, n))
    decreases n
  {
    hide Half, Plus, Odd;
    if n > 0 {
      PlusParity(v, w);
      PlusHalves(v, w);
      BitsFromPlus(Half(v), Half(w), n - 1);
      DifferencesConcat([Odd(v)], [Odd(w)], BitsFrom(Half(v), n - 1), BitsFrom(Half(w), n - 1));
      assert Differences([Odd(v)], [Odd(w)]) == [Odd(Plus(v, w))];
    }
  }

  lemma {:induction false} LineBitsXor(a: seq<bv8>, b: seq<bv8>)
    requires |a| == |b|
    ensures LineBits(Xor(a, b)) == Differences(LineBits(a), LineBits(b))
    decreases |a|
  {
    hide Wide, Plus, BitsFrom, Xor, Differences;
    if a != [] {
      XorTail(a, b);
      WidePlus(a[0], b[0]);
      BitsFromPlus(Wide(a[0]), Wide(b[0]), 8);
      LineBitsXor(a[1..], b[1..]);
      DifferencesConcat(BitsFrom(Wide(a[0]), 8), BitsFrom(Wide(b[0]), 8), LineBits(a[1..]), LineBits(b[1..]));
    }
  }

  lemma WideInjective(a: bv8, b: bv8)
    requires Wide(a) == Wide(b)
    ensures a == b
  {
  }

  lemma {:induction false} LineBitsInjective(a: seq<bv8>, b: seq<bv8>)
    requires |a| == |b| && LineBits(a) == LineBits(b)
    ensures a == b
    decreases |a|
  {
    hide Wide, BitsFrom, Pack, Fits;
    if a != [] {
      var x, y := BitsFrom(Wide(a[0]), 8), BitsFrom(Wide(b[0]), 8);
      assert x == LineBits(a)[..8] && y == LineBits(b)[..8];
      assert LineBits(a[1..]) == LineBits(a)[8..] && LineBits(b[1..]) == LineBits(b)[8..];
      ByteFits(a[0]);
      ByteFits(b[0]);
      PackBitsFrom(Wide(a[0]), 8);
      PackBitsFrom(Wide(b[0]), 8);
      WideInjective(a[0], b[0]);
      LineBitsInjective(a[1..], b[1..]);
    }
  }

  lemma {:induction false} ClearBitsShift(c: bv16, bits: seq<bool>)
    requires AllClear(bits)
    ensures BitRegister(c, bits) == BitSteps(c, |bits|)
    decreases |bits|
  {
    hide BitStep, Plus;
    if bits != [] {
      PlusLaws(c, 0);
      ClearBitsShift(BitStep(c), bits[1..]);
    }
  }

  /** A nonzero burst of at most sixteen bits, with clean line before and after,
      leaves a nonzero register. */
  lemma BurstLeavesTrace(bits: seq<bool>, s: nat, e: nat)
    requires s <= e <= |bits| && e - s <= 16
    requires AllClear(bits[..s]) && AllClear(bits[e..]) && !AllClear(bits[s..e])
    ensures BitRegister(0, bits) != 0
  {
    hide BitStep, Plus, Pack, BitSteps, BitRegister, AllClear;
    var lead, burst, tail := bits[..s], bits[s..e], bits[e..];
    assert bits == lead + (burst + tail);
    BitRegisterConcat(0, lead, burst + tail);
    ClearBitsShift(0, lead);
    NonzeroStaysNonzero(0, s);
    BitRegisterConcat(0, burst, tail);
    BitRegisterPacks(0, burst);
    PlusLaws(0, Pack(burst));
    PlusLaws(Pack(burst), 0);
    if Pack(burst) == 0 {
      PackIsZero(burst);
    }
    NonzeroStaysNonzero(Pack(burst), |burst|);
    var c := BitRegister(0, burst);
    ClearBitsShift(c, tail);
    NonzeroStaysNonzero(c, |tail|);
  }

  /** `a` and `b` differ, and only within sixteen consecutive line bits from `s`. */
  predicate DifferByBurst(a: seq<bv8>, b: seq<bv8>, s: nat)
    requires |a| == |b|
  {
    && a != b
    && forall i :: 0 <= i < 8 * |a| && LineBits(a)[i] != LineBits(b)[i] ==> s <= i < s + 16
  }

  lemma RegistersDiffer(a: seq<bv8>, b: seq<bv8>)
    requires |a| == |b|
    ensures Plus(Register(PRESET, a), Register(PRESET, b))
         == BitRegister(0, Differences(LineBits(a), LineBits(b)))
  {
    hide Plus, BitRegister, LineBits, Register, PRESET;
    RegisterIsLinear(PRESET, PRESET, a, b);
    PlusLaws(PRESET, PRESET);
    RegisterReadsBits(0, Xor(a, b));
    LineBitsXor(a, b);
  }

  lemma BytesInjective(x: bv16, y: bv16)
    requires Bytes(x) == Bytes(y)
    ensures x == y
  {
    HalvesMeet(x, Low(x), High(x));
    HalvesMeet(y, Low(y), High(y));
    var lo, hi := Wide(Low(x)), Wide(High(x));
    assert Low(x) == Bytes(x)[0] == Bytes(y)[0] == Low(y);
    assert High(x) == Bytes(x)[1] == Bytes(y)[1] == High(y);
    hide Plus, Wide, Low, High;
    PlusLaws(x, lo);
    PlusLaws(y, lo);
    PlusAssociates(x, lo, lo);
    PlusAssociates(y, lo, lo);
    PlusLaws(lo, lo);
    PlusLaws(x, 0);
    PlusLaws(y, 0);
  }

  /** Burst detection: no error burst of up to sixteen line bits keeps the CRC. */
  lemma BurstDetected(a: seq<bv8>, b: seq<bv8>, s: nat)
    requires |a| == |b| && DifferByBurst(a, b, s)
    ensures CrcBytes(a) != CrcBytes(b)
    ensures FrameOk(a) ==> !FrameOk(b)
  {
    hide Plus, BitRegister, Register, Bytes, LineBits;
    RegistersDiffer(a, b);
    var d := Differences(LineBits(a), LineBits(b));
    if AllClear(d) {
      assert LineBits(a) == LineBits(b);
      LineBitsInjective(a, b);
    }
    var e := if s + 16 <= |d| then s + 16 else |d|;
    if s < |d| {
      var k :| 0 <= k < |d| && d[k];
      assert d[s..e][k - s];
      BurstLeavesTrace(d, s, e);
    }
    PlusLaws(Register(PRESET, a), Register(PRESET, b));
    if CrcBytes(a) == CrcBytes(b) {
      BytesInjective(Register(PRESET, a), Register(PRESET, b));
    }
  }

  // -------------------------------------------------------------------- parity

  function WordParity(v: bv16, n: nat): bool
    decreases n
  {
    if n == 0 then false else Odd(v) != WordParity(Half(v), n - 1)
  }

  function LineParity(bits: seq<bool>): bool
    decreases |bits|
  {
    if bits == [] then false else bits[0] != LineParity(bits[1..])
  }

  lemma {:induction false} WordParityOfPlus(x: bv16, y: bv16, n: nat)
    ensures WordParity(Plus(x, y), n) == (WordParity(x, n) != WordParity(y, n))
    decreases n
  {
    hide Plus, Odd, Half;
    if n > 0 {
      PlusParity(x, y);
      PlusHalves(x, y);
      WordParityOfPlus(Half(x), Half(y), n - 1);
    }
  }

  lemma {:induction false} WordParityMore(v: bv16, n: nat)
    requires Fits(v, n)
    ensures WordParity(v, n + 1) == WordParity(v, n)
    decreases n
  {
    if n == 0 {
      HalfOfZero();
    } else {
      hide Odd, Half;
      WordParityMore(Half(v), n - 1);
    }
  }

  lemma WordFits(v: bv16)
    ensures Fits(v, 16)
  {
    Fits4(v, 12);
    Fits4(v >> 4, 8);
    Fits4(v >> 8, 4);
    Fits4(v >> 12, 0);
    ShiftedOut(v);
  }

  lemma Fits4(v: bv16, n: nat)
    ensures Fits(v >> 4, n) ==> Fits(v, n + 4)
  {
    Halve4(v);
    hide Half;
    if Fits(v >> 4, n) {
      assert Fits(Half(Half(Half(v))), n + 1);
      assert Fits(Half(Half(v)), n + 2);
      assert Fits(Half(v), n + 3);
    }
  }

  lemma ShiftedOut(v: bv16)
    ensures (v >> 4) >> 4 == v >> 8 && (v >> 8) >> 4 == v >> 12 && (v >> 12) >> 4 == 0
  {
  }

  lemma {:induction false} ZeroParity(n: nat)
    ensures !WordParity(0, n)
  {
    HalfOfZero();
    hide Half, Odd;
    if n > 0 {
      ZeroParity(n - 1);
    }
  }

  lemma Parity4(v: bv16, n: nat)
    ensures WordParity(v, n + 4)
         == (Odd(v) != (Odd(Half(v)) != (Odd(Half(Half(v))) != (Odd(Half(Half(Half(v)))) != WordParity(v >> 4, n)))))
  {
    Halve4(v);
    hide Half, Odd;
    var v1 := Half(v);
    var v2 := Half(v1);
    var v3 := Half(v2);
    assert WordParity(v, n + 4) == (Odd(v) != WordParity(v1, n + 3));
    assert WordParity(v1, n + 3) == (Odd(v1) != WordParity(v2, n + 2));
    assert WordParity(v2, n + 2) == (Odd(v2) != WordParity(v3, n + 1));
    assert WordParity(v3, n + 1) == (Odd(v3) != WordParity(Half(v3), n));
  }

  /** The generator has an even number of terms: three besides x^16. */
  lemma KnownParities()
    ensures WordParity(GENERATOR, 16) && WordParity(1, 16) && !WordParity(0, 16)
  {
    ZeroParity(16);
    ZeroParity(15);
    ZeroParity(0);
    Parity4(0xA001, 12);
    Parity4(0xA00, 8);
    Parity4(0xA0, 4);
    Parity4(0xA, 0);
    assert Half(1) == 0 && Odd(1);
    assert WordParity(1, 16) == (Odd(1) != WordParity(Half(1), 15));
    assert WordParity(0xA001, 16);
  }

  /** x + 1 divides the generator, so a step keeps the parity of the register. */
  lemma BitStepKeepsParity(c: bv16)
    ensures WordParity(BitStep(c), 16) == WordParity(c, 16)
  {
    BitStepFeeds(c);
    assert WordParity(c, 17) == (Odd(c) != WordParity(Half(c), 16));
    hide BitStep, Half, Plus, Odd, WordParity, Fits;
    KnownParities();
    WordParityOfPlus(Half(c), Feedback(Odd(c)), 16);
    WordFits(c);
    WordParityMore(c, 16);
  }

  lemma {:induction false} RegisterParity(c: bv16, bits: seq<bool>)
    ensures WordParity(BitRegister(c, bits), 16) == (WordParity(c, 16) != LineParity(bits))
    decreases |bits|
  {
    hide BitStep, Plus, WordParity;
    if bits != [] {
      var loaded := Plus(c, Bit(bits[0]));
      RegisterParity(BitStep(loaded), bits[1..]);
      BitStepKeepsParity(loaded);
      WordParityOfPlus(c, Bit(bits[0]), 16);
      KnownParities();
    }
  }

  /** An odd number of flipped line bits always changes the CRC. */
  lemma OddErrorsDetected(a: seq<bv8>, b: seq<bv8>)
    requires |a| == |b| && LineParity(Differences(LineBits(a), LineBits(b)))
    ensures CrcBytes(a) != CrcBytes(b)
    ensures FrameOk(a) ==> !FrameOk(b)
  {
    hide Plus, BitRegister, Register, Bytes, LineBits, WordParity;
    RegistersDiffer(a, b);
    RegisterParity(0, Differences(LineBits(a), LineBits(b)));
    KnownParities();
    PlusLaws(Register(PRESET, a), Register(PRESET, b));
    if CrcBytes(a) == CrcBytes(b) {
      BytesInjective(Register(PRESET, a), Register(PRESET, b));
    }
  }
}
