/** Frames and registers of the chassis link: protocol.py, and the command path
    from a twist to the bytes on the wire. */
module Protocol {
  import opened Wrappers
  import opened Crc
  import opened Kinematics
  import opened Registers

  type Octet = b: int | 0 <= b < 0x100

  const SLAVE: Octet := 0x01
  const WRITE_MULTIPLE: Octet := 0x10
  const SPEED_REG := 0x0016
  const SPEED_COUNT := 3

  predicate IsInt16(v: int) { -0x8000 <= v < 0x8000 }

  predicate IsInt32(v: int) { -0x8000_0000 <= v < 0x8000_0000 }

  // ------------------------------------------------------------ 16-bit fields

  function HighByte(v: int): Octet { v / 0x100 % 0x100 }

  function LowByte(v: int): Octet { v % 0x100 }

  /** struct.pack of one '>h' or '>H': two's complement, high byte first. */
  function Field(v: int): (bytes: seq<Octet>)
    ensures |bytes| == 2
  {
    [HighByte(v), LowByte(v)]
  }

  function UnsignedField(high: Octet, low: Octet): int { high * 0x100 + low }

  function SignedField(high: Octet, low: Octet): int { SignExtend16(UnsignedField(high, low)) }

  lemma FieldRoundTrip(v: int)
    ensures IsInt16(v) ==> SignedField(HighByte(v), LowByte(v)) == v
    ensures 0 <= v < 0x1_0000 ==> UnsignedField(HighByte(v), LowByte(v)) == v
  {
  }

  // ---------------------------------------------------------- octets on the line

  /** The octets as the line carries them. */
  function OnLine(bytes: seq<Octet>): (line: seq<bv8>)
    ensures |line| == |bytes|
  {
    seq(|bytes|, i requires 0 <= i < |bytes| => bytes[i] as bv8)
  }

  function OffLine(line: seq<bv8>): (bytes: seq<Octet>)
    ensures |bytes| == |line|
  {
    seq(|line|, i requires 0 <= i < |line| => line[i] as int)
  }

  lemma OnLineConcat(a: seq<Octet>, b: seq<Octet>)
    ensures OnLine(a + b) == OnLine(a) + OnLine(b)
  {
  }

  lemma BackOnLine(line: seq<bv8>)
    ensures OnLine(OffLine(line)) == line
  {
    forall i | 0 <= i < |line| ensures OnLine(OffLine(line))[i] == line[i] {
      ByteReturns(line[i]);
    }
  }

  lemma ByteReturns(b: bv8)
    ensures (b as int) as bv8 == b
  {
  }

  function CrcOctets(bytes: seq<Octet>): seq<Octet> { OffLine(CrcBytes(OnLine(bytes))) }

  predicate LineOk(frame: seq<Octet>) { FrameOk(OnLine(frame)) }

  lemma SealedFrameIsOk(pdu: seq<Octet>)
    ensures |CrcOctets(pdu)| == 2 && LineOk(pdu + CrcOctets(pdu))
  {
    var line := OnLine(pdu);
    var crc := CrcBytes(line);
    CrcLength(line);
    hide CrcBytes, FrameOk;
    BackOnLine(crc);
    OnLineConcat(pdu, CrcOctets(pdu));
    assert crc == [crc[0], crc[1]];
    CrcResidue(line, crc[0], crc[1]);
  }

  lemma CrcLength(data: seq<bv8>)
    ensures |CrcBytes(data)| == 2
  {
  }

  // -------------------------------------------------------------- speed frame

  function SpeedHeader(): (bytes: seq<Octet>)
    ensures |bytes| == 7
  {
    [SLAVE, WRITE_MULTIPLE] + Field(SPEED_REG) + Field(SPEED_COUNT) + [6]
  }

  function SpeedPdu(left: int, right: int): (bytes: seq<Octet>)
    ensures |bytes| == 13
  {
    SpeedHeader() + Field(left) + Field(right) + Field(0)
  }

  /** The frame, or None where struct.pack refuses a speed outside int16. */
  function SpeedFrame(left: int, right: int): Option<seq<Octet>> {
    if IsInt16(left) && IsInt16(right) then
      Some(SpeedPdu(left, right) + CrcOctets(SpeedPdu(left, right)))
    else
      None
  }

  method WriteSpeedFrame(left: int, right: int) returns (frame: Option<seq<Octet>>)
    ensures frame == SpeedFrame(left, right)
  {
    if !IsInt16(left) || !IsInt16(right) {
      return None;
    }
    var pdu := SpeedHeader();
    pdu := pdu + (Field(left) + Field(right) + Field(0));
    assert pdu == SpeedPdu(left, right);
    var crc := Crc16(OnLine(pdu));
    frame := Some(pdu + OffLine(crc));
  }

  /** How a slave reads a Write Multiple Registers request (sections 4.2 and 6.12
      of MODBUS Application Protocol V1.1b3, framed as in section 2.5.1.2 of MODBUS
      over Serial Line V1.02): the CRC, address, function, count and byte count must
      fit, then the registers are big-endian words. */
  function ReadWriteRequest(frame: seq<Octet>): Option<(int, seq<int>)> {
    if |frame| < 9 || !LineOk(frame) || frame[0] != SLAVE || frame[1] != WRITE_MULTIPLE then None else
    var count := UnsignedField(frame[4], frame[5]);
    if frame[6] != 2 * count || |frame| != 9 + 2 * count then None else
    Some((UnsignedField(frame[2], frame[3]),
          seq(count, i requires 0 <= i < count => SignedField(frame[7 + 2 * i], frame[8 + 2 * i]))))
  }

  /** The frame is 15 bytes and any conforming slave reads back exactly the pair
      and the trailing zero, written from the speed register on. */
  lemma SpeedFrameRoundTrip(left: int, right: int)
    requires IsInt16(left) && IsInt16(right)
    ensures |SpeedFrame(left, right).value| == 15
    ensures ReadWriteRequest(SpeedFrame(left, right).value) == Some((SPEED_REG, [left, right, 0]))
  {
    hide HighByte, LowByte, UnsignedField, SignedField, LineOk, CrcOctets;
    var pdu := SpeedPdu(left, right);
    SealedFrameIsOk(pdu);
    var f := pdu + CrcOctets(pdu);
    FieldRoundTrip(left);
    FieldRoundTrip(right);
    FieldRoundTrip(0);
    FieldRoundTrip(SPEED_REG);
    FieldRoundTrip(SPEED_COUNT);
    assert f[6] == 6;
    assert f[2..4] == Field(SPEED_REG) && f[4..6] == Field(SPEED_COUNT);
    assert f[7..9] == Field(left) && f[9..11] == Field(right) && f[11..13] == Field(0);
    var regs := seq(3, i requires 0 <= i < 3 => SignedField(f[7 + 2 * i], f[8 + 2 * i]));
    assert regs == [left, right, 0];
  }

  /** `damaged` is what the line made of `frame`: a burst of at most sixteen
      consecutive bits from `s` was hit, or an odd number of bits anywhere. */
  predicate Damage(frame: seq<Octet>, damaged: seq<Octet>, s: nat) {
    && |frame| == |damaged|
    && var (f, d) := (OnLine(frame), OnLine(damaged));
       DifferByBurst(f, d, s) || LineParity(Differences(LineBits(f), LineBits(d)))
  }

  /** A slave never obeys a speed frame the line has damaged in either way. */
  lemma DamagedSpeedFrameRefused(left: int, right: int, damaged: seq<Octet>, s: nat)
    requires IsInt16(left) && IsInt16(right)
    requires Damage(SpeedFrame(left, right).value, damaged, s)
    ensures ReadWriteRequest(damaged) == None
  {
    hide CrcBytes, LineBits, LineParity, DifferByBurst, FrameOk, SpeedPdu, CrcOctets;
    SealedFrameIsOk(SpeedPdu(left, right));
    var f, d := OnLine(SpeedFrame(left, right).value), OnLine(damaged);
    if DifferByBurst(f, d, s) {
      BurstDetected(f, d, s);
    } else {
      OddErrorsDetected(f, d);
    }
  }

  /** From any twist to the wire and back: with a limit that fits int16 every twist
      has a frame, and a slave reads exactly its wheel speeds from it. */
  lemma TwistReachesTheWheels(linear: real, angular: real, linearScale: real, angularScale: real, speedMax: int)
    requires 0 <= speedMax <= 0x7FFF
    ensures var w := TwistToWheels(linear, angular, linearScale, angularScale, speedMax);
            SpeedFrame(w.left, w.right).Some?
            && ReadWriteRequest(SpeedFrame(w.left, w.right).value) == Some((SPEED_REG, [w.left, w.right, 0]))
  {
    hide SpeedPdu, ReadWriteRequest;
    TwistSymmetries(linear, angular, linearScale, angularScale, speedMax);
    var w := TwistToWheels(linear, angular, linearScale, angularScale, speedMax);
    SpeedFrameRoundTrip(w.left, w.right);
  }

  // ---------------------------------------------------------- sensor registers

  datatype Sensors = Sensors(odomLeft: int, odomRight: int, batteryVolts: real, errorCode: int, oilPercent: int)

  function ParseSensors(regs: seq<int>): Sensors
    requires |regs| == 7 && forall r <- regs :: IsRegister(r)
  {
    Sensors(SignExtend32(Pair(regs[0], regs[1])), SignExtend32(Pair(regs[2], regs[3])),
            regs[4] as real / 100.0, regs[5], regs[6] % 0x100)
  }

  /** The two registers in which the chassis reports a signed 32-bit count. */
  function CountRegisters(n: int): (int, int) {
    var u := n % 0x1_0000_0000;
    (u / 0x1_0000, u % 0x1_0000)
  }

  /** Any two int32 encoder counts survive packing into registers and parsing, and
      every register pair is the packing of the count it parses to. */
  lemma CountsRoundTrip(left: int, right: int, regs: seq<int>)
    requires IsInt32(left) && IsInt32(right)
    requires |regs| == 7 && forall r <- regs :: IsRegister(r)
    ensures (regs[0], regs[1]) == CountRegisters(left) && (regs[2], regs[3]) == CountRegisters(right)
       <==> ParseSensors(regs).odomLeft == left && ParseSensors(regs).odomRight == right
  {
    PairRoundTrip(left, regs[0], regs[1]);
    PairRoundTrip(right, regs[2], regs[3]);
  }

  lemma PairRoundTrip(n: int, hi: int, lo: int)
    requires IsInt32(n) && IsRegister(hi) && IsRegister(lo)
    ensures (hi, lo) == CountRegisters(n) <==> SignExtend32(Pair(hi, lo)) == n
  {
    var u := if n < 0 then n + 0x1_0000_0000 else n;
    assert n % 0x1_0000_0000 == u;
    assert u == u / 0x1_0000 * 0x1_0000 + u % 0x1_0000;
    assert Pair(hi, lo) == u <==> hi == u / 0x1_0000 && lo == u % 0x1_0000;
  }

  lemma PairsAlike(h: int, l: int, h': int, l': int)
    requires IsRegister(h) && IsRegister(l) && IsRegister(h') && IsRegister(l')
    ensures SignExtend32(Pair(h, l)) == SignExtend32(Pair(h', l')) <==> h == h' && l == l'
  {
  }

  /** Nothing of a sensor block is lost or mixed up but the upper byte of the oil
      register: two blocks parse alike exactly when the rest of them agrees. */
  lemma ParseKeepsRegisters(a: seq<int>, b: seq<int>)
    requires |a| == |b| == 7 && (forall r <- a :: IsRegister(r)) && (forall r <- b :: IsRegister(r))
    ensures ParseSensors(a) == ParseSensors(b) <==> a[..6] == b[..6] && a[6] % 0x100 == b[6] % 0x100
  {
    assert forall i :: 0 <= i < 7 ==> IsRegister(a[i]) && IsRegister(b[i]);
    PairsAlike(a[0], a[1], b[0], b[1]);
    PairsAlike(a[2], a[3], b[2], b[3]);
    hide SignExtend32, Pair, IsRegister;
    assert a[..6] == [a[0], a[1], a[2], a[3], a[4], a[5]];
    assert b[..6] == [b[0], b[1], b[2], b[3], b[4], b[5]];
  }

  /** What each value of a sensor block is, register by register: the counts are the
      signed 32-bit readings of two registers, high word first. */
  lemma ParseMeaning(regs: seq<int>)
    requires |regs| == 7 && forall r <- regs :: IsRegister(r)
    ensures var s := ParseSensors(regs);
            && IsInt32(s.odomLeft) && (regs[0] * 65536 + regs[1] - s.odomLeft) % 0x1_0000_0000 == 0
            && IsInt32(s.odomRight) && (regs[2] * 65536 + regs[3] - s.odomRight) % 0x1_0000_0000 == 0
            && s.batteryVolts * 100.0 == regs[4] as real && s.errorCode == regs[5] && s.oilPercent == regs[6] % 256
  {
    assert forall i :: 0 <= i < 7 ==> IsRegister(regs[i]);
    Congruent(regs[0], regs[1]);
    Congruent(regs[2], regs[3]);
    hide SignExtend32, Pair;
  }

  lemma Congruent(hi: int, lo: int)
    requires IsRegister(hi) && IsRegister(lo)
    ensures var n := SignExtend32(Pair(hi, lo)); IsInt32(n) && (hi * 65536 + lo - n) % 0x1_0000_0000 == 0
  {
  }

  /** The bytes of a speed frame up to its checksum: slave 1, write multiple, three
      registers from 0x0016, six bytes, then both speeds and 0 in two's complement with
      the high byte first. */
  lemma SpeedFrameLayout(left: int, right: int)
    requires IsInt16(left) && IsInt16(right)
    ensures var f := SpeedFrame(left, right).value;
            var (l, r) := (left % 65536, right % 65536);
            && |f| == 15 && f[..7] == [1, 16, 0, 22, 0, 3, 6]
            && f[7..13] == [l / 256, l % 256, r / 256, r % 256, 0, 0]
            && CrcBytes(OnLine(f[..13])) == OnLine(f[13..])
  {
    var pdu := SpeedPdu(left, right);
    var f := SpeedFrame(left, right).value;
    HighLow(left);
    HighLow(right);
    SealedFrameIsOk(pdu);
    BackOnLine(CrcBytes(OnLine(pdu)));
    assert f[..13] == pdu && f[13..] == CrcOctets(pdu);
    assert HighByte(0x16) == 0 && LowByte(0x16) == 22 && HighByte(3) == 0 && LowByte(3) == 3;
    assert HighByte(0) == 0 && LowByte(0) == 0;
    hide CrcBytes, HighByte, LowByte, OnLine, LineOk;
    assert pdu[..7] == SpeedHeader() == [1, 16, 0, 22, 0, 3, 6];
    assert f[..7] == pdu[..7];
    assert f[7..13] == pdu[7..13] == Field(left) + Field(right) + Field(0);
  }

  lemma HighLow(v: int)
    requires IsInt16(v)
    ensures HighByte(v) == v % 65536 / 256 && LowByte(v) == v % 65536 % 256
  {
    var u := if v < 0 then v + 65536 else v;
    assert v % 65536 == u;
    assert v / 256 == if v < 0 then u / 256 - 256 else u / 256;
  }
}
