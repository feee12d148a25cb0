/** The allow-list of PLC pushbuttons: plc_client._HMI_PB_BITS, _HMI_PB_BLOCKS,
    _MACHINE_CMD_MAP, _ROBOT_CMD_MAP and _resolve_pb. A name outside the tables is
    one of the Other constructors. */
module PushButtons {
  import opened Wrappers

  datatype Kind = Teknic | La36 | Motor | Robot

  datatype Block =
    | AugerSlide | PlanterSlide | AugerGimbalX | AugerGimbalY | PlanterGimbalX | PlanterGimbalY
    | PlanterJawVert | PlanterTamper | RobotPanel | Jaw1 | Jaw2 | AugerMotor | OtherBlock(name: string)

  datatype Button =
    | ServoOn | ServoOff | JogFwd | JogRev | HomePos | ApproachPos | WorkPos | SetValues | StartHoming
    | RecoveryIn | RecoveryOut | On | Off | Cw | Ccw | GoHome | Pause | Continue | MotorsOn | MotorsOff
    | Start | Stop | Shutdown | Reset | OtherButton(name: string)

  function BlockAt(block: Block): Option<(Kind, int)> {
    match block
    case AugerSlide => Some((Teknic, 5400))
    case PlanterSlide => Some((Teknic, 5500))
    case AugerGimbalX => Some((La36, 5600))
    case AugerGimbalY => Some((La36, 5700))
    case PlanterGimbalX => Some((La36, 5800))
    case PlanterGimbalY => Some((La36, 5900))
    case PlanterJawVert => Some((La36, 6000))
    case PlanterTamper => Some((La36, 6100))
    case RobotPanel => Some((Robot, 6200))
    case Jaw1 => Some((La36, 6300))
    case Jaw2 => Some((La36, 6400))
    case AugerMotor => Some((Motor, 6500))
    case OtherBlock(_) => None
  }

  function ServoBit(button: Button): Option<int> {
    match button
    case ServoOn => Some(1)
    case ServoOff => Some(2)
    case JogFwd => Some(4)
    case JogRev => Some(8)
    case HomePos => Some(16)
    case ApproachPos => Some(32)
    case WorkPos => Some(64)
    case SetValues => Some(128)
    case StartHoming => Some(256)
    case _ => None
  }

  function MotorBit(button: Button): Option<int> {
    match button
    case On => Some(1)
    case Off => Some(2)
    case Cw => Some(4)
    case Ccw => Some(8)
    case _ => None
  }

  function RobotBit(button: Button): Option<int> {
    match button
    case GoHome => Some(1)
    case Pause => Some(2)
    case Continue => Some(4)
    case MotorsOn => Some(8)
    case MotorsOff => Some(16)
    case Start => Some(32)
    case Stop => Some(64)
    case Shutdown => Some(128)
    case Reset => Some(256)
    case _ => None
  }

  function BitOf(kind: Kind, button: Button): Option<int> {
    match kind
    case Teknic => ServoBit(button)
    case La36 => if button == RecoveryIn then Some(512)
                 else if button == RecoveryOut then Some(1024)
                 else ServoBit(button)
    case Motor => MotorBit(button)
    case Robot => RobotBit(button)
  }

  /** (block, button) to (%MW address, bit value) if allow-listed. */
  function Resolve(block: Block, button: Button): Option<(int, int)> {
    match BlockAt(block)
    case None => None
    case Some((kind, base)) =>
      match BitOf(kind, button)
      case None => None
      case Some(bit) => Some((base, bit))
  }

  predicate IsJogButton(button: Button) { button in {JogFwd, JogRev, RecoveryIn, RecoveryOut} }

  datatype MachineCommand =
    | MStart | MStop | HomeAll | FaultReset | SetAuto | SetManual | EnableAuger | DisableAuger
    | EnablePlanter | DisablePlanter | ResetAuger | ResetPlanter | EnableRobot | DisableRobot
    | EnableAmr | DisableAmr | JawMethod1 | JawMethod2 | AmrOkToPlant | OtherCommand(name: string)

  function MachineWord(command: MachineCommand): Option<(int, int)> {
    match command
    case MStart => Some((5000, 64))
    case MStop => Some((5000, 128))
    case HomeAll => Some((5000, 16))
    case FaultReset => Some((5000, 2))
    case SetAuto => Some((5000, 1))
    case SetManual => Some((5000, 32))
    case EnableAuger => Some((5000, 2048))
    case DisableAuger => Some((5000, 4096))
    case EnablePlanter => Some((5000, 8192))
    case DisablePlanter => Some((5000, 16384))
    case ResetAuger => Some((5000, 32768))
    case ResetPlanter => Some((5001, 1))
    case EnableRobot => Some((5001, 8192))
    case DisableRobot => Some((5001, 16384))
    case EnableAmr => Some((5001, 2048))
    case DisableAmr => Some((5001, 4096))
    case JawMethod1 => Some((5001, 128))
    case JawMethod2 => Some((5001, 256))
    case AmrOkToPlant => Some((5002, 2))
    case OtherCommand(_) => None
  }

  // ------------------------------------------------------------- word classes

  const ROBOT_WORD := 6200

  /** Words whose block has jog buttons. */
  predicate IsJogWord(addr: int) {
    addr in {5400, 5500, 5600, 5700, 5800, 5900, 6000, 6100, 6300, 6400}
  }

  predicate IsButtonWord(addr: int) {
    IsJogWord(addr) || addr in {5000, 5001, 5002, 6200, 6500}
  }

  predicate IsAmrWord(addr: int) { addr in {5110, 5111, 5112} }

  /** A jog bit (4, 8, 512 or 1024) is up in this word value. */
  predicate HasJogBit(value: int) { value / 4 % 4 != 0 || value / 512 % 4 != 0 }

  /** A bit of a jog block is a jog bit exactly for the jog buttons. */
  lemma ServoBits(button: Button)
    ensures var bit := BitOf(La36, button); bit.Some? ==>
              0 < bit.value < 0x1_0000 && (IsJogButton(button) <==> HasJogBit(bit.value))
    ensures BitOf(Teknic, button).Some? ==> BitOf(Teknic, button) == BitOf(La36, button)
  {
  }

  lemma PlainBits(kind: Kind, button: Button)
    requires (kind.Motor? || kind.Robot?) && BitOf(kind, button).Some?
    ensures 0 < BitOf(kind, button).value < 0x1_0000 && !IsJogButton(button)
  {
  }

  lemma BlockWord(block: Block)
    requires BlockAt(block).Some?
    ensures var (kind, base) := BlockAt(block).value;
            IsButtonWord(base) && base >= 5000 && (IsJogWord(base) <==> kind.Teknic? || kind.La36?)
  {
  }

  /** A resolved jog button raises a jog bit in a jog word; any other resolved
      button raises none there. */
  lemma ResolvedButtons(block: Block, button: Button)
    requires Resolve(block, button).Some?
    ensures var (addr, bit) := Resolve(block, button).value;
            IsButtonWord(addr) && addr >= 5000 && 0 < bit < 0x1_0000
            && (IsJogButton(button) ==> IsJogWord(addr) && HasJogBit(bit))
            && (IsJogWord(addr) && !IsJogButton(button) ==> !HasJogBit(bit))
  {
    hide BitOf, BlockAt, IsJogButton, HasJogBit, IsJogWord, IsButtonWord;
    BlockWord(block);
    var kind := BlockAt(block).value.0;
    if kind.Motor? || kind.Robot? {
      PlainBits(kind, button);
    } else {
      ServoBits(button);
    }
  }

  /** The button layouts of the PLC's structures, from bit 0 up. */
  const SERVO_BUTTONS: seq<Button> :=
    [ServoOn, ServoOff, JogFwd, JogRev, HomePos, ApproachPos, WorkPos, SetValues, StartHoming, RecoveryIn, RecoveryOut]
  const MOTOR_BUTTONS: seq<Button> := [On, Off, Cw, Ccw]
  const ROBOT_BUTTONS: seq<Button> :=
    [GoHome, Pause, Continue, MotorsOn, MotorsOff, Start, Stop, Shutdown, Reset]

  function ButtonsOf(kind: Kind): seq<Button> {
    match kind
    case Teknic => SERVO_BUTTONS[..9]
    case La36 => SERVO_BUTTONS
    case Motor => MOTOR_BUTTONS
    case Robot => ROBOT_BUTTONS
  }

  /** The blocks in memory order, a hundred words apart from 5400 on. */
  const BLOCKS: seq<Block> :=
    [AugerSlide, PlanterSlide, AugerGimbalX, AugerGimbalY, PlanterGimbalX, PlanterGimbalY, PlanterJawVert,
     PlanterTamper, RobotPanel, Jaw1, Jaw2, AugerMotor]

  function TwoTo(k: nat): int { if k == 0 then 1 else 2 * TwoTo(k - 1) }

  /** The i-th button of a structure resolves to bit i. */
  lemma BitsFollowLayout(kind: Kind, i: nat)
    requires i < |ButtonsOf(kind)|
    ensures BitOf(kind, ButtonsOf(kind)[i]) == Some(TwoTo(i))
  {
    assert |SERVO_BUTTONS| == 11 && |MOTOR_BUTTONS| == 4 && |ROBOT_BUTTONS| == 9;
    hide TwoTo, ServoBit, RobotBit, MotorBit, SERVO_BUTTONS, ROBOT_BUTTONS, MOTOR_BUTTONS;
    match kind
    case Teknic =>
      ServoBits9(i);
    case La36 =>
      if i < 9 {
        ServoBits9(i);
      } else {
        RecoveryBits(i);
      }
    case Motor =>
      MotorBits4(i);
    case Robot =>
      RobotBits9(i);
  }

  lemma RecoveryBits(i: nat)
    requires 9 <= i < 11
    ensures |SERVO_BUTTONS| == 11 && BitOf(La36, SERVO_BUTTONS[i]) == Some(TwoTo(i))
  {
    SmallPowers();
    hide TwoTo;
    assert i == 9 || i == 10;
  }

  lemma MotorBits4(i: nat)
    requires i < 4
    ensures |MOTOR_BUTTONS| == 4 && MotorBit(MOTOR_BUTTONS[i]) == Some(TwoTo(i))
  {
    SmallPowers();
    hide TwoTo;
    assert i == 0 || i == 1 || i == 2 || i == 3;
  }

  lemma RobotBits9(i: nat)
    requires i < 9
    ensures |ROBOT_BUTTONS| == 9 && RobotBit(ROBOT_BUTTONS[i]) == Some(TwoTo(i))
  {
    SmallPowers();
    hide TwoTo;
    assert i == 0 || i == 1 || i == 2 || i == 3 || i == 4 || i == 5 || i == 6 || i == 7 || i == 8;
  }

  lemma ServoBits9(i: nat)
    requires i < 9
    ensures |SERVO_BUTTONS| == 11 && ServoBit(SERVO_BUTTONS[i]) == Some(TwoTo(i))
    ensures SERVO_BUTTONS[i] != RecoveryIn && SERVO_BUTTONS[i] != RecoveryOut
  {
    SmallPowers();
    hide TwoTo;
    assert i == 0 || i == 1 || i == 2 || i == 3 || i == 4 || i == 5 || i == 6 || i == 7 || i == 8;
  }

  lemma SmallPowers()
    ensures TwoTo(0) == 1 && TwoTo(1) == 2 && TwoTo(2) == 4 && TwoTo(3) == 8 && TwoTo(4) == 16 && TwoTo(5) == 32
    ensures TwoTo(6) == 64 && TwoTo(7) == 128 && TwoTo(8) == 256 && TwoTo(9) == 512 && TwoTo(10) == 1024
  {
  }

  /** And no button resolves that its structure does not list. */
  lemma OnlyListedResolve(kind: Kind, button: Button)
    requires BitOf(kind, button).Some?
    ensures button in ButtonsOf(kind)
  {
    match kind
    case Teknic => ServoListed(button);
    case La36 => ServoListed(button);
    case Motor =>
      assert MOTOR_BUTTONS[0] == On && MOTOR_BUTTONS[1] == Off && MOTOR_BUTTONS[2] == Cw && MOTOR_BUTTONS[3] == Ccw;
    case Robot =>
      var r := ROBOT_BUTTONS;
      assert r[0] == GoHome && r[1] == Pause && r[2] == Continue && r[3] == MotorsOn && r[4] == MotorsOff;
      assert r[5] == Start && r[6] == Stop && r[7] == Shutdown && r[8] == Reset;
  }

  lemma ServoListed(button: Button)
    ensures ServoBit(button).Some? ==> button in SERVO_BUTTONS[..9]
    ensures BitOf(La36, button).Some? ==> button in SERVO_BUTTONS
  {
    var l := SERVO_BUTTONS;
    var t := l[..9];
    assert t[0] == ServoOn && t[1] == ServoOff && t[2] == JogFwd && t[3] == JogRev && t[4] == HomePos;
    assert t[5] == ApproachPos && t[6] == WorkPos && t[7] == SetValues && t[8] == StartHoming;
    assert l == t + [RecoveryIn, RecoveryOut];
    assert l[9] == RecoveryIn && l[10] == RecoveryOut;
  }

  lemma BlocksFollowMemory(i: nat)
    requires i < |BLOCKS|
    ensures BlockAt(BLOCKS[i]).Some? && BlockAt(BLOCKS[i]).value.1 == 5400 + 100 * i
    ensures BlockAt(BLOCKS[i]).value.0 ==
            if i < 2 then Teknic else if i == 8 then Robot else if i == 11 then Motor else La36
  {
  }

  /** No two machine commands share a bit, and each is one bit of its word. */
  lemma CommandsAreDistinct(a: MachineCommand, b: MachineCommand)
    requires MachineWord(a).Some?
    ensures MachineWord(a) == MachineWord(b) ==> a == b
    ensures exists k: nat :: k < 16 && MachineWord(a).value.1 == TwoTo(k)
  {
    assert TwoTo(0) == 1 && TwoTo(1) == 2 && TwoTo(4) == 16 && TwoTo(5) == 32 && TwoTo(6) == 64 && TwoTo(7) == 128;
    assert TwoTo(8) == 256 && TwoTo(11) == 2048 && TwoTo(12) == 4096 && TwoTo(13) == 8192;
    assert TwoTo(14) == 16384 && TwoTo(15) == 32768;
  }
}
