/** 16-bit registers as both Modbus links carry them. */
module Registers {

  predicate IsRegister(r: int) { 0 <= r < 0x1_0000 }

  /** `(hi << 16) | lo` of two registers: their bits do not overlap. */
  function Pair(hi: int, lo: int): int { hi * 0x1_0000 + lo }

  function SignExtend16(raw: int): int { if raw < 0x8000 then raw else raw - 0x1_0000 }

  function SignExtend32(raw: int): int { if raw < 0x8000_0000 then raw else raw - 0x1_0000_0000 }
}
