/**
  The entry points: the hardware form where the processor has it, the table form of the machine's byte
  order elsewhere.  Which one runs never shows in the result.
  */
module Checksum {
  import opened Words
  import opened Crc32c
  import CrcHardware
  import CrcSoftware

  class Engines {
    const hw: CrcHardware.Engine
    const little: CrcSoftware.Little
    const big: CrcSoftware.Big
    ghost const Repr: set<object>

    ghost predicate Valid()
      reads this, Repr
    {
      && {hw, hw.long, hw.short, little, little.table, big, big.table, big.byteTable} <= Repr
      && hw.Valid() && little.Valid() && big.Valid()
      && little.table !in {hw.long, hw.short}
    }

    constructor ()
      ensures Valid() && fresh(Repr)
    {
      var h := new CrcHardware.Engine();
      var l := new CrcSoftware.Little();
      var b := new CrcSoftware.Big();
      hw, little, big := h, l, b;
      Repr := {h, h.long, h.short, l, l.table, b, b.table, b.byteTable};
    }

    method Crc32cSw(crc: bv32, buf: seq<byte>, address: nat, littleEndian: bool) returns (r: bv32)
      requires Valid()
      modifies Repr
      ensures Valid() && r == Crc(crc, buf)
    {
      hide Crc;
      if littleEndian {
        r := little.Crc32cSwLittle(crc, buf, address);
      } else {
        r := big.Crc32cSwBig(crc, buf, address);
      }
    }

    method Crc32c(crc: bv32, buf: seq<byte>, address: nat, sse42: bool, littleEndian: bool) returns (r: bv32)
      requires Valid()
      modifies Repr
      ensures Valid() && r == Crc(crc, buf)
    {
      hide Crc;
      if sse42 {
        r := hw.Crc32cHw(crc, buf, address);
      } else {
        r := Crc32cSw(crc, buf, address, littleEndian);
      }
    }
  }
}
