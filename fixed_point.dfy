/**
 * The two fixed-point reads the font converter adds to its binary reader.
 * Both return a .NET decimal; the model uses exact reals.
 */
module FixedPoint {
  import opened Wrappers
  import opened BigEndian

  /** A signed 32-bit value as the bit pattern C# operates on. */
  function AsBits(x: int): bv32
    requires IsInt32(x)
  {
    (x % TwoTo32) as bv32
  }

  /** `raw >> 14` on a C# int: an arithmetic shift, i.e. division rounding down. */
  function ShiftRight14(raw: int): int
  {
    raw / 0x4000
  }

  /** `(raw >> 14) & 0x8001`, the integer part ReadFixed16 uses. */
  function Mantissa(raw: int): (m: int)
    requires IsInt16(raw)
    ensures raw >= 0 ==> m == ShiftRight14(raw) && 0 <= m <= 1
    ensures raw < 0 ==> m == 0x8000 + (ShiftRight14(raw) + 2) && 0x8000 <= m <= 0x8001
  {
    var q := ShiftRight14(raw);
    QuotientRange(raw);
    MaskOfSmall(q);
    (AsBits(q) & 0x8001) as int
  }

  /** The mask 0x8001 on the four shift results a 16-bit raw value can give. */
  lemma MaskOfSmall(q: int)
    requires -2 <= q <= 1
    ensures (AsBits(q) & 0x8001) as int == if q < 0 then 0x8000 + q + 2 else q
  {
    if q == -2 { MaskOfMinusTwo(); } else if q == -1 { MaskOfMinusOne(); }
    else if q == 0 { MaskOfZero(); } else { MaskOfOne(); }
  }

  lemma MaskOfMinusTwo() ensures (AsBits(-2) & 0x8001) as int == 0x8000 { assert -2 % TwoTo32 == 0xFFFF_FFFE; }
  lemma MaskOfMinusOne() ensures (AsBits(-1) & 0x8001) as int == 0x8001 { assert -1 % TwoTo32 == 0xFFFF_FFFF; }
  lemma MaskOfZero() ensures (AsBits(0) & 0x8001) as int == 0 { }
  lemma MaskOfOne() ensures (AsBits(1) & 0x8001) as int == 1 { }

  lemma QuotientRange(raw: int)
    requires IsInt16(raw)
    ensures -2 <= ShiftRight14(raw) <= 1
    ensures raw >= 0 ==> ShiftRight14(raw) >= 0
    ensures raw < 0 ==> ShiftRight14(raw) < 0
  {
    var q, r := raw / 0x4000, raw % 0x4000;
    assert raw == q * 0x4000 + r;
  }

  /** `raw & 0x3fff`: the low fourteen bits of the two's-complement pattern. */
  function Fraction(raw: int): (f: int)
    requires IsInt16(raw)
    ensures 0 <= f <= 0x3fff
  {
    raw % 0x4000
  }

  /**
   * ReadFixed16: an int16 `raw`, returned as `((raw >> 14) & 0x8001) + (raw & 0x3fff) / 0x3fff`.
   * Both terms are masked with positive constants, so the value is never
   * negative; a negative raw lands between 32768 and 32770.
   */
  function ReadFixed16(data: seq<Byte>, pos: nat): (r: Option<Read<real>>)
    ensures r.Some? <==> pos + 2 <= |data|
    ensures r.Some? ==> r.value.next == pos + 2 && 0.0 <= r.value.value
    ensures r.Some? ==>
              var raw := ReadInt16(data, pos).value.value;
              && (0 <= raw ==> r.value.value <= 2.0)
              && (raw < 0 ==> 32768.0 <= r.value.value <= 32770.0)
  {
    match ReadInt16(data, pos)
    case None => None
    case Some(Read(raw, next)) =>
      var m, f := Mantissa(raw), Fraction(raw);
      FractionTerm(f);
      Some(Read(m as real + f as real / 0x3fff as real, next))
  }

  /** The fractional term of ReadFixed16 lies in [0, 1]. */
  lemma FractionTerm(f: int)
    requires 0 <= f <= 0x3fff
    ensures 0.0 <= f as real / 0x3fff as real <= 1.0
  {
  }

  /** ReadFixed32: an int16 integer part plus a uint16 divided by 65535. */
  function ReadFixed32(data: seq<Byte>, pos: nat): (r: Option<Read<real>>)
    ensures r.Some? <==> pos + 4 <= |data|
    ensures r.Some? ==> r.value.next == pos + 4
    ensures r.Some? ==>
              var whole := ReadInt16(data, pos).value.value;
              whole as real <= r.value.value <= whole as real + 1.0
  {
    match ReadInt16(data, pos)
    case None => None
    case Some(Read(whole, mid)) =>
      match ReadUInt16(data, mid)
      case None => None
      case Some(Read(part, next)) =>
        Some(Read(whole as real + part as real / 0xffff as real, next))
  }

  /** The F2DOT14 value of the OpenType specification, for comparison. */
  function F2Dot14(raw: int): real
  {
    raw as real / 0x4000 as real
  }

  /**
   * ReadFixed16 is not F2DOT14: the bytes C0 00 encode -1.0 in F2DOT14, but
   * ReadFixed16 returns 32769.
   */
  lemma Fixed16OfMinusOne()
    ensures ReadInt16([0xC0, 0x00], 0) == Some(Read(-0x4000, 2)) && F2Dot14(-0x4000) == -1.0
    ensures ReadFixed16([0xC0, 0x00], 0) == Some(Read(32769.0, 2))
  {
    assert ReadUInt16([0xC0, 0x00], 0) == Some(Read(0xC000, 2));
    var m := Mantissa(-0x4000);
    assert ShiftRight14(-0x4000) == -1;
    assert m == 0x8001;
    assert Fraction(-0x4000) == 0;
  }

  /** The bytes 20 00 encode 0.5 in F2DOT14; ReadFixed16 returns 8192/16383. */
  lemma Fixed16OfOneHalf()
    ensures ReadInt16([0x20, 0x00], 0) == Some(Read(0x2000, 2)) && F2Dot14(0x2000) == 0.5
    ensures ReadFixed16([0x20, 0x00], 0) == Some(Read(8192.0 / 16383.0, 2))
    ensures 8192.0 / 16383.0 != 0.5
  {
    assert ReadUInt16([0x20, 0x00], 0) == Some(Read(0x2000, 2));
    var m := Mantissa(0x2000);
    assert ShiftRight14(0x2000) == 0;
    assert m == 0;
    assert Fraction(0x2000) == 0x2000;
  }
}
