/** Unicode scalar values and their UTF-8 and UTF-16 forms. An octet is a `char` below U+0100. */
module Unicode {
  import opened Bits

  const HIGH_START := 0xD800
  const HIGH_END := 0xDBFF
  const LOW_START := 0xDC00
  const LOW_END := 0xDFFF
  const UTF16_BASE := 0x10000

  type Scalar = cp: nat | cp < 0xD800 || 0xE000 <= cp <= 0x10FFFF

  /** A 16-bit UTF-16 code unit */
  type Unit = u: nat | u < 0x10000

  function Octet(n: nat): char
    requires n < 0x100
  {
    n as char
  }

  /** Table 3-6 of the Unicode Standard */
  function Utf8(cp: nat): (s: string)
    requires cp <= 0x10FFFF
    ensures 1 <= |s| <= 4
  {
    if cp <= 0x7F then [Octet(cp)]
    else if cp <= 0x7FF then [Octet(0xC0 + cp / 0x40), Octet(0x80 + cp % 0x40)]
    else if cp <= 0xFFFF then
      [Octet(0xE0 + cp / 0x1000), Octet(0x80 + cp / 0x40 % 0x40), Octet(0x80 + cp % 0x40)]
    else
      [Octet(0xF0 + cp / 0x40000), Octet(0x80 + cp / 0x1000 % 0x40),
       Octet(0x80 + cp / 0x40 % 0x40), Octet(0x80 + cp % 0x40)]
  }

  /** A well-formed, shortest-form UTF-8 string is the encoding of some sequence of scalar values. */
  function Utf8All(cps: seq<Scalar>): string {
    if cps == [] then "" else Utf8(cps[0]) + Utf8All(cps[1..])
  }

  /** Table 3-5 of the Unicode Standard, for every value a surrogate pair can hold */
  function Utf16(v: nat): (units: seq<Unit>)
    requires v <= 0x10FFFF
    ensures 1 <= |units| <= 2
  {
    if v < UTF16_BASE then [v]
    else [HIGH_START + (v - UTF16_BASE) / 0x400, LOW_START + (v - UTF16_BASE) % 0x400]
  }

  predicate IsHigh(u: nat) {
    HIGH_START <= u <= HIGH_END
  }

  predicate IsLow(u: nat) {
    LOW_START <= u <= LOW_END
  }

  /** The bit stream of UTF-16 code units, each most significant bit first */
  function UnitBits(units: seq<Unit>): (bits: seq<bool>)
    ensures |bits| == 16 * |units|
  {
    if units == [] then [] else ToBits(units[0], 16) + UnitBits(units[1..])
  }

  /** Whole 16-bit groups read back from a bit stream; a shorter rest is dropped */
  function BitsUnits(bits: seq<bool>): (units: seq<Unit>)
    ensures |units| == |bits| / 16
    decreases |bits|
  {
    if |bits| < 16 then [] else
      FromBitsBound(bits[..16]);
      Pow2Values();
      [FromBits(bits[..16])] + BitsUnits(bits[16..])
  }

  lemma UnitBitsConcat(a: seq<Unit>, b: seq<Unit>)
    requires 1 <= |a| <= 2
    ensures UnitBits(a + b) == UnitBits(a) + UnitBits(b)
  {
    assert (a + b)[1..] == a[1..] + b;
    if |a| == 2 {
      assert (a[1..] + b)[1..] == b;
      Associative(ToBits(a[0], 16), ToBits(a[1], 16), UnitBits(b));
    }
  }

  /** A bit stream of code units, padded by less than a code unit, holds exactly those units. */
  lemma {:induction false} BitsUnitsInverse(units: seq<Unit>, pad: seq<bool>)
    requires |pad| < 16
    ensures BitsUnits(UnitBits(units) + pad) == units
  {
    if units == [] {
      assert UnitBits(units) + pad == pad;
    } else {
      var head, tail := ToBits(units[0], 16), UnitBits(units[1..]) + pad;
      BitsUnitsInverse(units[1..], pad);
      Associative(head, UnitBits(units[1..]), pad);
      assert UnitBits(units) + pad == head + tail;
      BitsUnitsCons(units[0], tail);
    }
  }

  lemma BitsUnitsCons(unit: Unit, rest: seq<bool>)
    ensures BitsUnits(ToBits(unit, 16) + rest) == [unit] + BitsUnits(rest)
  {
    var bits := ToBits(unit, 16) + rest;
    Pow2Values();
    FromToBits(unit, 16);
    assert bits[..16] == ToBits(unit, 16) && bits[16..] == rest;
  }

  lemma WordDigits(a: nat)
    requires a < 0x40_0000
    ensures a == a / 0x40000 % 0x10 * 0x40000 + a / 0x1000 % 0x40 * 0x1000 + a / 0x40 % 0x40 * 0x40 + a % 0x40
  {
    var b := a / 0x40;
    var c := b / 0x40;
    assert c / 0x40 == a / 0x40000 && c == a / 0x1000;
    assert c / 0x40 < 0x10;
    assert a == b * 0x40 + a % 0x40 && b == c * 0x40 + b % 0x40 && c == c / 0x40 * 0x40 + c % 0x40;
  }

  /** The euro sign and a smiling face */
  lemma Samples()
    ensures Utf8(0x20AC) == [Octet(0xE2), Octet(0x82), Octet(0xAC)]
    ensures Utf8(0x1F600) == [Octet(0xF0), Octet(0x9F), Octet(0x98), Octet(0x80)]
    ensures Utf16(0x20AC) == [0x20AC] && Utf16(0x1F600) == [0xD83D, 0xDE00]
  {
  }
}
