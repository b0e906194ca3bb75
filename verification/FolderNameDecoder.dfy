/** Decoding modified UTF-7 mailbox names (section 5.1.3 of RFC 3501), on any input. */
module FolderNameDecoder {
  import opened Bits
  import opened Unicode
  import opened FolderNameCodec

  /** Code points are 64-bit unsigned words here. */
  const WORD := 0x1_0000_0000_0000_0000

  /** The bits of the base64 characters a string starts with */
  function RunBits(s: string): seq<bool> {
    if s == "" || Base64Index(s[0]) == UNDEFINED then [] else ToBits(Base64Index(s[0]), 6) + RunBits(s[1..])
  }

  /** What follows those characters */
  function AfterRun(s: string): (rest: string)
    ensures |rest| <= |s|
  {
    if s == "" || Base64Index(s[0]) == UNDEFINED then s else AfterRun(s[1..])
  }

  /** The octets written for a word, whether or not it is a scalar value */
  function WordUtf8(ucs4: nat): string {
    if ucs4 <= 0xFFFF then Utf8(ucs4)
    else [Octet(0xF0 + ucs4 / 0x40000 % 0x10), Octet(0x80 + ucs4 / 0x1000 % 0x40),
          Octet(0x80 + ucs4 / 0x40 % 0x40), Octet(0x80 + ucs4 % 0x40)]
  }

  /** The word for a code unit that is not a high surrogate, given the word before it */
  function Combine(ucs4: nat, unit: Unit): (word: nat)
    ensures word < WORD
  {
    if IsLow(unit) then (ucs4 + (unit - LOW_START) + UTF16_BASE) % WORD else unit
  }

  function HighPart(unit: Unit): nat
    requires IsHigh(unit)
  {
    (unit - HIGH_START) * 0x400
  }

  /** The octets of a run of code units, given the word before it */
  function Characters(ucs4: nat, units: seq<Unit>): string
    decreases |units|
  {
    if units == [] then ""
    else if IsHigh(units[0]) then Characters(HighPart(units[0]), units[1..])
    else WordUtf8(Combine(ucs4, units[0])) + Characters(Combine(ucs4, units[0]), units[1..])
  }

  function SkipDash(s: string): string {
    if s != "" && s[0] == '-' then s[1..] else s
  }

  function Decoded(src: string): string
    decreases |src|
  {
    if src == "" then ""
    else if src[0] != '&' then [src[0]] + Decoded(src[1..])
    else if |src| > 1 && src[1] == '-' then "&" + Decoded(src[2..])
    else Characters(0, BitsUnits(RunBits(src[1..]))) + Decoded(SkipDash(AfterRun(src[1..])))
  }

  // ---------------------------------------------------------------- Register arithmetic

  lemma TrailOctet(x: nat)
    ensures Or(0x80, And(x, 0x3F)) == 0x80 + x % 0x40
  {
    Low6(x);
    Pow2Values();
    ShlMultiplies(2, 6);
    OrAdds(2, x % 0x40, 6);
  }

  lemma LeadOfTwo(x: nat)
    requires x <= 0x7FF
    ensures Or(0xC0, Shr(x, 6)) == 0xC0 + x / 0x40
  {
    Low6(x);
    Pow2Values();
    ShlMultiplies(6, 5);
    OrAdds(6, x / 0x40, 5);
  }

  lemma LeadOfThree(x: nat)
    requires x <= 0xFFFF
    ensures Or(0xE0, Shr(x, 12)) == 0xE0 + x / 0x1000
  {
    Low12(x);
    Pow2Values();
    ShlMultiplies(14, 4);
    OrAdds(14, x / 0x1000, 4);
  }

  lemma LeadOfFour(x: nat)
    ensures Or(0xF0, Shr(x, 18)) % 0x100 == 0xF0 + x / 0x40000 % 0x10
  {
    Low18(x);
    OrNibble(x / 0x40000);
  }

  lemma OrNibble(x: nat)
    ensures Or(0xF0, x) % 0x100 == 0xF0 + x % 0x10
  {
    OrFifteen(x / 0x10);
    OrF0(x);
    var k, r := x / 0x10 / 0x10, x % 0x10;
    NibbleMod(k, r);
  }

  lemma NibbleMod(k: nat, r: nat)
    requires r < 0x10
    ensures (0x10 * (0x10 * k + 0x0F) + r) % 0x100 == 0xF0 + r
  {
  }

  lemma OrFifteen(z: nat)
    ensures Or(0x0F, z) == 0x10 * (z / 0x10) + 0x0F
  {
    Low4(z);
    Pow2Values();
    OrOnes(z, 4);
  }

  lemma OrF0(x: nat)
    ensures Or(0xF0, x) == 0x10 * Or(0x0F, x / 0x10) + x % 0x10
  {
    Low4(x);
    Pow2Values();
    AndMask(x, 4);
    ShlMultiplies(0x0F, 4);
    OrShifted(0x0F, x, 4);
    ShlMultiplies(Or(0x0F, x / 0x10), 4);
  }

  lemma MiddleOctets(x: nat)
    ensures Or(0x80, And(Shr(x, 6), 0x3F)) == 0x80 + x / 0x40 % 0x40
    ensures Or(0x80, And(Shr(x, 12), 0x3F)) == 0x80 + x / 0x1000 % 0x40
  {
    Low6(x);
    Low12(x);
    TrailOctet(x / 0x40);
    TrailOctet(x / 0x1000);
  }

  /** The conversion of a UCS-4 word to UTF-8 octets */
  method ConvertToUtf8(ucs4: nat) returns (utf8: seq<char>)
    ensures utf8 == WordUtf8(ucs4)
  {
    if ucs4 <= 0x7F {
      utf8 := [ucs4 as char];
      return;
    }
    assert Or(0x80, And(ucs4, 0x3F)) == 0x80 + ucs4 % 0x40 by { TrailOctet(ucs4); }
    if ucs4 <= 0x7FF {
      assert Or(0xC0, Shr(ucs4, 6)) == 0xC0 + ucs4 / 0x40 by { LeadOfTwo(ucs4); }
      utf8 := [Octet(Or(0xC0, Shr(ucs4, 6))), Octet(Or(0x80, And(ucs4, 0x3F)))];
    } else if ucs4 <= 0xFFFF {
      LeadOfThree(ucs4);
      MiddleOctets(ucs4);
      utf8 := [Octet(Or(0xE0, Shr(ucs4, 12))), Octet(Or(0x80, And(Shr(ucs4, 6), 0x3F))),
               Octet(Or(0x80, And(ucs4, 0x3F)))];
    } else {
      LeadOfFour(ucs4);
      MiddleOctets(ucs4);
      utf8 := [Octet(Or(0xF0, Shr(ucs4, 18)) % 0x100), Octet(Or(0x80, And(Shr(ucs4, 12), 0x3F))),
               Octet(Or(0x80, And(Shr(ucs4, 6), 0x3F))), Octet(Or(0x80, And(ucs4, 0x3F)))];
    }
  }

  /** A sextet goes into the register. */
  lemma AppendSextet(bitbuf: nat, bitcount: nat, c: nat)
    requires bitcount < 16 && c < 0x40
    ensures ToBits(Wrap(Or(Shl(bitbuf, 6), c), 64), bitcount + 6) == ToBits(bitbuf, bitcount) + ToBits(c, 6)
  {
    Pow2Values();
    ToBitsShlOr(bitbuf, c, bitcount, 6);
    ToBitsWrap(Or(Shl(bitbuf, 6), c), bitcount + 6, 64);
  }

  /** A code unit is read off the top of the register. */
  lemma ReadUnit(bitbuf: nat, bitcount: nat)
    ensures And(Shr(bitbuf, bitcount), 0xFFFF) < 0x10000
    ensures BitsUnits(ToBits(bitbuf, 16 + bitcount))[0] == And(Shr(bitbuf, bitcount), 0xFFFF)
    ensures ToBits(bitbuf, 16 + bitcount)[16..] == ToBits(bitbuf, bitcount)
  {
    var top := Shr(bitbuf, bitcount);
    ToBitsShr(bitbuf, 16, bitcount);
    assert ToBits(bitbuf, 16 + bitcount)[..16] == ToBits(top, 16);
    Pow2Values();
    AndMask(top, 16);
    FromBitsWrap(top, 16);
    FromBitsBound(ToBits(top, 16));
  }

  // ---------------------------------------------------------------- Decoder

  /** The base64 decoding table: UNDEFINED everywhere but at the table's characters. The loop also
      runs over the NUL that ends the table, which leaves entry 0 UNDEFINED. */
  method Base64Table() returns (table: seq<nat>)
    ensures |table| == 256 && forall c :: 0 <= c < 256 ==> table[c] == Base64Index(c as char)
  {
    var base64 := new nat[256](_ => UNDEFINED);
    var i := 0;
    while i < 65
      invariant 0 <= i <= 65
      invariant forall c :: 0 <= c < 256 ==>
        base64[c] == if Base64Index(c as char) < i then Base64Index(c as char) else UNDEFINED
    {
      if i < 64 {
        Base64Inverse(i);
        base64[Base64Char(i) as nat] := i;
      } else {
        base64[0] := i;
      }
      i := i + 1;
    }
    table := base64[..];
  }

  /** `dst` followed by the decoding of the rest is the decoding of `src`. */
  ghost predicate CharactersWritten(dst: string, rest: string, src: string) {
    dst + Decoded(rest) == Decoded(src)
  }

  lemma WrittenLiteral(dst: string, rest: string, src: string)
    requires rest != "" && (rest[0] != '&' || (|rest| > 1 && rest[1] == '-')) && CharactersWritten(dst, rest, src)
    ensures CharactersWritten(dst + [rest[0]], if rest[0] == '&' then rest[2..] else rest[1..], src)
  {
    Associative(dst, [rest[0]], Decoded(if rest[0] == '&' then rest[2..] else rest[1..]));
  }

  lemma WrittenRun(dst: string, rest: string, src: string)
    requires rest != "" && rest[0] == '&' && !(|rest| > 1 && rest[1] == '-') && CharactersWritten(dst, rest, src)
    ensures CharactersWritten(dst + Characters(0, BitsUnits(RunBits(rest[1..]))), SkipDash(AfterRun(rest[1..])), src)
  {
    Associative(dst, Characters(0, BitsUnits(RunBits(rest[1..]))), Decoded(SkipDash(AfterRun(rest[1..]))));
  }

  method DecodeImapFolderName(inSrc: string, utf8Enabled: bool) returns (dst: string)
    ensures dst == if utf8Enabled then inSrc else Decoded(inSrc)
  {
    if utf8Enabled {
      return inSrc;
    }
    var base64 := Base64Table();
    dst := "";
    var srcPtr := 0;
    while srcPtr < |inSrc|
      invariant 0 <= srcPtr <= |inSrc|
      invariant CharactersWritten(dst, inSrc[srcPtr..], inSrc)
    {
      ghost var before, rest := dst, inSrc[srcPtr..];
      var c := inSrc[srcPtr];
      srcPtr := srcPtr + 1;
      assert rest[1..] == inSrc[srcPtr..];
      if c != '&' || At(inSrc, srcPtr) == '-' {
        WrittenLiteral(before, rest, inSrc);
        dst := dst + [c];
        if c == '&' {
          srcPtr := srcPtr + 1;
          assert rest[2..] == inSrc[srcPtr..];
        }
      } else {
        WrittenRun(before, rest, inSrc);
        var octets;
        octets, srcPtr := DecodeRun(inSrc, srcPtr, base64);
        dst := dst + octets;
      }
    }
    assert inSrc[srcPtr..] == "" && dst + "" == dst;
  }

  /** What a run still holds: the octets written, then those of the bits in the register and of the rest. */
  ghost predicate InRun(dst: string, ucs4: nat, bits: seq<bool>, rest: string, start: string) {
    && dst + Characters(ucs4, BitsUnits(bits + RunBits(rest))) == Characters(0, BitsUnits(RunBits(start)))
    && AfterRun(rest) == AfterRun(start)
  }

  lemma InRunSextet(dst: string, ucs4: nat, bits: seq<bool>, rest: string, start: string)
    requires rest != "" && Base64Index(rest[0]) != UNDEFINED && InRun(dst, ucs4, bits, rest, start)
    ensures InRun(dst, ucs4, bits + ToBits(Base64Index(rest[0]), 6), rest[1..], start)
  {
    Associative(bits, ToBits(Base64Index(rest[0]), 6), RunBits(rest[1..]));
  }

  /** What the decoder does with the bits in its register: nothing while there are fewer than 16,
      else it takes one code unit off. The result: the word, the bits left, the octets written. */
  ghost function Consume(ucs4: nat, bits: seq<bool>): (nat, seq<bool>, string) {
    if |bits| < 16 then (ucs4, bits, "")
    else
      var unit := BitsUnits(bits)[0];
      if IsHigh(unit) then (HighPart(unit), bits[16..], "")
      else (Combine(ucs4, unit), bits[16..], WordUtf8(Combine(ucs4, unit)))
  }

  lemma InRunConsume(dst: string, ucs4: nat, bits: seq<bool>, rest: string, start: string)
    requires InRun(dst, ucs4, bits, rest, start)
    ensures var (ucs4', bits', octets) := Consume(ucs4, bits); InRun(dst + octets, ucs4', bits', rest, start)
  {
    assert dst + "" == dst;
    if |bits| >= 16 {
      var unit, stream := BitsUnits(bits)[0], bits + RunBits(rest);
      assert stream[..16] == bits[..16] && stream[16..] == bits[16..] + RunBits(rest);
      var units := BitsUnits(bits[16..] + RunBits(rest));
      assert BitsUnits(stream) == [unit] + units && ([unit] + units)[1..] == units;
      if !IsHigh(unit) {
        var word := Combine(ucs4, unit);
        Associative(dst, WordUtf8(word), Characters(word, units));
      }
    }
  }

  /** A sextet goes into the register, and a code unit comes off it when there are enough bits. */
  method TakeSextet(bitbuf0: nat, bitcount0: nat, ucs40: nat, c: nat)
    returns (bitbuf: nat, bitcount: nat, ucs4: nat, utf8: string)
    requires bitcount0 < 16 && c < 0x40
    ensures bitcount < 16
    ensures var (ucs4', left, octets) := Consume(ucs40, ToBits(bitbuf0, bitcount0) + ToBits(c, 6));
            ucs4 == ucs4' && ToBits(bitbuf, bitcount) == left && utf8 == octets
  {
    AppendSextet(bitbuf0, bitcount0, c);
    bitbuf := Wrap(Or(Shl(bitbuf0, 6), c), 64);
    bitcount := bitcount0 + 6;
    ucs4, utf8 := ucs40, "";
    if bitcount >= 16 {
      bitcount := bitcount - 16;
      ReadUnit(bitbuf, bitcount);
      ucs4, utf8 := TakeUnit(And(if bitcount > 0 then Shr(bitbuf, bitcount) else bitbuf, 0xFFFF), ucs4);
    }
  }

  lemma RunStart(start: string)
    ensures InRun("", 0, [], start, start)
  {
    assert [] + RunBits(start) == RunBits(start);
    assert "" + Characters(0, BitsUnits(RunBits(start))) == Characters(0, BitsUnits(RunBits(start)));
  }

  lemma RunOver(dst: string, ucs4: nat, bits: seq<bool>, rest: string, start: string)
    requires |bits| < 16 && (rest == "" || Base64Index(rest[0]) == UNDEFINED) && InRun(dst, ucs4, bits, rest, start)
    ensures dst == Characters(0, BitsUnits(RunBits(start))) && rest == AfterRun(start)
  {
    assert bits + [] == bits && dst + "" == dst;
  }

  /** One base64 run, through the shift register; a `-` that ends it is skipped. */
  method DecodeRun(src: string, srcPtr0: nat, base64: seq<nat>) returns (dst: string, srcPtr: nat)
    requires srcPtr0 <= |src| && |base64| == 256
    requires forall c :: 0 <= c < 256 ==> base64[c] == Base64Index(c as char)
    ensures srcPtr0 <= srcPtr <= |src|
    ensures dst == Characters(0, BitsUnits(RunBits(src[srcPtr0..])))
    ensures src[srcPtr..] == SkipDash(AfterRun(src[srcPtr0..]))
  {
    ghost var start := src[srcPtr0..];
    var bitbuf: nat, bitcount: nat, ucs4: nat := 0, 0, 0;
    dst, srcPtr := "", srcPtr0;
    RunStart(start);
    var c := Lookup(base64, At(src, srcPtr));
    while c != UNDEFINED
      invariant srcPtr0 <= srcPtr <= |src| && bitcount < 16
      invariant c == Base64Index(At(src, srcPtr))
      invariant InRun(dst, ucs4, ToBits(bitbuf, bitcount), src[srcPtr..], start)
      decreases |src| - srcPtr
    {
      ghost var rest := src[srcPtr..];
      InRunSextet(dst, ucs4, ToBits(bitbuf, bitcount), rest, start);
      InRunConsume(dst, ucs4, ToBits(bitbuf, bitcount) + ToBits(c, 6), rest[1..], start);
      srcPtr := srcPtr + 1;
      assert rest[1..] == src[srcPtr..];
      var utf8;
      bitbuf, bitcount, ucs4, utf8 := TakeSextet(bitbuf, bitcount, ucs4, c);
      dst := dst + utf8;
      c := Lookup(base64, At(src, srcPtr));
    }
    RunOver(dst, ucs4, ToBits(bitbuf, bitcount), src[srcPtr..], start);
    if At(src, srcPtr) == '-' {
      srcPtr := srcPtr + 1;
    }
  }

  /** One UTF-16 code unit becomes part of a UCS-4 word; nothing is written for a high surrogate. */
  method TakeUnit(utf16: Unit, ucs40: nat) returns (ucs4: nat, utf8: string)
    ensures if IsHigh(utf16) then ucs4 == HighPart(utf16) && utf8 == ""
            else ucs4 == Combine(ucs40, utf16) && utf8 == WordUtf8(ucs4)
  {
    ucs4, utf8 := ucs40, "";
    if HIGH_START <= utf16 <= HIGH_END {
      Pow2Values();
      ShlMultiplies(utf16 - HIGH_START, 10);
      ucs4 := Shl(utf16 - HIGH_START, 10);
      return;
    } else if LOW_START <= utf16 <= LOW_END {
      ucs4 := (ucs4 + (utf16 - LOW_START) + UTF16_BASE) % WORD;
    } else {
      ucs4 := utf16;
    }
    utf8 := ConvertToUtf8(ucs4);
  }

  /** A table access with an octet; a `char` beyond the octets is in no base64 run. */
  method Lookup(base64: seq<nat>, c: char) returns (i: nat)
    requires |base64| == 256
    requires forall c :: 0 <= c < 256 ==> base64[c] == Base64Index(c as char)
    ensures i == Base64Index(c)
  {
    i := if c as nat < 256 then base64[c as nat] else UNDEFINED;
  }
}
