/** Mailbox names on the wire: modified UTF-7 (section 5.1.3 of RFC 3501) and IMAP quoting.

    Each codec is a loop over machine registers, verified against a function over bit streams. */
module FolderNameCodec {
  import opened Bits
  import opened Unicode

  const UNDEFINED := 64

  /** The modified base64 table: A-Z, a-z, 0-9, `+` and `,` */
  function Base64Char(i: nat): char
    requires i < 64
  {
    if i < 26 then 'A' + i as char
    else if i < 52 then 'a' + (i - 26) as char
    else if i < 62 then '0' + (i - 52) as char
    else if i == 62 then '+'
    else ','
  }

  /** The sextet of a character, or UNDEFINED */
  function Base64Index(c: char): (i: nat)
    ensures i <= UNDEFINED
  {
    if 'A' <= c <= 'Z' then c as int - 'A' as int
    else if 'a' <= c <= 'z' then 26 + (c as int - 'a' as int)
    else if '0' <= c <= '9' then 52 + (c as int - '0' as int)
    else if c == '+' then 62
    else if c == ',' then 63
    else UNDEFINED
  }

  lemma Base64Inverse(i: nat)
    requires i < 64
    ensures Base64Index(Base64Char(i)) == i
  {
  }

  const CAPITALS := "ABCDEFGHIJKLMNOPQRSTUVWXYZ"
  const SMALL := "abcdefghijklmnopqrstuvwxyz"
  const ALPHABET := CAPITALS + (SMALL + "0123456789+,")

  lemma Capitals(i: nat)
    requires i < 26
    ensures CAPITALS[i] == 'A' + i as char
  {
  }

  lemma Small(i: nat)
    requires i < 26
    ensures SMALL[i] == 'a' + i as char
  {
  }

  /** The table is the alphabet, character by character. */
  lemma Base64Alphabet(i: nat)
    requires i < 64
    ensures |ALPHABET| == 64 && Base64Char(i) == ALPHABET[i]
  {
    if i < 26 {
      Capitals(i);
    } else if i < 52 {
      Small(i - 26);
    }
  }

  /** A character of the alphabet stands for its place there; every other one is undefined. */
  lemma Base64Place(c: char)
    ensures if c in ALPHABET then Base64Index(c) < 64 && ALPHABET[Base64Index(c)] == c else Base64Index(c) == UNDEFINED
  {
    Base64Alphabet(0);
    forall i | 0 <= i < 64
      ensures Base64Char(i) == ALPHABET[i]
    {
      Base64Alphabet(i);
    }
    TablePlace(ALPHABET, c);
    hide ALPHABET;
  }

  lemma TablePlace(table: string, c: char)
    requires |table| == 64 && forall i :: 0 <= i < 64 ==> Base64Char(i) == table[i]
    ensures if c in table then Base64Index(c) < 64 && table[Base64Index(c)] == c else Base64Index(c) == UNDEFINED
  {
    if Base64Index(c) < 64 {
      assert Base64Char(Base64Index(c)) == c;
      assert table[Base64Index(c)] == c;
    } else if c in table {
      var i :| 0 <= i < 64 && table[i] == c;
      Base64Inverse(i);
    }
  }

  /** Reading one past the end of a byte array gives its terminating NUL. */
  function At(s: string, i: nat): char {
    if i < |s| then s[i] else '\0'
  }

  predicate Direct(c: char) {
    ' ' <= c <= '~'
  }

  // ---------------------------------------------------------------- Quoting

  /** A backslash before every double quote and every backslash */
  function Quoted(s: string): string {
    if s == "" then "" else QuotedChar(s[0]) + Quoted(s[1..])
  }

  function QuotedChar(c: char): string {
    if c == '"' || c == '\\' then ['\\', c] else [c]
  }

  predicate Unquoted(s: string) {
    forall i :: 0 <= i < |s| ==> s[i] != '"' && s[i] != '\\'
  }

  lemma {:induction false} QuotedUnquoted(s: string)
    requires Unquoted(s)
    ensures Quoted(s) == s
  {
    if s != "" {
      QuotedUnquoted(s[1..]);
    }
  }

  method QuoteIMAP(src: string) returns (result: string)
    ensures result == Quoted(src)
  {
    result := "";
    var i := 0;
    while i < |src|
      invariant 0 <= i <= |src|
      invariant result + Quoted(src[i..]) == Quoted(src)
    {
      ghost var before, rest := result, Quoted(src[i + 1..]);
      QuotedStep(src, i);
      if src[i] == '"' || src[i] == '\\' {
        result := result + ['\\'];
      }
      result := result + [src[i]];
      i := i + 1;
      assert result == before + QuotedChar(src[i - 1]);
      Associative(before, QuotedChar(src[i - 1]), rest);
    }
  }

  lemma QuotedStep(src: string, i: nat)
    requires i < |src|
    ensures Quoted(src[i..]) == QuotedChar(src[i]) + Quoted(src[i + 1..])
  {
    assert src[i..][1..] == src[i + 1..];
  }

  // ---------------------------------------------------------------- Bit stream to sextets

  function SextetChar(bits: seq<bool>): char
    requires |bits| == 6
  {
    FromBitsBound(bits);
    Pow2Values();
    Base64Char(FromBits(bits))
  }

  /** The characters of the whole sextets of a bit stream */
  function Emit(bits: seq<bool>): string
    decreases |bits|
  {
    if |bits| < 6 then "" else [SextetChar(bits[..6])] + Emit(bits[6..])
  }

  /** The bits after the last whole sextet */
  function Left(bits: seq<bool>): (left: seq<bool>)
    ensures |left| < 6
    decreases |bits|
  {
    if |bits| < 6 then bits else Left(bits[6..])
  }

  /** The end of a base64 run: a last sextet padded with zero bits, if bits are left, and the `-` */
  function Close(bits: seq<bool>): string
    requires |bits| < 6
  {
    (if bits == [] then "" else [SextetChar(bits + Zeros(6 - |bits|))]) + "-"
  }

  lemma {:induction false} EmitConcat(a: seq<bool>, b: seq<bool>)
    ensures Emit(a + b) == Emit(a) + Emit(Left(a) + b)
    ensures Left(a + b) == Left(Left(a) + b)
    decreases |a|
  {
    if |a| >= 6 {
      EmitConcat(a[6..], b);
      assert (a + b)[..6] == a[..6] && (a + b)[6..] == a[6..] + b;
    }
  }

  // ---------------------------------------------------------------- Encoder

  /** The UTF-8 sequence being collected: octets seen, octets in all, bits so far */
  datatype Utf8State = Idle | Collecting(pos: nat, total: nat, acc: nat)

  datatype Fed = Partial(next: Utf8State) | Complete(ucs4: nat)

  ghost predicate WellFormed(u: Utf8State) {
    match u
    case Idle => true
    case Collecting(pos, total, acc) =>
      && 1 <= pos < total <= 4
      && acc < (if total == 2 then 0x20 else if total == 3 then (if pos == 1 then 0x10 else 0x400)
                else if pos == 1 then 4 else if pos == 2 then 0x100 else 0x4000)
  }

  /** One octet that is not printable ASCII. A 4-octet lead keeps only two bits. */
  function Feed(u: Utf8State, c: nat): (fed: Fed)
    ensures WellFormed(u) ==>
      match fed
      case Partial(next) => WellFormed(next) && next.Collecting?
      case Complete(ucs4) => ucs4 < 0x10_0000
  {
    if c < 0x80 then Complete(c)
    else match u
      case Collecting(pos, total, acc) =>
        var acc' := acc * 0x40 + c % 0x40;
        if pos + 1 < total then Partial(Collecting(pos + 1, total, acc')) else Complete(acc')
      case Idle =>
        if c < 0xE0 then Partial(Collecting(1, 2, c % 0x20))
        else if c < 0xF0 then Partial(Collecting(1, 3, c % 0x10))
        else Partial(Collecting(1, 4, c % 4))
  }

  /** Modified UTF-7 of the rest of a name, on any octets: `run` says whether a base64 run is open,
      `bits` which bits of it are not yet written. */
  function EncodeFrom(src: string, run: bool, bits: seq<bool>, u: Utf8State): string
    requires |bits| < 6 && WellFormed(u)
    decreases |src|
  {
    if src == "" then
      if run then Close(bits) else ""
    else if Direct(src[0]) then
      (if run then Close(bits) else "") + [src[0]] + (if src[0] == '&' then "-" else "")
      + EncodeFrom(src[1..], false, [], u)
    else
      (if run then "" else "&")
      + match Feed(u, src[0] as int)
        case Partial(u') => EncodeFrom(src[1..], true, bits, u')
        case Complete(ucs4) =>
          var all := bits + UnitBits(Utf16(ucs4));
          Emit(all) + EncodeFrom(src[1..], true, Left(all), Idle)
  }

  function Encoded(src: string): string {
    EncodeFrom(src, false, [], Idle)
  }

  lemma SpewSextet(bitbuf: nat, bitstogo: nat)
    ensures And(Shr(bitbuf, bitstogo), 0x3F) < 64
    ensures Base64Char(And(Shr(bitbuf, bitstogo), 0x3F)) == SextetChar(ToBits(bitbuf, 6 + bitstogo)[..6])
    ensures ToBits(bitbuf, 6 + bitstogo)[6..] == ToBits(bitbuf, bitstogo)
  {
    var top := Shr(bitbuf, bitstogo);
    MaskedSextet(top);
    ToBitsShr(bitbuf, 6, bitstogo);
    assert ToBits(bitbuf, 6 + bitstogo)[..6] == ToBits(top, 6);
  }

  lemma CloseSextet(bitbuf: nat, bitstogo: nat)
    requires 0 < bitstogo < 6
    ensures var last := Wrap(Shl(bitbuf, 6 - bitstogo), 32);
      And(last, 0x3F) < 64 && Close(ToBits(bitbuf, bitstogo)) == [Base64Char(And(last, 0x3F))] + "-"
  {
    var pad := 6 - bitstogo;
    var last := Wrap(Shl(bitbuf, pad), 32);
    assert ToBits(last, 6) == ToBits(bitbuf, bitstogo) + Zeros(pad) by {
      ToBitsWrap(Shl(bitbuf, pad), 6, 32);
      ToBitsShlOr(bitbuf, 0, bitstogo, pad);
      OrZero(Shl(bitbuf, pad));
      ZeroBits(pad);
    }
    MaskedSextet(last);
  }

  lemma MaskedSextet(x: nat)
    ensures And(x, 0x3F) < 64 && Base64Char(And(x, 0x3F)) == SextetChar(ToBits(x, 6))
  {
    Pow2Values();
    AndMask(x, 6);
    FromBitsWrap(x, 6);
    FromBitsBound(ToBits(x, 6));
  }

  lemma AppendUnit(bitbuf: nat, bitstogo: nat, unit: Unit)
    requires bitstogo < 6
    ensures ToBits(Wrap(Or(Shl(bitbuf, 16), unit), 32), bitstogo + 16)
         == ToBits(bitbuf, bitstogo) + ToBits(unit, 16)
  {
    Pow2Values();
    ToBitsShlOr(bitbuf, unit, bitstogo, 16);
    ToBitsWrap(Or(Shl(bitbuf, 16), unit), bitstogo + 16, 32);
  }

  /** The inner loop: write every whole sextet of the register */
  method SpewSextets(bitbuf: nat, bitstogo0: nat) returns (bitstogo: nat, out: string)
    ensures bitstogo < 6
    ensures out == Emit(ToBits(bitbuf, bitstogo0)) && ToBits(bitbuf, bitstogo) == Left(ToBits(bitbuf, bitstogo0))
  {
    ghost var all := ToBits(bitbuf, bitstogo0);
    bitstogo, out := bitstogo0, "";
    while bitstogo >= 6
      invariant out + Emit(ToBits(bitbuf, bitstogo)) == Emit(all)
      invariant Left(ToBits(bitbuf, bitstogo)) == Left(all)
    {
      ghost var before := out;
      bitstogo := bitstogo - 6;
      SpewSextet(bitbuf, bitstogo);
      out := out + [Base64Char(And(if bitstogo > 0 then Shr(bitbuf, bitstogo) else bitbuf, 0x3F))];
      Associative(before, out[|before|..], Emit(ToBits(bitbuf, bitstogo)));
    }
  }

  /** The do-while loop that splits a code point into UTF-16 and writes every whole sextet */
  method SpewCodePoint(codePoint: nat, bitbuf0: nat, bitstogo0: nat)
    returns (bitbuf: nat, bitstogo: nat, out: string)
    requires codePoint < 0x10_0000 && bitstogo0 < 6
    ensures bitstogo < 6
    ensures var all := ToBits(bitbuf0, bitstogo0) + UnitBits(Utf16(codePoint));
      out == Emit(all) && ToBits(bitbuf, bitstogo) == Left(all)
  {
    ghost var all := ToBits(bitbuf0, bitstogo0) + UnitBits(Utf16(codePoint));
    bitbuf, bitstogo, out := bitbuf0, bitstogo0, "";
    var ucs4: nat := codePoint;
    var utf16flag := true;
    while utf16flag
      invariant bitstogo < 6 && ucs4 < 0x10_0000
      invariant var rest := if utf16flag then UnitBits(Utf16(ucs4)) else [];
        Pending(out, ToBits(bitbuf, bitstogo) + rest, all)
      decreases if utf16flag then ucs4 + 1 else 0
    {
      ghost var pending, before, unit, rest := ToBits(bitbuf, bitstogo), out, Utf16(ucs4)[0], Utf16(ucs4)[1..];
      assert Utf16(ucs4) == [unit] + rest;
      assert Pending(before, pending + UnitBits([unit] + rest), all);
      AppendUnit(bitbuf, bitstogo, unit);
      if ucs4 >= UTF16_BASE {
        SurrogateArithmetic(ucs4);
        ucs4 := ucs4 - UTF16_BASE;
        bitbuf := Wrap(Or(Shl(bitbuf, 16), Shr(ucs4, 10) + HIGH_START), 32);
        ucs4 := And(ucs4, 0x3FF) + LOW_START;
        assert Utf16(ucs4) == rest;
      } else {
        bitbuf := Wrap(Or(Shl(bitbuf, 16), ucs4), 32);
        utf16flag := false;
      }
      bitstogo := bitstogo + 16;
      var sextets;
      PendingUnit(before, pending, unit, rest, ToBits(bitbuf, bitstogo), all);
      bitstogo, sextets := SpewSextets(bitbuf, bitstogo);
      out := out + sextets;
      assert ToBits(bitbuf, bitstogo) + [] == ToBits(bitbuf, bitstogo);
    }
  }

  /** Writing `out` so far leaves `bits` of the stream `all` to be written. */
  ghost predicate Pending(out: string, bits: seq<bool>, all: seq<bool>) {
    out + Emit(bits) == Emit(all) && Left(bits) == Left(all)
  }

  lemma PendingUnit(out: string, pending: seq<bool>, unit: Unit, rest: seq<Unit>, chunk: seq<bool>, all: seq<bool>)
    requires chunk == pending + ToBits(unit, 16)
    requires Pending(out, pending + UnitBits([unit] + rest), all)
    ensures Pending(out + Emit(chunk), Left(chunk) + UnitBits(rest), all)
  {
    assert ([unit] + rest)[1..] == rest;
    Associative(pending, ToBits(unit, 16), UnitBits(rest));
    EmitConcat(chunk, UnitBits(rest));
    Associative(out, Emit(chunk), Emit(Left(chunk) + UnitBits(rest)));
  }

  lemma SurrogateArithmetic(ucs4: nat)
    requires UTF16_BASE <= ucs4 <= 0x10FFFF
    ensures Shr(ucs4 - UTF16_BASE, 10) == (ucs4 - UTF16_BASE) / 0x400
    ensures And(ucs4 - UTF16_BASE, 0x3FF) == (ucs4 - UTF16_BASE) % 0x400
  {
    Low10(ucs4 - UTF16_BASE);
  }

  lemma CollectBits(ucs4: nat, c: nat)
    requires ucs4 < 0x4000
    ensures Wrap(Or(Shl(ucs4, 6), And(c, 0x3F)), 32) == ucs4 * 0x40 + c % 0x40
  {
    assert And(c, 0x3F) == c % 0x40 by {
      Low6(c);
    }
    assert Or(Shl(ucs4, 6), c % 0x40) == ucs4 * 0x40 + c % 0x40 by {
      Pow2Values();
      OrAdds(ucs4, c % 0x40, 6);
      ShlMultiplies(ucs4, 6);
    }
    Fits32(ucs4 * 0x40 + c % 0x40);
  }

  ghost function Registers(utf8pos: nat, utf8total: nat, ucs4: nat): Utf8State {
    if utf8total == 0 then Idle else Collecting(utf8pos, utf8total, ucs4)
  }

  /** One octet goes into the code point being collected. */
  method CollectOctet(utf8pos0: nat, utf8total0: nat, ucs40: nat, c: nat)
    returns (utf8pos: nat, utf8total: nat, ucs4: nat, complete: bool)
    requires WellFormed(Registers(utf8pos0, utf8total0, ucs40))
    ensures Feed(Registers(utf8pos0, utf8total0, ucs40), c)
         == if complete then Complete(ucs4) else Partial(Registers(utf8pos, utf8total, ucs4))
  {
    utf8pos, utf8total, ucs4, complete := utf8pos0, utf8total0, ucs40, true;
    if c < 0x80 {
      ucs4 := c;
      utf8total := 1;
    } else if utf8total > 0 {
      CollectBits(ucs4, c);
      ucs4 := Wrap(Or(Shl(ucs4, 6), And(c, 0x3F)), 32);
      utf8pos := utf8pos + 1;
      complete := utf8pos >= utf8total;
    } else {
      utf8pos := 1;
      if c < 0xE0 {
        Low5(c);
        utf8total := 2;
        ucs4 := And(c, 0x1F);
      } else if c < 0xF0 {
        Low4(c);
        utf8total := 3;
        ucs4 := And(c, 0x0F);
      } else {
        Low2(c);
        utf8total := 4;
        ucs4 := And(c, 0x03);
      }
      complete := false;
    }
  }

  /** Leaving UTF-7 mode */
  method CloseRun(bitbuf: nat, bitstogo: nat) returns (closing: string)
    requires bitstogo < 6
    ensures closing == Close(ToBits(bitbuf, bitstogo))
  {
    closing := "";
    if bitstogo > 0 {
      CloseSextet(bitbuf, bitstogo);
      closing := [Base64Char(And(Wrap(Shl(bitbuf, 6 - bitstogo), 32), 0x3F))];
    }
    closing := closing + "-";
  }

  method EncodeImapFolderName(src: string, utf8Enabled: bool) returns (result: string)
    ensures result == Quoted(if utf8Enabled then src else Encoded(src))
  {
    if utf8Enabled {
      result := QuoteIMAP(src);
      return;
    }
    var utf7mode := false;
    var utf8pos: nat, utf8total: nat, ucs4: nat := 0, 0, 0;
    var bitbuf: nat, bitstogo: nat := 0, 0;
    var dst := "";
    var srcPtr := 0;
    while srcPtr < |src|
      invariant 0 <= srcPtr <= |src|
      invariant bitstogo < 6 && (!utf7mode ==> bitstogo == 0)
      invariant WellFormed(Registers(utf8pos, utf8total, ucs4))
      invariant Written(dst, src[srcPtr..], utf7mode, ToBits(bitbuf, bitstogo),
                        Registers(utf8pos, utf8total, ucs4), src)
    {
      ghost var before, rest, run, bits := dst, src[srcPtr..], utf7mode, ToBits(bitbuf, bitstogo);
      ghost var u := Registers(utf8pos, utf8total, ucs4);
      assert rest[1..] == src[srcPtr + 1..];
      var c := src[srcPtr] as nat;
      srcPtr := srcPtr + 1;
      if ' ' as nat <= c <= '~' as nat {
        if utf7mode {
          var closing := CloseRun(bitbuf, bitstogo);
          dst := dst + closing;
          bitstogo := 0;
          utf7mode := false;
        }
        dst := dst + [c as char];
        if c == '&' as nat {
          dst := dst + "-";
        }
        WrittenDirect(before, rest, run, bits, u, src);
        assert dst == before + ((if run then Close(bits) else "") + [rest[0]] + (if rest[0] == '&' then "-" else ""));
        continue;
      }
      if !utf7mode {
        dst := dst + "&";
        utf7mode := true;
      }
      assert dst == before + (if run then "" else "&");
      var complete;
      utf8pos, utf8total, ucs4, complete := CollectOctet(utf8pos, utf8total, ucs4, c);
      if !complete {
        WrittenPartial(before, rest, run, bits, u, src);
        continue;
      }
      utf8total := 0;
      var sextets;
      bitbuf, bitstogo, sextets := SpewCodePoint(ucs4, bitbuf, bitstogo);
      dst := dst + sextets;
      WrittenComplete(before, rest, run, bits, u, src);
    }
    assert src[srcPtr..] == "" && dst + "" == dst;
    if utf7mode {
      var closing := CloseRun(bitbuf, bitstogo);
      dst := dst + closing;
    }
    assert dst == Encoded(src);
    result := QuoteIMAP(dst);
  }

  /** `dst` followed by the encoding of the rest is the encoding of `src`. */
  ghost predicate Written(dst: string, rest: string, run: bool, bits: seq<bool>, u: Utf8State, src: string)
    requires |bits| < 6 && WellFormed(u)
  {
    dst + EncodeFrom(rest, run, bits, u) == Encoded(src)
  }

  lemma WrittenDirect(dst: string, rest: string, run: bool, bits: seq<bool>, u: Utf8State, src: string)
    requires |bits| < 6 && WellFormed(u) && rest != "" && Direct(rest[0])
    requires Written(dst, rest, run, bits, u, src)
    ensures var piece := (if run then Close(bits) else "") + [rest[0]] + (if rest[0] == '&' then "-" else "");
      Written(dst + piece, rest[1..], false, [], u, src)
  {
    var piece := (if run then Close(bits) else "") + [rest[0]] + (if rest[0] == '&' then "-" else "");
    Associative(dst, piece, EncodeFrom(rest[1..], false, [], u));
  }

  lemma WrittenPartial(dst: string, rest: string, run: bool, bits: seq<bool>, u: Utf8State, src: string)
    requires |bits| < 6 && WellFormed(u) && rest != "" && !Direct(rest[0]) && Feed(u, rest[0] as nat).Partial?
    requires Written(dst, rest, run, bits, u, src)
    ensures Written(dst + (if run then "" else "&"), rest[1..], true, bits, Feed(u, rest[0] as nat).next, src)
  {
    Associative(dst, if run then "" else "&", EncodeFrom(rest[1..], true, bits, Feed(u, rest[0] as nat).next));
  }

  lemma WrittenComplete(dst: string, rest: string, run: bool, bits: seq<bool>, u: Utf8State, src: string)
    requires |bits| < 6 && WellFormed(u) && rest != "" && !Direct(rest[0]) && Feed(u, rest[0] as nat).Complete?
    requires Written(dst, rest, run, bits, u, src)
    ensures var all := bits + UnitBits(Utf16(Feed(u, rest[0] as nat).ucs4));
      Written(dst + (if run then "" else "&") + Emit(all), rest[1..], true, Left(all), Idle, src)
  {
    var all := bits + UnitBits(Utf16(Feed(u, rest[0] as nat).ucs4));
    var open, tail := if run then "" else "&", EncodeFrom(rest[1..], true, Left(all), Idle);
    assert EncodeFrom(rest, run, bits, u) == open + (Emit(all) + tail);
    Associative(dst, open, Emit(all) + tail);
    Associative(dst + open, Emit(all), tail);
  }
}
