/** What the mailbox-name encoder writes: the UTF-16 bit stream of every run, regrouped in sextets,
    and when that text is modified UTF-7 (section 5.1.3 of RFC 3501). */
module FolderNameText {
  import opened Bits
  import opened Unicode
  import opened FolderNameCodec
  import opened FolderNameDecoder

  predicate IsDirect(cp: nat) {
    0x20 <= cp <= 0x7E
  }

  /** The value the encoder has collected at the end of a code point's UTF-8 form: bit 20 is lost. */
  function Sent(cp: Scalar): nat {
    cp % 0x10_0000
  }

  /** The code units of the longest prefix of code points that are not printable ASCII */
  function RunUnits(cps: seq<Scalar>): seq<Unit> {
    if cps == [] || IsDirect(cps[0]) then [] else Utf16(Sent(cps[0])) + RunUnits(cps[1..])
  }

  function AfterUnits(cps: seq<Scalar>): (rest: seq<Scalar>)
    ensures |rest| <= |cps|
    ensures cps != [] && !IsDirect(cps[0]) ==> |rest| < |cps|
  {
    if cps == [] || IsDirect(cps[0]) then cps else AfterUnits(cps[1..])
  }

  /** A bit stream regrouped in sextets, the last one padded with zero bits, and the `-` that ends it */
  function RunText(bits: seq<bool>): string {
    Emit(bits) + Close(Left(bits))
  }

  /** Modified UTF-7, run by run */
  function Modified(cps: seq<Scalar>): string
    decreases |cps|
  {
    if cps == [] then ""
    else if IsDirect(cps[0]) then DirectText(cps[0]) + Modified(cps[1..])
    else "&" + RunText(UnitBits(RunUnits(cps))) + Modified(AfterUnits(cps))
  }

  function DirectText(cp: Scalar): string
    requires IsDirect(cp)
  {
    if cp as char == '&' then "&-" else [cp as char]
  }

  // ---------------------------------------------------------------- The encoder sends Modified

  lemma OpenRun(src: string)
    requires src != "" && !Direct(src[0])
    ensures Encoded(src) == "&" + EncodeFrom(src, true, [], Idle)
  {
    var fed := Feed(Idle, src[0] as nat);
    if fed.Partial? {
      var rest := EncodeFrom(src[1..], true, [], fed.next);
      assert "" + rest == rest;
    } else {
      var all := [] + UnitBits(Utf16(fed.ucs4));
      var rest := Emit(all) + EncodeFrom(src[1..], true, Left(all), Idle);
      assert "" + rest == rest;
    }
  }

  /** One octet of a sequence that is not complete yet */
  lemma PartialOctet(c: char, t: string, bits: seq<bool>, u: Utf8State)
    requires |bits| < 6 && WellFormed(u) && !Direct(c) && Feed(u, c as nat).Partial?
    ensures EncodeFrom([c] + t, true, bits, u) == EncodeFrom(t, true, bits, Feed(u, c as nat).next)
  {
    assert ([c] + t)[1..] == t;
    var rest := EncodeFrom(t, true, bits, Feed(u, c as nat).next);
    assert "" + rest == rest;
  }

  lemma LastOctet(c: char, t: string, bits: seq<bool>, u: Utf8State)
    requires |bits| < 6 && WellFormed(u) && !Direct(c) && Feed(u, c as nat).Complete?
    ensures var all := bits + UnitBits(Utf16(Feed(u, c as nat).ucs4));
      EncodeFrom([c] + t, true, bits, u) == Emit(all) + EncodeFrom(t, true, Left(all), Idle)
  {
    var all := bits + UnitBits(Utf16(Feed(u, c as nat).ucs4));
    var rest := Emit(all) + EncodeFrom(t, true, Left(all), Idle);
    assert ([c] + t)[0] == c && ([c] + t)[1..] == t;
    assert EncodeFrom([c] + t, true, bits, u) == "" + rest;
    assert "" + rest == rest;
  }

  /** The octets complete a code point collected from state `u`, with value `v`. */
  ghost predicate Collects(u: Utf8State, s: string, v: nat)
    decreases |s|
  {
    && s != "" && !Direct(s[0])
    && if |s| == 1 then Feed(u, s[0] as nat) == Complete(v)
       else Feed(u, s[0] as nat).Partial? && Collects(Feed(u, s[0] as nat).next, s[1..], v)
  }

  lemma CollectsMore(u: Utf8State, c: nat, next: Utf8State, s: string, v: nat)
    requires 0x80 <= c < 0x100 && s != "" && Feed(u, c) == Partial(next) && Collects(next, s, v)
    ensures Collects(u, [Octet(c)] + s, v)
  {
    assert ([Octet(c)] + s)[1..] == s;
  }

  lemma CollectsLast(u: Utf8State, c: nat, v: nat)
    requires 0x80 <= c < 0x100 && Feed(u, c) == Complete(v)
    ensures Collects(u, [Octet(c)], v)
  {
  }

  /** A trailing octet carries six more bits. */
  lemma TrailFeeds(pos: nat, total: nat, acc: nat, c: nat, v: nat)
    requires acc == v / 0x40 && 0x80 <= c && c % 0x40 == v % 0x40
    ensures Feed(Collecting(pos, total, acc), c)
         == (if pos + 1 < total then Partial(Collecting(pos + 1, total, v)) else Complete(v))
  {
  }

  lemma Collects2(cp: nat)
    requires 0x80 <= cp <= 0x7FF
    ensures Collects(Idle, Utf8(cp), cp)
  {
    var u1 := Collecting(1, 2, cp / 0x40);
    var c1, c2 := 0xC0 + cp / 0x40, 0x80 + cp % 0x40;
    TrailFeeds(1, 2, cp / 0x40, c2, cp);
    CollectsLast(u1, c2, cp);
    CollectsMore(Idle, c1, u1, [Octet(c2)], cp);
  }

  lemma Collects3(cp: nat)
    requires 0x800 <= cp <= 0xFFFF
    ensures Collects(Idle, Utf8(cp), cp)
  {
    var u1, u2 := Collecting(1, 3, cp / 0x1000), Collecting(2, 3, cp / 0x40);
    var c1, c2, c3 := 0xE0 + cp / 0x1000, 0x80 + cp / 0x40 % 0x40, 0x80 + cp % 0x40;
    TrailFeeds(2, 3, cp / 0x40, c3, cp);
    TrailFeeds(1, 3, cp / 0x1000, c2, cp / 0x40);
    hide Collects;
    CollectsLast(u2, c3, cp);
    CollectsMore(u1, c2, u2, [Octet(c3)], cp);
    CollectsMore(Idle, c1, u1, [Octet(c2)] + [Octet(c3)], cp);
    assert Utf8(cp) == [Octet(c1)] + ([Octet(c2)] + [Octet(c3)]);
  }

  lemma Collects4(cp: nat)
    requires 0x10000 <= cp <= 0x10FFFF
    ensures Collects(Idle, Utf8(cp), cp % 0x10_0000)
  {
    hide Collects;
    var a, b, c, d := cp / 0x40000, cp / 0x1000 % 0x40, cp / 0x40 % 0x40, cp % 0x40;
    Collects4Digits(a, b, c, d);
    WordDigits(cp);
    WithoutBit20(cp, a, b * 0x1000 + c * 0x40 + d);
    assert Utf8(cp) == [Octet(0xF0 + a)] + ([Octet(0x80 + b)] + ([Octet(0x80 + c)] + [Octet(0x80 + d)]));
  }

  lemma WithoutBit20(cp: nat, a: nat, r: nat)
    requires a <= 4 && r < 0x40000 && cp == a * 0x40000 + r
    ensures cp % 0x10_0000 == a % 4 * 0x40000 + r
  {
    if a == 4 {
      assert cp == 0x10_0000 + r;
    }
  }

  lemma Collects4Digits(a: nat, b: nat, c: nat, d: nat)
    requires a <= 4 && b < 0x40 && c < 0x40 && d < 0x40
    ensures Collects(Idle, [Octet(0xF0 + a)] + ([Octet(0x80 + b)] + ([Octet(0x80 + c)] + [Octet(0x80 + d)])),
                     a % 4 * 0x40000 + b * 0x1000 + c * 0x40 + d)
  {
    var v1 := a % 4;
    var v2 := v1 * 0x40 + b;
    var v3 := v2 * 0x40 + c;
    var v := v3 * 0x40 + d;
    TrailFeeds(3, 4, v3, 0x80 + d, v);
    TrailFeeds(2, 4, v2, 0x80 + c, v3);
    TrailFeeds(1, 4, v1, 0x80 + b, v2);
    hide Collects;
    CollectsLast(Collecting(3, 4, v3), 0x80 + d, v);
    CollectsMore(Collecting(2, 4, v2), 0x80 + c, Collecting(3, 4, v3), [Octet(0x80 + d)], v);
    CollectsMore(Collecting(1, 4, v1), 0x80 + b, Collecting(2, 4, v2), [Octet(0x80 + c)] + [Octet(0x80 + d)], v);
    CollectsMore(Idle, 0xF0 + a, Collecting(1, 4, v1), [Octet(0x80 + b)] + ([Octet(0x80 + c)] + [Octet(0x80 + d)]), v);
  }

  lemma CollectScalar(cp: Scalar)
    requires !IsDirect(cp)
    ensures Collects(Idle, Utf8(cp), Sent(cp))
  {
    if 0x80 <= cp <= 0x7FF {
      Collects2(cp);
    } else if 0x800 <= cp <= 0xFFFF {
      Collects3(cp);
    } else if 0x10000 <= cp {
      Collects4(cp);
    }
  }

  lemma {:induction false} EncodeCollected(s: string, t: string, v: nat, bits: seq<bool>, u: Utf8State)
    requires |bits| < 6 && WellFormed(u) && v < 0x10_0000 && Collects(u, s, v)
    ensures var all := bits + UnitBits(Utf16(v));
      EncodeFrom(s + t, true, bits, u) == Emit(all) + EncodeFrom(t, true, Left(all), Idle)
    decreases |s|
  {
    if |s| == 1 {
      assert s + t == [s[0]] + t;
      LastOctet(s[0], t, bits, u);
    } else {
      assert s + t == [s[0]] + (s[1..] + t);
      PartialOctet(s[0], s[1..] + t, bits, u);
      EncodeCollected(s[1..], t, v, bits, Feed(u, s[0] as nat).next);
    }
  }

  /** Inside a run, with `bits` of it not written yet */
  lemma {:induction false} EncodeInRun(cps: seq<Scalar>, bits: seq<bool>)
    requires |bits| < 6
    ensures EncodeFrom(Utf8All(cps), true, bits, Idle)
         == RunText(bits + UnitBits(RunUnits(cps))) + Modified(AfterUnits(cps))
    decreases |cps|, 0
  {
    if cps == [] || IsDirect(cps[0]) {
      assert bits + [] == bits;
      if cps != [] {
        EncodedIsModified(cps[1..]);
        DirectScalar(cps[0], Utf8All(cps[1..]), true, bits);
        Associative(Close(bits), DirectText(cps[0]), Modified(cps[1..]));
      }
    } else {
      var unitBits, more := UnitBits(Utf16(Sent(cps[0]))), UnitBits(RunUnits(cps[1..]));
      var all := bits + unitBits;
      EncodeScalar(cps[0], Utf8All(cps[1..]), bits);
      EncodeInRun(cps[1..], Left(all));
      EmitConcat(all, more);
      RunUnitsBits(cps);
      Associative(bits, unitBits, more);
      RunTextConcat(all, more);
      Associative(Emit(all), RunText(Left(all) + more), Modified(AfterUnits(cps)));
    }
  }

  lemma RunTextConcat(a: seq<bool>, b: seq<bool>)
    ensures RunText(a + b) == Emit(a) + RunText(Left(a) + b)
  {
    EmitConcat(a, b);
    Associative(Emit(a), Emit(Left(a) + b), Close(Left(a + b)));
  }

  lemma RunUnitsBits(cps: seq<Scalar>)
    requires cps != [] && !IsDirect(cps[0])
    ensures UnitBits(RunUnits(cps)) == UnitBits(Utf16(Sent(cps[0]))) + UnitBits(RunUnits(cps[1..]))
  {
    UnitBitsConcat(Utf16(Sent(cps[0])), RunUnits(cps[1..]));
  }

  lemma DirectScalar(cp: Scalar, t: string, run: bool, bits: seq<bool>)
    requires |bits| < 6 && IsDirect(cp)
    ensures EncodeFrom(Utf8(cp) + t, run, bits, Idle)
         == (if run then Close(bits) else "") + DirectText(cp) + EncodeFrom(t, false, [], Idle)
  {
    assert (Utf8(cp) + t)[1..] == t;
    var c := cp as char;
    var head := if run then Close(bits) else "";
    Associative(head, [c], if c == '&' then "-" else "");
    assert [c] + (if c == '&' then "-" else "") == DirectText(cp);
  }

  lemma EncodeScalar(cp: Scalar, t: string, bits: seq<bool>)
    requires |bits| < 6 && !IsDirect(cp)
    ensures var all := bits + UnitBits(Utf16(Sent(cp)));
      EncodeFrom(Utf8(cp) + t, true, bits, Idle) == Emit(all) + EncodeFrom(t, true, Left(all), Idle)
  {
    CollectScalar(cp);
    EncodeCollected(Utf8(cp), t, Sent(cp), bits, Idle);
  }

  /** On well-formed UTF-8 the shift-register encoder writes every maximal run of code points that
      are not printable ASCII as one padded base64 stream of its UTF-16 bits. */
  lemma {:induction false} EncodedIsModified(cps: seq<Scalar>)
    ensures Encoded(Utf8All(cps)) == Modified(cps)
    decreases |cps|, 1
  {
    if cps == [] {
    } else if IsDirect(cps[0]) {
      EncodedIsModified(cps[1..]);
      DirectScalar(cps[0], Utf8All(cps[1..]), false, []);
      assert "" + DirectText(cps[0]) == DirectText(cps[0]);
    } else {
      CollectScalar(cps[0]);
      OpenRun(Utf8All(cps));
      EncodeInRun(cps, []);
      assert [] + UnitBits(RunUnits(cps)) == UnitBits(RunUnits(cps));
      Associative("&", RunText(UnitBits(RunUnits(cps))), Modified(AfterUnits(cps)));
    }
  }

  // ---------------------------------------------------------------- Runs read back

  lemma SextetCharBits(bits: seq<bool>)
    requires |bits| == 6
    ensures Base64Index(SextetChar(bits)) < 64 && ToBits(Base64Index(SextetChar(bits)), 6) == bits
  {
    FromBitsBound(bits);
    Pow2Values();
    Base64Inverse(FromBits(bits));
    ToFromBits(bits);
  }

  /** The zero bits that fill the last sextet */
  function Padding(bits: seq<bool>): (pad: seq<bool>)
    ensures |pad| < 6
    decreases |bits|
  {
    if bits == [] then [] else if |bits| < 6 then Zeros(6 - |bits|) else Padding(bits[6..])
  }

  /** The decoder reads the bits of a run back, with the padding. */
  lemma {:induction false} RunTextBits(bits: seq<bool>, t: string)
    ensures RunBits(RunText(bits) + t) == bits + Padding(bits)
    ensures AfterRun(RunText(bits) + t) == "-" + t
    decreases |bits|
  {
    DashEndsRun(t);
    if bits == [] {
      assert RunText(bits) == "-";
    } else if |bits| < 6 {
      var padded := bits + Padding(bits);
      SextetCharBits(padded);
      assert RunText(bits) + t == [SextetChar(padded)] + ("-" + t);
      RunBitsCons(SextetChar(padded), "-" + t);
    } else {
      var head, more := bits[..6], bits[6..];
      SextetCharBits(head);
      RunTextBits(more, t);
      RunTextCons(bits, t);
      RunBitsCons(SextetChar(head), RunText(more) + t);
      Associative(head, more, Padding(more));
      assert head + more == bits;
    }
  }

  lemma RunTextCons(bits: seq<bool>, t: string)
    requires |bits| >= 6
    ensures RunText(bits) + t == [SextetChar(bits[..6])] + (RunText(bits[6..]) + t)
  {
    var c := [SextetChar(bits[..6])];
    Associative(c, Emit(bits[6..]), Close(Left(bits)));
    Associative(c, RunText(bits[6..]), t);
  }

  lemma DashEndsRun(t: string)
    ensures RunBits("-" + t) == [] && AfterRun("-" + t) == "-" + t
  {
  }

  lemma RunBitsCons(c: char, t: string)
    requires Base64Index(c) < 64
    ensures RunBits([c] + t) == ToBits(Base64Index(c), 6) + RunBits(t) && AfterRun([c] + t) == AfterRun(t)
  {
    assert ([c] + t)[1..] == t;
  }

  // ---------------------------------------------------------------- A run of one code unit, in the alphabet

  lemma SextetOf(x: nat)
    ensures SextetChar(ToBits(x, 6)) == ALPHABET[x % 0x40]
  {
    Low6(x);
    Pow2Values();
    AndMask(x, 6);
    FromBitsWrap(x, 6);
    Base64Alphabet(x % 0x40);
  }

  /** Sixteen bits as three sextets, the last one with two zero bits */
  lemma UnitSextets(u: Unit)
    ensures ToBits(u, 16) == ToBits(u / 0x400, 6) + (ToBits(u / 0x10, 6) + ToBits(u, 4))
    ensures ToBits(u, 4) + Zeros(2) == ToBits(u % 0x10 * 4, 6)
  {
    hide *;
    Low10(u);
    Low4(u);
    ToBitsShr(u, 6, 10);
    ToBitsShr(u, 6, 4);
    LastSextet(u);
  }

  lemma LastSextet(u: Unit)
    ensures ToBits(u, 4) + Zeros(2) == ToBits(u % 0x10 * 4, 6)
  {
    hide *;
    ToBitsMod(u, 4);
    ToBitsShl(u % 0x10, 0, 4, 2);
    ShlMultiplies(u % 0x10, 2);
    ZeroBits(2);
    Pow2Values();
  }

  lemma ToBitsMod(x: nat, n: nat)
    requires n == 4
    ensures ToBits(x, 4) == ToBits(x % 0x10, 4)
  {
    Low4(x);
    Pow2Values();
    AndMask(x, 4);
    ToBitsWrap(x, 4, 4);
  }

  lemma ThreeSextets(a: seq<bool>, b: seq<bool>, c: seq<bool>)
    requires |a| == |b| == 6 && |c| == 4
    ensures RunText(a + (b + c)) == [SextetChar(a), SextetChar(b), SextetChar(c + Zeros(2))] + "-"
  {
    hide SextetChar, Zeros;
    var bits := a + (b + c);
    assert bits[..6] == a && bits[6..] == b + c && (b + c)[..6] == b && (b + c)[6..] == c;
    assert Emit(c) == "" && Left(c) == c;
    assert Emit(b + c) == [SextetChar(b)] + Emit(c) && Left(b + c) == c;
    assert Emit(bits) == [SextetChar(a)] + Emit(b + c) && Left(bits) == c;
    assert [SextetChar(a)] + ([SextetChar(b)] + "") == [SextetChar(a), SextetChar(b)];
    assert Close(c) == [SextetChar(c + Zeros(2))] + "-";
  }

  /** A single code unit is sent as the three characters of the alphabet that its bits count out. */
  function UnitText(u: Unit): string {
    [ALPHABET[u / 0x400], ALPHABET[u / 0x10 % 0x40], ALPHABET[u % 0x10 * 4]] + "-"
  }

  lemma OneUnit(u: Unit)
    ensures RunText(ToBits(u, 16)) == UnitText(u)
  {
    hide *;
    UnitSextets(u);
    UnitTexts(u);
    SextetOf(u / 0x400);
    SextetOf(u / 0x10);
    SextetOf(u % 0x10 * 4);
    ThreeSextets(ToBits(u / 0x400, 6), ToBits(u / 0x10, 6), ToBits(u, 4));
  }

  lemma UnitTexts(u: Unit)
    ensures |ALPHABET| == 64 && u / 0x400 % 0x40 == u / 0x400 && u % 0x10 * 4 % 0x40 == u % 0x10 * 4
    ensures UnitText(u) == [ALPHABET[u / 0x400], ALPHABET[u / 0x10 % 0x40], ALPHABET[u % 0x10 * 4]] + "-"
  {
  }

  lemma SingleBits(u: Unit)
    ensures UnitBits([u]) == ToBits(u, 16)
  {
    hide ToBits;
    assert [u][1..] == [] && UnitBits([]) == [];
  }

  lemma SingleRun(cp: Scalar)
    requires !IsDirect(cp) && cp < 0x1_0000
    ensures Modified([cp]) == "&" + RunText(UnitBits([cp]))
  {
    hide RunText, UnitBits;
    assert [cp][1..] == [] && Utf16(Sent(cp)) == [cp] && RunUnits([]) == [] && AfterUnits([]) == [];
    assert RunUnits([cp]) == [cp] + [] == [cp];
    assert Modified([]) == "" && ("&" + RunText(UnitBits([cp]))) + "" == "&" + RunText(UnitBits([cp]));
  }

  lemma EncodedOne(cp: Scalar)
    requires !IsDirect(cp) && cp < 0x1_0000
    ensures Encoded(Utf8All([cp])) == "&" + UnitText(cp)
  {
    hide *;
    EncodedIsModified([cp]);
    SingleRun(cp);
    SingleBits(cp);
    OneUnit(cp);
  }

  /** A small e with an acute accent */
  lemma EncodedAcute()
    ensures Encoded(Utf8All([0xE9])) == "&AOk-"
  {
    hide Encoded, Utf8All, ALPHABET;
    EncodedOne(0xE9);
    AlphabetStart();
    assert UnitText(0xE9) == "AOk" + "-";
  }

  lemma AlphabetStart()
    ensures ALPHABET[0] == 'A' && ALPHABET[14] == 'O' && ALPHABET[36] == 'k'
  {
  }

  // ---------------------------------------------------------------- Modified UTF-7

  /** Everything the encoder writes, for any octets, is printable ASCII. */
  lemma {:induction false} EncodedPrintable(src: string, run: bool, bits: seq<bool>, u: Utf8State)
    requires |bits| < 6 && WellFormed(u)
    ensures Printable(EncodeFrom(src, run, bits, u))
    decreases |src|
  {
    hide Printable, Close, Emit, Left, Utf16, UnitBits;
    ClosePrintable(bits);
    if src == "" {
      OnePrintable("");
    } else if Direct(src[0]) {
      var start := if run then Close(bits) else "";
      var dash := if src[0] == '&' then "-" else "";
      var rest := EncodeFrom(src[1..], false, [], u);
      EncodedPrintable(src[1..], false, [], u);
      OnePrintable([src[0]]);
      OnePrintable("-");
      OnePrintable("");
      PrintableConcat(start, [src[0]]);
      PrintableConcat(start + [src[0]], dash);
      PrintableConcat(start + [src[0]] + dash, rest);
    } else {
      RunPrintable(src, run, bits, u);
    }
  }

  lemma {:induction false} RunPrintable(src: string, run: bool, bits: seq<bool>, u: Utf8State)
    requires |bits| < 6 && WellFormed(u) && src != "" && !Direct(src[0])
    ensures Printable(EncodeFrom(src, run, bits, u))
    decreases |src|, 0
  {
    hide Printable, Close, Emit, Left, Utf16, UnitBits;
    var fed := Feed(u, src[0] as nat);
    var start := if run then "" else "&";
    OnePrintable("&");
    OnePrintable("");
    if fed.Partial? {
      EncodedPrintable(src[1..], true, bits, fed.next);
      PrintableConcat(start, EncodeFrom(src[1..], true, bits, fed.next));
    } else {
      var all := bits + UnitBits(Utf16(fed.ucs4));
      var rest := EncodeFrom(src[1..], true, Left(all), Idle);
      EmitPrintable(all);
      EncodedPrintable(src[1..], true, Left(all), Idle);
      PrintableConcat(Emit(all), rest);
      PrintableConcat(start, Emit(all) + rest);
    }
  }

  lemma PrintableConcat(a: string, b: string)
    requires Printable(a) && Printable(b)
    ensures Printable(a + b)
  {
  }

  lemma OnePrintable(s: string)
    requires s == "" || (|s| == 1 && Direct(s[0]))
    ensures Printable(s)
  {
  }

  lemma ClosePrintable(bits: seq<bool>)
    requires |bits| < 6
    ensures Printable(Close(bits))
  {
  }

  predicate Printable(s: string) {
    forall i :: 0 <= i < |s| ==> 0x20 <= s[i] as int <= 0x7E
  }

  lemma {:induction false} EmitPrintable(bits: seq<bool>)
    ensures Printable(Emit(bits))
    decreases |bits|
  {
    if |bits| >= 6 {
      EmitPrintable(bits[6..]);
    }
  }

  /** Section 5.1.3 of RFC 3501: printable characters stand for themselves, `&-` for `&`, and the
      rest is base64 runs of well-formed UTF-16 that encode no printable character, are padded with
      fewer than six zero bits, end with `-`, and do not follow one another. */
  ghost predicate Conforms(s: string)
    decreases |s|
  {
    s == ""
    || (Direct(s[0]) && s[0] != '&' && Conforms(s[1..]))
    || (|s| > 1 && s[0] == '&' && s[1] == '-' && Conforms(s[2..]))
    || (s[0] == '&' && ConformingBits(RunBits(s[1..]))
        && AfterRun(s[1..]) != "" && AfterRun(s[1..])[0] == '-'
        && !StartsRun(AfterRun(s[1..])[1..]) && Conforms(AfterRun(s[1..])[1..]))
  }

  ghost predicate ConformingBits(bits: seq<bool>) {
    && BitsUnits(bits) != [] && Indirect(BitsUnits(bits)) && Paired(BitsUnits(bits), false)
    && exists pad: seq<bool> :: |pad| < 6 && pad == Zeros(|pad|) && bits == UnitBits(BitsUnits(bits)) + pad
  }

  ghost predicate Indirect(units: seq<Unit>) {
    forall i :: 0 <= i < |units| ==> !IsDirect(units[i])
  }

  /** Well-formed UTF-16: low surrogates directly after high ones, and nowhere else. `high` tells whether
      a high one comes before. */
  predicate Paired(units: seq<Unit>, high: bool) {
    if units == [] then !high
    else (IsLow(units[0]) <==> high) && Paired(units[1..], !high && IsHigh(units[0]))
  }

  predicate StartsRun(s: string) {
    s != "" && s[0] == '&' && !(|s| > 1 && s[1] == '-')
  }

  /** The code points whose lost bit leaves a printable character */
  predicate LosesToPrintable(cp: Scalar) {
    0x100020 <= cp <= 0x10007E
  }

  ghost predicate SomeLoses(cps: seq<Scalar>) {
    exists i :: 0 <= i < |cps| && LosesToPrintable(cps[i])
  }

  /** The code points that are sent as one half of a surrogate pair */
  predicate SentHigh(cp: Scalar) {
    0x10D800 <= cp <= 0x10DBFF
  }

  predicate SentLow(cp: Scalar) {
    0x10DC00 <= cp <= 0x10DFFF
  }

  /** Those sent as low halves come directly after those sent as high ones, and nowhere else. */
  predicate HalvesPaired(cps: seq<Scalar>, high: bool) {
    if cps == [] then !high
    else (SentLow(cps[0]) <==> high) && HalvesPaired(cps[1..], SentHigh(cps[0]))
  }

  lemma PairedScalar(cp: Scalar, more: seq<Unit>, high: bool)
    ensures Paired(Utf16(Sent(cp)) + more, high) <==> (SentLow(cp) <==> high) && Paired(more, SentHigh(cp))
  {
    var units := Utf16(Sent(cp));
    var all := units + more;
    if |units| == 1 {
      assert all[0] == units[0] && all[1..] == more;
    } else {
      assert all[0] == units[0] && all[1] == units[1] && all[1..][0] == units[1] && all[1..][1..] == more;
    }
  }

  lemma {:induction false} RunPaired(cps: seq<Scalar>, high: bool)
    ensures HalvesPaired(cps, high) <==> Paired(RunUnits(cps), high) && HalvesPaired(AfterUnits(cps), false)
    decreases |cps|
  {
    if cps != [] && !IsDirect(cps[0]) {
      PairedScalar(cps[0], RunUnits(cps[1..]), high);
      RunPaired(cps[1..], SentHigh(cps[0]));
    }
  }

  lemma PaddingZeros(bits: seq<bool>)
    ensures Padding(bits) == Zeros(|Padding(bits)|)
    decreases |bits|
  {
    if |bits| >= 6 {
      PaddingZeros(bits[6..]);
    }
  }

  lemma RunConforms(units: seq<Unit>)
    requires units != []
    ensures ConformingBits(UnitBits(units) + Padding(UnitBits(units))) <==> Indirect(units) && Paired(units, false)
  {
    var pad := Padding(UnitBits(units));
    BitsUnitsInverse(units, pad);
    PaddingZeros(UnitBits(units));
  }

  lemma {:induction false} RunLosing(cps: seq<Scalar>)
    requires cps != [] && !IsDirect(cps[0])
    ensures RunUnits(cps) != []
    ensures SomeLoses(cps) <==> !Indirect(RunUnits(cps)) || SomeLoses(AfterUnits(cps))
    decreases |cps|
  {
    var first, rest := Utf16(Sent(cps[0])), cps[1..];
    SomeLosesStep(cps);
    IndirectConcat(first, RunUnits(rest));
    ScalarLosing(cps[0]);
    if rest != [] && !IsDirect(rest[0]) {
      RunLosing(rest);
    }
  }

  lemma ScalarLosing(cp: Scalar)
    requires !IsDirect(cp)
    ensures LosesToPrintable(cp) <==> !Indirect(Utf16(Sent(cp)))
  {
    var units := Utf16(Sent(cp));
    if LosesToPrintable(cp) {
      assert IsDirect(units[0]);
    }
  }

  lemma IndirectConcat(a: seq<Unit>, b: seq<Unit>)
    ensures Indirect(a + b) <==> Indirect(a) && Indirect(b)
  {
    var ab := a + b;
    if Indirect(ab) {
      assert forall i :: 0 <= i < |a| ==> a[i] == ab[i];
      assert forall i :: 0 <= i < |b| ==> b[i] == ab[|a| + i];
    }
  }

  lemma SomeLosesStep(cps: seq<Scalar>)
    requires cps != []
    ensures SomeLoses(cps) <==> LosesToPrintable(cps[0]) || SomeLoses(cps[1..])
  {
    var rest := cps[1..];
    if SomeLoses(rest) {
      var i :| 0 <= i < |rest| && LosesToPrintable(rest[i]);
      assert LosesToPrintable(cps[i + 1]);
    }
    if SomeLoses(cps) {
      var i :| 0 <= i < |cps| && LosesToPrintable(cps[i]);
      assert i > 0 ==> rest[i - 1] == cps[i];
    }
  }

  lemma ConformsRun(units: seq<Unit>, t: string)
    requires units != []
    ensures Conforms("&" + RunText(UnitBits(units)) + t)
       <==> Indirect(units) && Paired(units, false) && !StartsRun(t) && Conforms(t)
  {
    var bits := UnitBits(units);
    var s := "&" + RunText(bits) + t;
    assert s[0] == '&' && s[1..] == RunText(bits) + t;
    RunTextBits(bits, t);
    RunConforms(units);
    RunTextCons(bits, t);
    SextetCharBits(bits[..6]);
    assert s[1] == SextetChar(bits[..6]) != '-';
    assert ("-" + t)[1..] == t;
  }

  lemma ConformsDirect(cp: Scalar, t: string)
    requires IsDirect(cp)
    ensures Conforms(DirectText(cp) + t) <==> Conforms(t)
    ensures !StartsRun(DirectText(cp) + t)
  {
    var s := DirectText(cp) + t;
    if cp as char == '&' {
      assert s[1] == '-' && s[2..] == t;
      assert RunBits(s[1..]) == [];
    } else {
      assert s[1..] == t;
    }
  }

  /** The text of a name is modified UTF-7 if and only if no code point loses so much that a
      printable character or half a surrogate pair is left; in particular for every name below U+100000. */
  lemma {:induction false} ModifiedConforms(cps: seq<Scalar>)
    ensures Conforms(Modified(cps)) <==> !SomeLoses(cps) && HalvesPaired(cps, false)
    ensures cps == [] || IsDirect(cps[0]) ==> !StartsRun(Modified(cps))
    decreases |cps|
  {
    if cps == [] {
    } else if IsDirect(cps[0]) {
      ModifiedConforms(cps[1..]);
      ConformsDirect(cps[0], Modified(cps[1..]));
      SomeLosesStep(cps);
    } else {
      RunLosing(cps);
      RunPaired(cps, false);
      AfterUnitsDirect(cps);
      ModifiedConforms(AfterUnits(cps));
      ConformsRun(RunUnits(cps), Modified(AfterUnits(cps)));
    }
  }

  /** A name of the last private-use plane that is sent as a lone surrogate */
  lemma LoneSurrogate()
    ensures !Conforms(Encoded(Utf8All([0x10D800]))) && RunUnits([0x10D800]) == [HIGH_START]
  {
    var cps: seq<Scalar> := [0x10D800];
    EncodedConforms(cps);
    assert cps[1..] == [] && !HalvesPaired(cps, false);
    assert Utf16(Sent(cps[0])) == [HIGH_START];
  }

  lemma {:induction false} AfterUnitsDirect(cps: seq<Scalar>)
    ensures AfterUnits(cps) == [] || IsDirect(AfterUnits(cps)[0])
  {
    if cps != [] && !IsDirect(cps[0]) {
      AfterUnitsDirect(cps[1..]);
    }
  }

  lemma EncodedConforms(cps: seq<Scalar>)
    ensures Conforms(Encoded(Utf8All(cps))) <==> !SomeLoses(cps) && HalvesPaired(cps, false)
    ensures Printable(Encoded(Utf8All(cps)))
  {
    EncodedIsModified(cps);
    ModifiedConforms(cps);
    EncodedPrintable(Utf8All(cps), false, [], Idle);
  }
}
