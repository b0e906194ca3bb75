/** For exactly which mailbox names decoding gives back what was encoded. */
module FolderNameRoundTrip {
  import opened Bits
  import opened Unicode
  import opened FolderNameCodec
  import opened FolderNameDecoder
  import opened FolderNameText

  // ---------------------------------------------------------------- What the decoder gets back

  /** What is decoded: the text as it was quoted, or as it was before that */
  function Wire(s: string, q: bool): string {
    if q then Quoted(s) else s
  }

  function Shown(c: char, q: bool): string {
    if q then QuotedChar(c) else [c]
  }

  lemma WireConcat(a: string, b: string, q: bool)
    ensures Wire(a + b, q) == Wire(a, q) + Wire(b, q)
  {
    QuotedConcat(a, b);
  }

  /** What decoding the sent text of a name gives, code point by code point; `word` is the last
      word of the decoder in the current run, 0 at its start; `q` tells whether the text is quoted. */
  function Received(cps: seq<Scalar>, word: nat, q: bool): string {
    if cps == [] then ""
    else if IsDirect(cps[0]) then Shown(cps[0] as char, q) + Received(cps[1..], 0, q)
    else
      var units := Utf16(Sent(cps[0]));
      Characters(word, units) + Received(cps[1..], LastWord(word, units), q)
  }

  function LastWord(word: nat, units: seq<Unit>): nat
    decreases |units|
  {
    if units == [] then word
    else LastWord(if IsHigh(units[0]) then HighPart(units[0]) else Combine(word, units[0]), units[1..])
  }

  lemma {:induction false} CharactersConcat(word: nat, a: seq<Unit>, b: seq<Unit>)
    ensures Characters(word, a + b) == Characters(word, a) + Characters(LastWord(word, a), b)
    decreases |a|
  {
    if a == [] {
      assert a + b == b;
    } else {
      assert (a + b)[1..] == a[1..] + b;
      if IsHigh(a[0]) {
        CharactersConcat(HighPart(a[0]), a[1..], b);
      } else {
        var w := Combine(word, a[0]);
        CharactersConcat(w, a[1..], b);
        Associative(WordUtf8(w), Characters(w, a[1..]), Characters(LastWord(w, a[1..]), b));
      }
    }
  }

  /** A run decoded as a whole, and code point by code point */
  lemma {:induction false} ReceivedRun(cps: seq<Scalar>, word: nat, q: bool)
    ensures Received(cps, word, q) == Characters(word, RunUnits(cps)) + Received(AfterUnits(cps), 0, q)
    decreases |cps|
  {
    if cps == [] || IsDirect(cps[0]) {
      assert "" + Received(cps, 0, q) == Received(cps, word, q);
    } else {
      var units, w := Utf16(Sent(cps[0])), LastWord(word, Utf16(Sent(cps[0])));
      ReceivedRun(cps[1..], w, q);
      CharactersConcat(word, units, RunUnits(cps[1..]));
      Associative(Characters(word, units), Characters(w, RunUnits(cps[1..])), Received(AfterUnits(cps), 0, q));
    }
  }

  lemma {:induction false} QuotedConcat(a: string, b: string)
    ensures Quoted(a + b) == Quoted(a) + Quoted(b)
  {
    if a == "" {
      assert a + b == b;
    } else {
      assert (a + b)[1..] == a[1..] + b;
      QuotedConcat(a[1..], b);
      Associative(QuotedChar(a[0]), Quoted(a[1..]), Quoted(b));
    }
  }

  lemma {:induction false} EmitUnquoted(bits: seq<bool>)
    ensures Unquoted(Emit(bits))
    decreases |bits|
  {
    if |bits| >= 6 {
      EmitUnquoted(bits[6..]);
    }
  }

  lemma RunTextUnquoted(bits: seq<bool>)
    ensures Quoted(RunText(bits)) == RunText(bits)
  {
    EmitUnquoted(bits);
    QuotedUnquoted(RunText(bits));
  }

  lemma DecodedDirect(cp: Scalar, t: string, q: bool)
    requires IsDirect(cp)
    ensures Decoded(Wire(DirectText(cp), q) + t) == Shown(cp as char, q) + Decoded(t)
  {
    var c := cp as char;
    if c == '&' {
      assert DirectText(cp) == "&-" && DirectText(cp)[1..] == "-" && "-"[1..] == "";
      assert Quoted("-") == "-";
      assert Quoted("&-") == "&-";
      assert ("&-" + t)[2..] == t;
    } else {
      assert [c][1..] == "";
      assert Quoted([c]) == QuotedChar(c);
      LiteralDecoded(c, t);
      if q && (c == '"' || c == '\\') {
        assert ['\\', c] + t == ['\\'] + ([c] + t);
        LiteralDecoded('\\', [c] + t);
        hide Decoded;
        assert ['\\'] + ([c] + Decoded(t)) == ['\\', c] + Decoded(t);
      }
    }
  }

  lemma LiteralDecoded(c: char, t: string)
    requires c != '&'
    ensures Decoded([c] + t) == [c] + Decoded(t)
  {
    assert ([c] + t)[1..] == t;
  }

  /** Decoding the text of a name gives what `Received` says, whatever comes after it. */
  lemma {:induction false} DecodedModified(cps: seq<Scalar>, t: string, q: bool)
    ensures Decoded(Wire(Modified(cps), q) + t) == Received(cps, 0, q) + Decoded(t)
    decreases |cps|
  {
    hide Decoded, Wire;
    if cps == [] {
      EmptyWire(q);
      assert "" + t == t && "" + Decoded(t) == Decoded(t);
    } else if IsDirect(cps[0]) {
      var rest := Wire(Modified(cps[1..]), q);
      DecodedModified(cps[1..], t, q);
      WireConcat(DirectText(cps[0]), Modified(cps[1..]), q);
      DecodedDirect(cps[0], rest + t, q);
      Associative(Wire(DirectText(cps[0]), q), rest, t);
      Associative(Shown(cps[0] as char, q), Received(cps[1..], 0, q), Decoded(t));
    } else {
      var rest := AfterUnits(cps);
      var text := "&" + RunText(UnitBits(RunUnits(cps)));
      DecodedModified(rest, t, q);
      WireRun(cps, q);
      DecodedRun(RunUnits(cps), Wire(Modified(rest), q) + t);
      ReceivedRun(cps, 0, q);
      Associative(text, Wire(Modified(rest), q), t);
      Associative(Characters(0, RunUnits(cps)), Received(rest, 0, q), Decoded(t));
      hide Characters;
    }
  }

  lemma EmptyWire(q: bool)
    ensures Wire("", q) == ""
  {
  }

  lemma WireRun(cps: seq<Scalar>, q: bool)
    requires cps != [] && !IsDirect(cps[0])
    ensures Wire(Modified(cps), q) == "&" + RunText(UnitBits(RunUnits(cps))) + Wire(Modified(AfterUnits(cps)), q)
  {
    var text := RunText(UnitBits(RunUnits(cps)));
    WireConcat("&" + text, Modified(AfterUnits(cps)), q);
    QuotedConcat("&", text);
    RunTextUnquoted(UnitBits(RunUnits(cps)));
    QuotedUnquoted("&");
  }

  lemma DecodedRun(units: seq<Unit>, t: string)
    requires units != []
    ensures Decoded("&" + RunText(UnitBits(units)) + t) == Characters(0, units) + Decoded(t)
  {
    var bits := UnitBits(units);
    var s := "&" + RunText(bits) + t;
    assert s[1..] == RunText(bits) + t;
    RunTextCons(bits, t);
    SextetCharBits(bits[..6]);
    RunTextBits(bits, t);
    BitsUnitsInverse(units, Padding(bits));
    assert SkipDash("-" + t) == t;
  }

  // ---------------------------------------------------------------- When decoding undoes encoding

  /** The code point, after `prev` (0 at the start of a name), comes back. From U+100000 on the
      encoder sends too little, and the decoder makes up for it in one case only. */
  predicate Survives(cp: Scalar, prev: nat, q: bool) {
    && (q ==> cp != 0x22 && cp != 0x5C)
    && (cp >= 0x10_0000 ==> 0x10DC00 <= cp <= 0x10DFFF && prev == 0xFDC00)
  }

  function Before(cps: seq<Scalar>, i: nat, prev: nat): nat
    requires i <= |cps|
  {
    if i == 0 then prev else cps[i - 1]
  }

  predicate SurviveFrom(cps: seq<Scalar>, prev: nat, q: bool) {
    forall i :: 0 <= i < |cps| ==> Survives(cps[i], Before(cps, i, prev), q)
  }

  predicate RoundTrips(cps: seq<Scalar>) {
    SurviveFrom(cps, 0, true)
  }

  lemma SurviveStep(cps: seq<Scalar>, prev: nat, q: bool)
    requires cps != []
    ensures SurviveFrom(cps, prev, q) <==> Survives(cps[0], prev, q) && SurviveFrom(cps[1..], cps[0], q)
  {
    var rest := cps[1..];
    forall i | 0 <= i < |rest|
      ensures rest[i] == cps[i + 1] && Before(rest, i, cps[0]) == Before(cps, i + 1, prev)
    {
    }
    if SurviveFrom(cps, prev, q) {
      assert Survives(cps[0], Before(cps, 0, prev), q);
    }
    if Survives(cps[0], prev, q) && SurviveFrom(rest, cps[0], q) {
      forall i | 0 <= i < |cps| ensures Survives(cps[i], Before(cps, i, prev), q) {
        if i > 0 {
          assert Survives(rest[i - 1], Before(rest, i - 1, cps[0]), q);
        }
      }
    }
  }

  // What the code units of one value give back

  lemma ReceivedHigh(v: nat, word: nat)
    requires IsHigh(v)
    ensures Characters(word, Utf16(v)) == "" && LastWord(word, Utf16(v)) == HighPart(v)
  {
    assert Utf16(v)[1..] == [];
  }

  lemma ReceivedLow(v: nat, word: nat)
    requires IsLow(v)
    ensures Characters(word, Utf16(v)) == WordUtf8(Combine(word, v)) && LastWord(word, Utf16(v)) == Combine(word, v)
  {
    ReceivedUnit(v, word);
  }

  lemma ReceivedUnit(v: Unit, word: nat)
    requires !IsHigh(v)
    ensures Characters(word, [v]) == WordUtf8(Combine(word, v)) && LastWord(word, [v]) == Combine(word, v)
  {
    var w := Combine(word, v);
    assert [v][1..] == [];
    assert Characters(w, []) == "";
    assert WordUtf8(w) + "" == WordUtf8(w);
  }

  lemma ReceivedPlain(v: nat, word: nat)
    requires v < 0x10_0000 && !IsHigh(v) && !IsLow(v)
    ensures Characters(word, Utf16(v)) == Utf8(v) && LastWord(word, Utf16(v)) == v
  {
    WordIsUtf8(v);
    if v < UTF16_BASE {
      ReceivedUnit(v, word);
    } else {
      PairArithmetic(v);
      var high, low := Utf16(v)[0], Utf16(v)[1];
      assert Utf16(v)[1..] == [low];
      ReceivedUnit(low, HighPart(high));
    }
  }

  lemma PairArithmetic(v: nat)
    requires UTF16_BASE <= v < 0x10_0000
    ensures var units := Utf16(v);
      IsHigh(units[0]) && IsLow(units[1]) && Combine(HighPart(units[0]), units[1]) == v
  {
  }

  lemma LargeLead(cp: nat)
    requires cp <= 0x10FFFF
    ensures cp >= 0x10_0000 <==> Utf8(cp)[0] == '\U{F4}'
    ensures cp >= 0x10_0000 ==> |Utf8(cp)| == 4
  {
  }

  /** Two words that fit in four octets are told apart by them. */
  lemma WordUtf8Injective(a: nat, b: nat)
    requires 0x10000 <= a < 0x40_0000 && 0x10000 <= b < 0x40_0000 && WordUtf8(a) == WordUtf8(b)
    ensures a == b
  {
    var x, y := WordUtf8(a), WordUtf8(b);
    assert x[0] as nat == y[0] as nat && x[1] as nat == y[1] as nat;
    assert x[2] as nat == y[2] as nat && x[3] as nat == y[3] as nat;
    WordDigits(a);
    WordDigits(b);
  }

  /** Two texts that may follow what is received and the name: none, or a backslash and a double quote */
  predicate Tails(x: string, y: string) {
    (x == "" && y == "") || (x == "\\" && y != "" && y[0] == '"')
  }

  /** Once the decoder owes code points from U+100000 on, it never catches up. */
  lemma {:induction false} Owing(owed: seq<Scalar>, cps: seq<Scalar>, word: nat, x: string, y: string, q: bool)
    requires owed != [] && (forall i :: 0 <= i < |owed| ==> owed[i] >= 0x10_0000) && Tails(x, y)
    ensures Received(cps, word, q) + x != Utf8All(owed + cps) + y
    decreases |cps|
  {
    if cps == [] || IsDirect(cps[0]) {
      OwingEnds(owed, cps, word, x, y, q);
    } else {
      hide Received, Utf8All, Characters, LastWord, Utf16, Combine;
      var cp, v := cps[0], Sent(cps[0]);
      var word' := LastWord(word, Utf16(v));
      if IsHigh(v) {
        assert (owed + [cp]) + cps[1..] == owed + cps;
        Owing(owed + [cp], cps[1..], word', x, y, q);
      } else if IsLow(v) {
        assert (owed[1..] + [cp]) + cps[1..] == owed[1..] + cps;
        Owing(owed[1..] + [cp], cps[1..], word', x, y, q);
      }
      OwingStep(owed, cps, word, x, y, q);
    }
  }

  lemma OwingEnds(owed: seq<Scalar>, cps: seq<Scalar>, word: nat, x: string, y: string, q: bool)
    requires owed != [] && owed[0] >= 0x10_0000 && Tails(x, y) && (cps == [] || IsDirect(cps[0]))
    ensures Received(cps, word, q) + x != Utf8All(owed + cps) + y
  {
    OwedFirst(owed, cps);
    assert (Utf8All(owed + cps) + y)[0] == '\U{F4}';
    hide Utf8All;
    if cps != [] {
      assert (Received(cps, word, q) + x)[0] == Shown(cps[0] as char, q)[0];
    }
  }

  lemma OwingStep(owed: seq<Scalar>, cps: seq<Scalar>, word: nat, x: string, y: string, q: bool)
    requires owed != [] && owed[0] >= 0x10_0000 && cps != [] && !IsDirect(cps[0])
    requires IsHigh(Sent(cps[0])) ==>
               Received(cps[1..], LastWord(word, Utf16(Sent(cps[0]))), q) + x != Utf8All(owed + cps) + y
    requires IsLow(Sent(cps[0])) ==>
               Received(cps[1..], LastWord(word, Utf16(Sent(cps[0]))), q) + x != Utf8All(owed[1..] + cps) + y
    ensures Received(cps, word, q) + x != Utf8All(owed + cps) + y
  {
    var v := Sent(cps[0]);
    var first, word' := Characters(word, Utf16(v)), LastWord(word, Utf16(v));
    var t := Received(cps[1..], word', q);
    assert Received(cps, word, q) == first + t;
    Associative(first, t, x);
    OwedFirst(owed, cps);
    Associative(Utf8(owed[0]), Utf8All(owed[1..] + cps), y);
    hide Received, Utf8All, Utf8;
    if IsHigh(v) {
      ReceivedHigh(v, word);
      assert first + (t + x) == t + x;
    } else if IsLow(v) {
      ReceivedLow(v, word);
      WordShape(word');
      StillOwing(first, t + x, Utf8(owed[0]), Utf8All(owed[1..] + cps) + y);
    } else {
      ReceivedPlain(v, word);
      OtherHead(v, t + x);
    }
  }

  lemma WordShape(word: nat)
    ensures 1 <= |WordUtf8(word)| <= 4 && (|WordUtf8(word)| < 4 ==> WordUtf8(word)[0] < '\U{F0}')
  {
  }

  lemma StillOwing(x: string, t: string, u: string, rest: string)
    requires 1 <= |x| <= 4 && (|x| < 4 ==> x[0] < '\U{F0}') && |u| == 4 && u[0] == '\U{F4}' && t != rest
    ensures x + t != u + rest
  {
    if x + t == u + rest {
      SameLead(x, t, u, rest);
    }
  }

  lemma OtherHead(v: nat, t: string)
    requires v < 0x10_0000
    ensures (Utf8(v) + t)[0] != '\U{F4}'
  {
    LargeLead(v);
    assert (Utf8(v) + t)[0] == Utf8(v)[0];
  }

  lemma OwedFirst(owed: seq<Scalar>, cps: seq<Scalar>)
    requires owed != [] && owed[0] >= 0x10_0000
    ensures var all := Utf8All(owed + cps);
      && all == Utf8(owed[0]) + Utf8All(owed[1..] + cps)
      && all != "" && all[0] == '\U{F4}' && Utf8(owed[0])[0] == '\U{F4}' && |Utf8(owed[0])| == 4
  {
    assert (owed + cps)[1..] == owed[1..] + cps;
    LargeLead(owed[0]);
  }

  /** Equal texts that start with four-octet forms have equal rests. */
  lemma SameLead(a: string, x: string, b: string, y: string)
    requires 1 <= |a| <= 4 && |b| == 4 && a + x == b + y && b[0] == '\U{F4}'
    requires |a| < 4 ==> a[0] < '\U{F0}'
    ensures a == b && x == y
  {
    assert a[0] == (a + x)[0] == (b + y)[0];
    assert a == (a + x)[..4] == (b + y)[..4] == b;
    assert x == (a + x)[4..] == (b + y)[4..] == y;
  }

  function Backslashes(n: nat): string {
    seq(n, _ => '\\')
  }

  /** A backslash comes back doubled, and the decoded text stays ahead from there on. */
  lemma {:induction false} Doubled(n: nat, cps: seq<Scalar>, word: nat, x: string, y: string)
    requires n > 0 && Tails(x, y)
    ensures Backslashes(n) + (Received(cps, word, true) + x) != Utf8All(cps) + y
    decreases |cps|
  {
    if cps == [] {
      assert Utf8All(cps) + y == y && "" + x == x;
      assert (Backslashes(n) + x)[0] == '\\';
    } else {
      var t, b := Received(cps[1..], 0, true) + x, Utf8All(cps[1..]) + y;
      assert (Backslashes(n) + (Received(cps, word, true) + x))[0] == '\\';
      Associative(Utf8(cps[0]), Utf8All(cps[1..]), y);
      if cps[0] == 0x5C {
        Doubled(n + 1, cps[1..], 0, x, y);
        Associative(QuotedChar('\\'), Received(cps[1..], 0, true), x);
        hide Received, Utf8All;
        assert Utf8(0x5C) == "\\";
        StillAhead(n, t, b);
      } else {
        assert (Utf8(cps[0]) + b)[0] == Utf8(cps[0])[0] != '\\';
      }
    }
  }

  lemma StillAhead(n: nat, t: string, b: string)
    requires n > 0 && Backslashes(n + 1) + t != b
    ensures Backslashes(n) + (QuotedChar('\\') + t) != "\\" + b
  {
    var a := Backslashes(n) + (QuotedChar('\\') + t);
    assert a[1..] == Backslashes(n + 1) + t && ("\\" + b)[1..] == b;
  }

  /** The name after `prev` comes back if and only if each of its code points does; and only then does
      it agree with the name on what follows. */
  lemma {:induction false} ReceivedExactly(cps: seq<Scalar>, word: nat, prev: nat, x: string, y: string, q: bool)
    requires word <= 0x10FFFF && (word == 0xFDC00 <==> prev == 0xFDC00) && Tails(x, y)
    ensures Received(cps, word, q) + x == Utf8All(cps) + y <==> SurviveFrom(cps, prev, q) && x == y
    decreases |cps|
  {
    if cps == [] {
      assert "" + x == x && "" + y == y;
    } else {
      var cp, rest := cps[0], cps[1..];
      SurviveStep(cps, prev, q);
      if IsDirect(cp) {
        ReceivedExactly(rest, 0, cp, x, y, q);
        ReceivedDirect(cps, word, x, y, q);
      } else {
        ReceivedExactly(rest, cp, cp, x, y, q);
        ReceivedOther(cps, word, prev, x, y, q);
      }
    }
  }

  lemma ReceivedDirect(cps: seq<Scalar>, word: nat, x: string, y: string, q: bool)
    requires cps != [] && IsDirect(cps[0]) && Tails(x, y)
    ensures Received(cps, word, q) + x == Utf8All(cps) + y <==>
            (q ==> cps[0] != 0x22 && cps[0] != 0x5C) && Received(cps[1..], 0, q) + x == Utf8All(cps[1..]) + y
  {
    var cp, a, b := cps[0], Received(cps[1..], 0, q), Utf8All(cps[1..]);
    assert Received(cps, word, q) == Shown(cp as char, q) + a && Utf8All(cps) == [cp as char] + b;
    Associative(Shown(cp as char, q), a, x);
    Associative([cp as char], b, y);
    if q && cp == 0x5C {
      Doubled(1, cps[1..], 0, x, y);
      BackslashAhead(a + x, b + y);
    } else if q && cp == 0x22 {
      assert (QuotedChar(cp as char) + (a + x))[0] == '\\' && ([cp as char] + (b + y))[0] == '"';
    } else {
      SamePrefix([cp as char], a + x, b + y);
    }
  }

  lemma BackslashAhead(a: string, b: string)
    requires Backslashes(1) + a != b
    ensures QuotedChar('\\') + a != ['\\'] + b
  {
    assert QuotedChar('\\') + a == ['\\'] + (Backslashes(1) + a);
    SamePrefix(['\\'], Backslashes(1) + a, b);
  }

  lemma SamePrefix(p: string, a: string, b: string)
    ensures p + a == p + b <==> a == b
  {
    assert (p + a)[|p|..] == a && (p + b)[|p|..] == b;
  }

  lemma ReceivedOther(cps: seq<Scalar>, word: nat, prev: nat, x: string, y: string, q: bool)
    requires cps != [] && !IsDirect(cps[0]) && Tails(x, y)
    requires word <= 0x10FFFF && (word == 0xFDC00 <==> prev == 0xFDC00)
    ensures Received(cps, word, q) + x == Utf8All(cps) + y <==>
            Survives(cps[0], prev, q) && Received(cps[1..], cps[0], q) + x == Utf8All(cps[1..]) + y
  {
    var cp, rest, v := cps[0], cps[1..], Sent(cps[0]);
    var first, word' := Characters(word, Utf16(v)), LastWord(word, Utf16(v));
    SurvivesMeans(cp, word, prev, q);
    assert Received(cps, word, q) == first + Received(rest, word', q) && Utf8All(cps) == Utf8(cp) + Utf8All(rest);
    Associative(first, Received(rest, word', q), x);
    Associative(Utf8(cp), Utf8All(rest), y);
    hide Received, Utf8All, Utf8, Tails;
    if Intact(cp, word) {
      ReceivedIntact(cp, word);
      SamePrefix(Utf8(cp), Received(rest, cp, q) + x, Utf8All(rest) + y);
    } else if IsHigh(v) {
      OwingNow(cps, word, x, y, q);
    } else {
      Mismatch(cp, Utf8All(rest) + y, word, Received(rest, word', q) + x);
    }
  }

  /** The decoder holds exactly the code point in the end. */
  predicate Intact(cp: Scalar, word: nat) {
    cp < 0x10_0000 || (IsLow(Sent(cp)) && Combine(word, Sent(cp)) == cp)
  }

  lemma SurvivesMeans(cp: Scalar, word: nat, prev: nat, q: bool)
    requires !IsDirect(cp) && word <= 0x10FFFF && (word == 0xFDC00 <==> prev == 0xFDC00)
    ensures Survives(cp, prev, q) <==> Intact(cp, word)
  {
  }

  lemma OwingNow(cps: seq<Scalar>, word: nat, x: string, y: string, q: bool)
    requires cps != [] && cps[0] >= 0x10_0000 && IsHigh(Sent(cps[0])) && Tails(x, y)
    ensures Received(cps, word, q) + x != Utf8All(cps) + y
  {
    var t := Received(cps[1..], HighPart(Sent(cps[0])), q);
    ReceivedHigh(Sent(cps[0]), word);
    Owing([cps[0]], cps[1..], HighPart(Sent(cps[0])), x, y, q);
    assert [cps[0]] + cps[1..] == cps;
    assert "" + t == t;
  }

  lemma ReceivedIntact(cp: Scalar, word: nat)
    requires Intact(cp, word)
    ensures Characters(word, Utf16(Sent(cp))) == Utf8(cp) && LastWord(word, Utf16(Sent(cp))) == cp
  {
    if cp < 0x10_0000 {
      SentBelow(cp);
      ReceivedPlain(cp, word);
    } else {
      ReceivedLow(Sent(cp), word);
      WordIsUtf8(cp);
    }
  }

  lemma SentBelow(cp: Scalar)
    requires cp < 0x10_0000
    ensures Sent(cp) == cp
  {
  }

  lemma WordIsUtf8(cp: nat)
    requires cp <= 0x10FFFF
    ensures WordUtf8(cp) == Utf8(cp)
  {
  }

  /** A code point from U+100000 on that is sent as another character is received as another one. */
  lemma Mismatch(cp: Scalar, rest: string, word: nat, t: string)
    requires cp >= 0x10_0000 && !IsHigh(Sent(cp)) && word <= 0x10FFFF
    requires IsLow(Sent(cp)) ==> Combine(word, Sent(cp)) != cp
    ensures Characters(word, Utf16(Sent(cp))) + t != Utf8(cp) + rest
  {
    hide Characters, Utf8, Utf16, Combine, WordUtf8;
    if IsLow(Sent(cp)) {
      MismatchLow(Sent(cp), word, t, cp, rest);
    } else {
      MismatchPlain(Sent(cp), word, t, cp, rest);
    }
  }

  lemma MismatchPlain(v: nat, word: nat, t: string, cp: Scalar, rest: string)
    requires cp >= 0x10_0000 && v < 0x10_0000 && !IsHigh(v) && !IsLow(v)
    ensures Characters(word, Utf16(v)) + t != Utf8(cp) + rest
  {
    LargeLead(cp);
    ReceivedPlain(v, word);
    OtherHead(v, t);
    hide Characters, Utf8, Utf16;
    assert (Utf8(cp) + rest)[0] == '\U{F4}';
  }

  lemma MismatchLow(v: nat, word: nat, t: string, cp: Scalar, rest: string)
    requires cp >= 0x10_0000 && IsLow(v) && word <= 0x10FFFF && Combine(word, v) != cp
    ensures Characters(word, Utf16(v)) + t != Utf8(cp) + rest
  {
    ReceivedLow(v, word);
    CombineBounds(word, v);
    hide Characters, Utf16, Combine;
    MismatchWord(Combine(word, v), t, cp, rest);
  }

  lemma CombineBounds(word: nat, v: nat)
    requires word <= 0x10FFFF && IsLow(v)
    ensures 0x10000 <= Combine(word, v) < 0x40_0000
  {
  }

  lemma MismatchWord(word: nat, t: string, cp: Scalar, rest: string)
    requires cp >= 0x10_0000 && 0x10000 <= word < 0x40_0000 && word != cp
    ensures WordUtf8(word) + t != Utf8(cp) + rest
  {
    LargeLead(cp);
    WordShape(word);
    WordIsUtf8(cp);
    hide Utf8, WordUtf8;
    if WordUtf8(word) + t == Utf8(cp) + rest {
      SameLead(WordUtf8(word), t, Utf8(cp), rest);
      WordUtf8Injective(word, cp);
    }
  }

  /** Decoding undoes encoding and quoting on exactly the names that `RoundTrips` admits: every name below
      U+100000 without double quote and backslash, and a few names above. */
  lemma RoundTripExactly(cps: seq<Scalar>)
    ensures Decoded(Quoted(Encoded(Utf8All(cps)))) == Utf8All(cps) <==> RoundTrips(cps)
  {
    DecodedExactly(cps, true);
  }

  /** Without the backslashes of quoting, quotes and backslashes come back too. */
  lemma UnquotedRoundTrip(cps: seq<Scalar>)
    ensures Decoded(Encoded(Utf8All(cps))) == Utf8All(cps) <==> SurviveFrom(cps, 0, false)
  {
    DecodedExactly(cps, false);
  }

  lemma DecodedExactly(cps: seq<Scalar>, q: bool)
    ensures Decoded(Wire(Encoded(Utf8All(cps)), q)) == Utf8All(cps) <==> SurviveFrom(cps, 0, q)
  {
    EncodedIsModified(cps);
    DecodedModified(cps, "", q);
    ReceivedExactly(cps, 0, 0, "", "", q);
    assert Decoded("") == "";
    assert Wire(Modified(cps), q) + "" == Wire(Modified(cps), q);
    assert Received(cps, 0, q) + "" == Received(cps, 0, q) && Utf8All(cps) + "" == Utf8All(cps);
  }

  lemma RoundTripBelow(cps: seq<Scalar>)
    requires forall i :: 0 <= i < |cps| ==> cps[i] < 0x10_0000 && cps[i] != 0x22 && cps[i] != 0x5C
    ensures Decoded(Quoted(Encoded(Utf8All(cps)))) == Utf8All(cps)
  {
    RoundTripExactly(cps);
  }

  /** A small e with an acute accent, as a server sends it */
  lemma DecodedAcute()
    ensures Decoded("&AOk-") == ['\U{C3}', '\U{A9}']
  {
    var cps: seq<Scalar> := [0xE9];
    EncodedAcute();
    RoundTripBelow(cps);
    QuotedUnquoted("&AOk-");
    assert Utf8All(cps[1..]) == "" && Utf8(0xE9) == ['\U{C3}', '\U{A9}'];
  }
}
