/** What the stream parser makes of a quoted string: where it ends, and how its backslashes are removed. */
module QuotedStrings {
  import opened Decimals
  import opened FolderNameCodec

  // ---------------------------------------------------------------- Removing backslashes

  /** The text contains the two characters next to each other. */
  predicate HasPair(s: string, a: char, b: char) {
    |s| >= 2 && ((s[0] == a && s[1] == b) || HasPair(s[1..], a, b))
  }

  /** One pass from the left that replaces every pair of a backslash and `c` by `c` */
  function Replaced(s: string, c: char): (r: string)
    ensures |r| <= |s| && (HasPair(s, '\\', c) ==> |r| < |s|)
  {
    if |s| < 2 then s
    else if s[0] == '\\' && s[1] == c then [c] + Replaced(s[2..], c)
    else [s[0]] + Replaced(s[1..], c)
  }

  predicate Starts(s: string, c: char) {
    s != "" && s[0] == c
  }

  /** The text without the backslashes that lead up to a `c` */
  function Stripped(s: string, c: char): (r: string)
    ensures |r| <= |s|
  {
    if s == "" then ""
    else
      var rest := Stripped(s[1..], c);
      if s[0] == '\\' && Starts(rest, c) then rest else [s[0]] + rest
  }

  lemma {:induction false} StrippedReplaced(s: string, c: char)
    ensures Stripped(Replaced(s, c), c) == Stripped(s, c)
  {
    if |s| >= 2 {
      if s[0] == '\\' && s[1] == c {
        StrippedReplaced(s[2..], c);
        var t := Replaced(s[2..], c);
        assert ([c] + t)[1..] == t && s[1..][1..] == s[2..];
        assert Stripped([c] + t, c) == Stripped(s[1..], c);
      } else {
        StrippedReplaced(s[1..], c);
        var t := Replaced(s[1..], c);
        assert ([s[0]] + t)[1..] == t;
      }
    }
  }

  lemma {:induction false} StrippedExactly(s: string, c: char)
    ensures |Stripped(s, c)| == |s| <==> Stripped(s, c) == s
    ensures Stripped(s, c) == s <==> !HasPair(s, '\\', c)
    ensures s != "" ==> Stripped(s, c) != "" && (Starts(Stripped(s, c), c) <== Starts(s, c))
  {
    if s != "" {
      StrippedExactly(s[1..], c);
      assert [s[0]] + s[1..] == s;
      if |s| >= 2 && s[0] == '\\' && !Starts(s[1..], c) && Starts(Stripped(s[1..], c), c) {
        assert Stripped(s[1..], c) != s[1..];
      }
    }
  }

  function Unescaped(s: string): string {
    Stripped(Stripped(s, '"'), '\\')
  }

  lemma {:induction false} StrippedWithout(s: string, c: char)
    requires '\\' !in s
    ensures Stripped(s, c) == s
  {
    if s != "" {
      StrippedWithout(s[1..], c);
    }
  }

  /** Replaces until no pair is left; every pass shortens the text. */
  method ReplaceAll(s: string, c: char) returns (result: string)
    ensures result == Stripped(s, c)
  {
    result := s;
    while HasPair(result, '\\', c)
      invariant Stripped(result, c) == Stripped(s, c)
      decreases |result|
    {
      StrippedReplaced(result, c);
      result := Replaced(result, c);
    }
    StrippedExactly(result, c);
  }

  method Unescape(s: string, foundSlash: bool) returns (result: string)
    requires '\\' in s ==> foundSlash
    ensures result == Unescaped(s)
  {
    result := s;
    if foundSlash {
      result := ReplaceAll(result, '"');
      result := ReplaceAll(result, '\\');
    } else {
      StrippedWithout(s, '"');
      StrippedWithout(s, '\\');
    }
  }

  // ---------------------------------------------------------------- Quoting and reading back

  /** Where the quoted string ends whose text starts here: at the first quote without a backslash
      before it, when backslashes are taken in pairs with what follows them */
  function CloseQuote(s: string): (end: Option<nat>)
    ensures end.Some? ==> end.value < |s| && s[end.value] == '"'
  {
    if s == "" then None
    else if s[0] == '\\' then if |s| < 2 then None else Later(CloseQuote(s[2..]), 2)
    else if s[0] == '"' then Some(0)
    else Later(CloseQuote(s[1..]), 1)
  }

  function Later(end: Option<nat>, n: nat): Option<nat> {
    match end case Some(e) => Some(e + n) case None => None
  }

  lemma PastQuotedChar(c: char, tail: string)
    ensures CloseQuote(QuotedChar(c) + tail) == Later(CloseQuote(tail), |QuotedChar(c)|)
  {
    var all := QuotedChar(c) + tail;
    assert all[|QuotedChar(c)|..] == tail;
  }

  /** A quoted string ends right where quoting ended it, whatever it contains. */
  lemma {:induction false} QuotedCloses(s: string, rest: string)
    ensures CloseQuote(Quoted(s) + "\"" + rest) == Some(|Quoted(s)|)
  {
    if s == "" {
      assert "" + "\"" + rest == "\"" + rest;
    } else {
      QuotedCloses(s[1..], rest);
      Regrouped(QuotedChar(s[0]), Quoted(s[1..]), rest);
      hide CloseQuote;
      PastQuotedChar(s[0], Quoted(s[1..]) + "\"" + rest);
    }
  }

  lemma Regrouped(a: string, b: string, rest: string)
    ensures (a + b) + "\"" + rest == a + (b + "\"" + rest)
  {
  }

  /** Quoting is invisible to the removal of backslashes. */
  lemma {:induction false} UnescapedQuoted(s: string)
    ensures Starts(Stripped(Quoted(s), '"'), '"') <==> Starts(Stripped(s, '"'), '"')
    ensures Unescaped(Quoted(s)) == Unescaped(s)
  {
    if s != "" {
      UnescapedQuoted(s[1..]);
      var q, t := Quoted(s[1..]), Stripped(s[1..], '"');
      var u := Stripped(q, '"');
      QuotedCharStripped(s[0], q);
      StrippedHead(u);
      StrippedHead(t);
      if s[0] == '\\' && !Starts(t, '"') {
        StrippedTwice(u);
      }
    }
  }

  lemma QuotedCharStripped(c: char, q: string)
    ensures var u := Stripped(q, '"');
            Stripped(QuotedChar(c) + q, '"') ==
              if c == '\\' then if Starts(u, '"') then u else "\\\\" + u
              else [c] + u
  {
    var u := Stripped(q, '"');
    if c == '\\' {
      assert (['\\', c] + q)[1..] == ['\\'] + q && (['\\'] + q)[1..] == q;
      assert "\\" + ("\\" + u) == "\\\\" + u;
    } else if c == '"' {
      assert (['\\', c] + q)[1..] == [c] + q && ([c] + q)[1..] == q;
    } else {
      assert ([c] + q)[1..] == q;
    }
  }

  lemma StrippedHead(u: string)
    ensures forall c :: Stripped([c] + u, '\\')
              == var rest := Stripped(u, '\\'); if c == '\\' && Starts(rest, '\\') then rest else [c] + rest
  {
    forall c
      ensures ([c] + u)[1..] == u
    {
    }
  }

  lemma StrippedTwice(u: string)
    ensures Stripped("\\\\" + u, '\\') == Stripped("\\" + u, '\\')
  {
    assert ("\\\\" + u)[1..] == "\\" + u;
    StrippedHead(u);
  }

  /** A quoted value comes back if and only if it has no backslash before a backslash or a quote. */
  lemma QuotedReadBackExactly(s: string)
    ensures Unescaped(Quoted(s)) == s <==> !HasPair(s, '\\', '\\') && !HasPair(s, '\\', '"')
  {
    UnescapedQuoted(s);
    StrippedExactly(s, '"');
    StrippedExactly(Stripped(s, '"'), '\\');
    StrippedExactly(s, '\\');
  }

  // ---------------------------------------------------------------- A value between quotes as it is

  /** Fit to stand between quotes without any backslash added: no quote, no two backslashes together,
      and none at the end */
  predicate Intact(v: string) {
    '"' !in v && !HasPair(v, '\\', '\\') && (v != "" ==> v[|v| - 1] != '\\')
  }

  lemma IntactStep(v: string)
    requires v != ""
    ensures Intact(v) <==>
      if v[0] == '"' then false
      else if v[0] == '\\' then |v| > 1 && v[1] != '"' && v[1] != '\\' && Intact(v[2..])
      else Intact(v[1..])
  {
    QuoteFirst(v);
    if |v| > 1 {
      QuoteFirst(v[1..]);
      assert v[1..][1..] == v[2..] && v[1..][|v| - 2] == v[|v| - 1];
      assert |v| > 2 ==> v[2..][|v| - 3] == v[|v| - 1];
      assert HasPair(v, '\\', '\\') <==> (v[0] == '\\' && v[1] == '\\') || HasPair(v[1..], '\\', '\\');
    }
  }

  lemma QuoteFirst(v: string)
    requires v != ""
    ensures '"' in v <==> v[0] == '"' || '"' in v[1..]
  {
    assert v == [v[0]] + v[1..];
  }

  /** What is read between the quotes, when the first of them stands right before this text */
  function Inner(s: string): Option<string> {
    match CloseQuote(s) case Some(end) => Some(Unescaped(s[..end])) case None => None
  }

  lemma InnerPlain(c: char, t: string)
    requires c != '"' && c != '\\'
    ensures Inner([c] + t) == Prefixed([c], Inner(t))
  {
    var s := [c] + t;
    assert s[1..] == t;
    match CloseQuote(t) {
      case Some(end) =>
        assert s[..end + 1] == [c] + t[..end];
        UnescapedPlain(c, t[..end]);
      case None =>
    }
  }

  function Prefixed(a: string, b: Option<string>): Option<string> {
    match b case Some(t) => Some(a + t) case None => None
  }

  lemma UnescapedPlain(c: char, t: string)
    requires c != '"' && c != '\\'
    ensures Unescaped([c] + t) == [c] + Unescaped(t)
  {
    var u := Stripped(t, '"');
    assert ([c] + t)[1..] == t && ([c] + u)[1..] == u;
  }

  lemma InnerEscape(c: char, t: string)
    requires c != '"' && c != '\\'
    ensures Inner("\\" + ([c] + t)) == Prefixed("\\" + [c], Inner(t))
  {
    var s := "\\" + ([c] + t);
    assert s[2..] == t;
    match CloseQuote(t) {
      case Some(end) =>
        assert s[..end + 2] == "\\" + ([c] + t[..end]);
        UnescapedEscape(c, t[..end]);
        assert "\\" + ([c] + Unescaped(t[..end])) == ("\\" + [c]) + Unescaped(t[..end]);
      case None =>
    }
  }

  lemma UnescapedEscape(c: char, t: string)
    requires c != '"' && c != '\\'
    ensures Unescaped("\\" + ([c] + t)) == "\\" + ([c] + Unescaped(t))
  {
    StrippedPast(c, t, '"');
    StrippedPast(c, Stripped(t, '"'), '\\');
  }

  lemma StrippedPast(c: char, t: string, d: char)
    requires c != d && c != '\\'
    ensures Stripped("\\" + ([c] + t), d) == "\\" + ([c] + Stripped(t, d))
  {
    assert ([c] + t)[1..] == t && ("\\" + ([c] + t))[1..] == [c] + t;
    assert Stripped([c] + t, d) == [c] + Stripped(t, d);
  }

  /** No text that starts with `x`, and goes on with a bracket if it goes on, is `v`. */
  predicate Apart(x: string, v: string) {
    exists j :: 0 <= j < |v| && DiffersAt(x, v, j)
  }

  predicate DiffersAt(x: string, v: string, j: nat)
    requires j < |v|
  {
    if j < |x| then x[j] != v[j] else j == |x| && v[j] != '[' && v[j] != ']'
  }

  lemma ApartPrefixed(a: string, x: string, v: string)
    requires Apart(x, v)
    ensures Apart(a + x, a + v)
  {
    var j :| 0 <= j < |v| && DiffersAt(x, v, j);
    assert DiffersAt(a + x, a + v, |a| + j);
  }

  /** A backslash that takes a quote or a backslash along is lost, or the one after it is. */
  lemma BadEscape(c: char, t: string, v: string)
    requires (c == '"' || c == '\\') && Starts(v, '\\') && (if |v| > 1 then v[1] == c else c == '"')
    ensures Inner("\\" + ([c] + t)).Some? ==> Apart(Inner("\\" + ([c] + t)).value, v)
  {
    var s := "\\" + ([c] + t);
    assert s[2..] == t;
    if CloseQuote(t).Some? {
      var end := CloseQuote(t).value;
      var raw := t[..end];
      assert s[..end + 2] == "\\" + ([c] + raw);
      var x := Unescaped("\\" + ([c] + raw));
      EscapeStripped(c, raw);
      if x[0] != '\\' {
        assert DiffersAt(x, v, 0);
      } else {
        assert DiffersAt(x, v, 1);
      }
    }
  }

  lemma EscapeStripped(c: char, raw: string)
    requires c == '"' || c == '\\'
    ensures var x := Unescaped("\\" + ([c] + raw));
            x != "" && (x[0] == '"' || (c == '\\' && x[0] == '\\' && (|x| > 1 ==> x[1] != '\\')))
  {
    var u := Stripped(raw, '"');
    EscapeFirst(c, raw);
    hide Stripped;
    if c == '"' {
      QuoteStays(u);
    } else if Starts(u, '"') {
      assert u == ['"'] + u[1..];
      QuoteStays(u[1..]);
    } else {
      StrippedTwice(u);
      OneStays(u);
    }
  }

  lemma EscapeFirst(c: char, raw: string)
    requires c == '"' || c == '\\'
    ensures var u := Stripped(raw, '"');
            Stripped("\\" + ([c] + raw), '"')
            == if c == '"' then [c] + u else if Starts(u, '"') then u else "\\\\" + u
  {
    var u := Stripped(raw, '"');
    assert ([c] + raw)[1..] == raw && ("\\" + ([c] + raw))[1..] == [c] + raw;
    assert "\\" + ("\\" + u) == "\\\\" + u;
  }

  lemma QuoteStays(u: string)
    ensures Starts(Stripped(['"'] + u, '\\'), '"')
  {
  }

  lemma OneStays(u: string)
    ensures var x := Stripped("\\" + u, '\\'); Starts(x, '\\') && (|x| > 1 ==> x[1] != '\\')
    decreases |u|
  {
    assert ("\\" + u)[1..] == u;
    if Starts(Stripped(u, '\\'), '\\') {
      assert Starts(u, '\\') && u == "\\" + u[1..];
      OneStays(u[1..]);
    }
  }

  /** A value that stands between quotes as it is comes back if and only if it is intact; otherwise
      what is read is no prefix that could still grow into it. */
  lemma {:induction false} RawReadBack(v: string, tail: string)
    ensures Intact(v) ==> CloseQuote(v + ("\"" + tail)) == Some(|v|) && Inner(v + ("\"" + tail)) == Some(v)
    ensures !Intact(v) && Inner(v + ("\"" + tail)).Some? ==> Apart(Inner(v + ("\"" + tail)).value, v)
    decreases |v|
  {
    var end := "\"" + tail;
    var s := v + end;
    if v == "" {
      assert s == end && end[..0] == "";
    } else {
      IntactStep(v);
      hide Intact, Apart, Inner, CloseQuote;
      if v[0] == '"' {
        RawQuote(v, tail);
      } else if v[0] != '\\' {
        RawReadBack(v[1..], tail);
        RawPlain(v, tail);
      } else if |v| > 1 && v[1] != '"' && v[1] != '\\' {
        RawReadBack(v[2..], tail);
        RawEscape(v, tail);
      } else if |v| > 1 {
        assert s == "\\" + ([v[1]] + (v[2..] + end));
        BadEscape(v[1], v[2..] + end, v);
      } else {
        assert s == "\\" + (['"'] + tail);
        BadEscape('"', tail, v);
      }
    }
  }

  lemma RawQuote(v: string, tail: string)
    requires Starts(v, '"')
    ensures Inner(v + ("\"" + tail)).Some? ==> Apart(Inner(v + ("\"" + tail)).value, v)
  {
    var s := v + ("\"" + tail);
    assert s[0] == '"' && s[..0] == "" && Unescaped("") == "";
    assert DiffersAt("", v, 0);
  }

  lemma RawPlain(v: string, tail: string)
    requires v != "" && v[0] != '"' && v[0] != '\\'
    ensures var s, t := v + ("\"" + tail), v[1..] + ("\"" + tail);
            && CloseQuote(s) == Later(CloseQuote(t), 1)
            && Inner(s) == Prefixed([v[0]], Inner(t))
            && (Inner(t) == Some(v[1..]) ==> Inner(s) == Some(v))
            && (Inner(t).Some? && Apart(Inner(t).value, v[1..]) ==> Apart(Inner(s).value, v))
  {
    var s, t := v + ("\"" + tail), v[1..] + ("\"" + tail);
    assert s == [v[0]] + t && s[1..] == t && [v[0]] + v[1..] == v;
    InnerPlain(v[0], t);
    if Inner(t).Some? && Apart(Inner(t).value, v[1..]) {
      ApartPrefixed([v[0]], Inner(t).value, v[1..]);
    }
  }

  lemma RawEscape(v: string, tail: string)
    requires |v| > 1 && v[0] == '\\' && v[1] != '"' && v[1] != '\\'
    ensures var s, t := v + ("\"" + tail), v[2..] + ("\"" + tail);
            && CloseQuote(s) == Later(CloseQuote(t), 2)
            && Inner(s) == Prefixed(v[..2], Inner(t))
            && (Inner(t) == Some(v[2..]) ==> Inner(s) == Some(v))
            && (Inner(t).Some? && Apart(Inner(t).value, v[2..]) ==> Apart(Inner(s).value, v))
  {
    var s, t := v + ("\"" + tail), v[2..] + ("\"" + tail);
    assert s == "\\" + ([v[1]] + t) && s[2..] == t && v[..2] == "\\" + [v[1]] && v[..2] + v[2..] == v;
    InnerEscape(v[1], t);
    if Inner(t).Some? && Apart(Inner(t).value, v[2..]) {
      ApartPrefixed(v[..2], Inner(t).value, v[2..]);
    }
  }
}
