/** A list that has not come completely is never taken for a shorter one: its reader raises. */
module CutOff {
  import opened Decimals
  import opened QuotedStrings
  import opened StreamText

  /** More text does not change what was already found. */
  lemma {:induction false} CloseStable(p: string, more: string)
    ensures CloseQuote(p).Some? ==> CloseQuote(p + more) == CloseQuote(p)
    decreases |p|
  {
    var s := p + more;
    if p == "" {
    } else if p[0] == '\\' {
      if |p| >= 2 {
        assert s[2..] == p[2..] + more;
        CloseStable(p[2..], more);
      }
    } else if p[0] != '"' {
      assert s[1..] == p[1..] + more;
      CloseStable(p[1..], more);
    }
  }

  lemma {:induction false} AtomStable(p: string, more: string)
    ensures AtomEnd(p).Some? ==> AtomEnd(p + more) == AtomEnd(p)
  {
    if p != "" && !EndsAtom(p[0]) {
      assert (p + more)[1..] == p[1..] + more;
      AtomStable(p[1..], more);
    }
  }

  lemma {:induction false} IndexStable(p: string, c: char, more: string)
    ensures IndexOf(p, c).Some? ==> IndexOf(p + more, c) == IndexOf(p, c)
  {
    if p != "" && p[0] != c {
      assert (p + more)[1..] == p[1..] + more;
      IndexStable(p[1..], c, more);
    }
  }

  lemma {:induction false} SpacesStable(p: string, more: string)
    requires SkipSpaces(p) != ""
    ensures SkipSpaces(p + more) == SkipSpaces(p) + more
  {
    if Starts(p, ' ') {
      assert (p + more)[1..] == p[1..] + more;
      SpacesStable(p[1..], more);
    }
  }

  /** The reading of a cut text is that of the whole one, with less text after it, or it raises. */
  ghost predicate Stable<T>(part: Read<T>, whole: Read<T>, more: string) {
    match part
    case Ok(value, rest) => whole == Ok(value, rest + more)
    case Raises => true
    case Undefined => whole == Undefined
  }

  lemma HeaderStable(p: string, more: string)
    requires Starts(p, '{')
    ensures Stable(Header(p), Header(p + more), more)
  {
    var s := p + more;
    IndexStable(p, '}', more);
    if IndexOf(p, '}').Some? && |p| >= IndexOf(p, '}').value + 3 {
      var end := IndexOf(p, '}').value;
      var after := p[end + 1..];
      assert s[1..end] == p[1..end] && s[end + 1..] == after + more && |after| >= 2;
      BreakStable(after, more);
      hide IndexOf, ToInt, Dropped;
    }
  }

  lemma BreakStable(p: string, more: string)
    requires |p| >= 2
    ensures Dropped(Dropped(p + more, '\r'), '\n') == Dropped(Dropped(p, '\r'), '\n') + more
  {
    assert (p + more)[1..] == p[1..] + more;
    assert (p + more)[2..] == p[2..] + more;
  }

  lemma LiteralHeaderStable(p: string, more: string)
    requires p != "" && p[0] != ' '
    ensures Stable(LiteralHeader(p), LiteralHeader(p + more), more)
  {
    var s := p + more;
    assert SkipSpaces(p) == p && SkipSpaces(s) == s;
    if !(p == "~") {
      var u := Dropped(p, '~');
      assert Dropped(s, '~') == u + more;
      if Starts(u, '{') {
        HeaderStable(u, more);
      }
      hide Header;
    }
  }

  lemma LiteralTextStable(size: int, p: string, more: string)
    ensures Stable(LiteralText(size, p), LiteralText(size, p + more), more)
  {
    if 0 <= size <= |p| {
      assert (p + more)[..size] == p[..size] && (p + more)[size..] == p[size..] + more;
    }
  }

  lemma QuotedOrAtomStable(p: string, more: string)
    requires p != "" && p[0] != ' '
    ensures Stable(QuotedOrAtom(p), QuotedOrAtom(p + more), more)
  {
    var s := p + more;
    assert SkipSpaces(p) == p && SkipSpaces(s) == s;
    if p[0] == '"' {
      CloseStable(p[1..], more);
      assert s[1..] == p[1..] + more;
      if CloseQuote(p[1..]).Some? {
        var end := CloseQuote(p[1..]).value;
        assert s[1..][..end] == p[1..][..end] && s[1..][end + 1..] == p[1..][end + 1..] + more;
      }
    } else {
      AtomStable(p, more);
      if AtomEnd(p).Some? {
        var end := AtomEnd(p).value;
        assert s[..end] == p[..end] && s[end..] == p[end..] + more;
      }
    }
    hide CloseQuote, AtomEnd, Unescaped;
  }

  lemma StringStable(p: string, more: string)
    requires p != "" && p[0] != ' '
    ensures Stable(String(p), String(p + more), more)
  {
    var s := p + more;
    assert SkipSpaces(p) == p && SkipSpaces(s) == s;
    LiteralHeaderStable(p, more);
    QuotedOrAtomStable(p, more);
    hide LiteralHeader, QuotedOrAtom, LiteralText, SkipSpaces;
    match LiteralHeader(p)
    case Ok(Some(size), rest) => LiteralTextStable(size, rest, more);
    case _ =>
  }

  lemma {:induction false} BreaksStable(p: string, more: string)
    ensures SkipLineBreaks(p) == "" || SkipLineBreaks(p + more) == SkipLineBreaks(p) + more
  {
    if Starts(p, '\r') || Starts(p, '\n') {
      assert (p + more)[1..] == p[1..] + more;
      BreaksStable(p[1..], more);
    }
  }

  /** The reader of the items raises on every text that is cut off inside the list. */
  lemma {:induction false} ItemsCut(p: string, more: string, items: seq<string>, depth: nat, sub: string, open: bool)
    requires open ==> items != []
    ensures Stable(Items(p, items, depth, sub, open), Items(p + more, items, depth, sub, open), more)
    decreases |p|
  {
    if p != "" {
      var s, c, t := p + more, p[0], p[1..];
      assert s[0] == c && s[1..] == t + more;
      if c == '(' {
        ItemsCut(t, more, items, depth + 1, sub + [c], open);
      } else if c == ')' {
        if depth == 1 {
          ItemsCut(t, more, items + [sub + [c]], 0, "", open);
        } else if depth > 1 {
          ItemsCut(t, more, items, depth - 1, sub + [c], open);
        }
      } else if c == ' ' {
        ItemsCut(t, more, items, depth, Grown(depth, sub, [c]), open);
      } else if c == '"' && depth > 0 {
        QuoteCut(p, more, items, depth, sub, open);
      } else if c == '[' {
        ItemsCut(t, more, Extended(if items == [] then [""] else items, [c]), depth, Grown(depth, sub, [c]), true);
      } else if c == ']' {
        if items != [] {
          ItemsCut(t, more, Extended(items, [c]), depth, Grown(depth, sub, [c]), false);
        }
      } else if depth > 0 {
        ItemsCut(t, more, items, depth, sub + [c], open);
      } else {
        StringCut(p, more, items, open);
      }
    }
  }

  lemma {:induction false} QuoteCut(p: string, more: string, items: seq<string>, depth: nat, sub: string, open: bool)
    requires (open ==> items != []) && Starts(p, '"') && depth > 0
    ensures Stable(Items(p, items, depth, sub, open), Items(p + more, items, depth, sub, open), more)
    decreases |p|, 0
  {
    var s, t := p + more, p[1..];
    assert s[0] == '"' && s[1..] == t + more;
    CloseStable(t, more);
    if CloseQuote(t).Some? {
      var end := CloseQuote(t).value;
      assert (t + more)[end + 1..] == t[end + 1..] + more && s[..end + 2] == p[..end + 2];
      ItemsCut(t[end + 1..], more, items, depth, sub + p[..end + 2], open);
    }
  }

  lemma {:induction false} StringCut(p: string, more: string, items: seq<string>, open: bool)
    requires (open ==> items != []) && p != "" && p[0] !in "() []"
    ensures Stable(Items(p, items, 0, "", open), Items(p + more, items, 0, "", open), more)
    decreases |p|, 0
  {
    assert (p + more)[0] == p[0];
    StringStable(p, more);
    StringShortens(p);
    hide String;
    if String(p).Ok? {
      var Ok(value, rest) := String(p);
      var next := if open then Extended(items, value) else items + [value];
      BreaksStable(rest, more);
      if SkipLineBreaks(rest) != "" {
        ItemsCut(SkipLineBreaks(rest), more, next, 0, "", open);
      }
    }
  }

  /** When only a part of a list has come, at least up to its opening parenthesis, its reader raises; it
      never gives a part of the items for all of them. */
  lemma ListCut(p: string, more: string, values: seq<string>, rest: string)
    requires SkipSpaces(p) != "" && SkipSpaces(p)[0] == '(' && ListText(p + more) == Ok(values, rest)
    requires |more| > |rest|
    ensures ListText(p) == Raises
  {
    var t := SkipSpaces(p);
    SpacesStable(p, more);
    assert (t + more)[1..] == t[1..] + more;
    ItemsCut(t[1..], more, [], 0, "", false);
    hide Items, SkipSpaces;
  }
}
