/** The incremental parser of server responses, and the buffer that it reads them from. */
module StreamParser {
  import opened Bits
  import opened Decimals
  import opened FolderNameCodec
  import opened QuotedStrings
  import opened StreamText

  const MAX_LITERAL_PART := 4096
  const TRIM_FROM := 4096

  function Flat(chunks: seq<string>): string {
    if chunks == [] then "" else chunks[0] + Flat(chunks[1..])
  }

  lemma NoChunks()
    ensures Flat([]) == ""
  {
  }

  lemma Split(data: string, position: nat, size: nat, more: string)
    requires position + size <= |data|
    ensures data[position..] + more == data[position..position + size] + (data[position + size..] + more)
  {
    assert data[position..] == data[position..position + size] + data[position + size..];
  }

  // ---------------------------------------------------------------- Scanning the buffer

  /** The closing quote that is looked for from `start` is where it is when looked for from `i`. */
  ghost predicate Scanned(data: string, start: nat, i: nat) {
    start <= i <= |data| + 1 && start <= |data|
    && CloseQuote(data[start..]) == if i <= |data| then Later(CloseQuote(data[i..]), i - start) else None
  }

  lemma ScanStart(data: string, start: nat)
    requires start <= |data|
    ensures Scanned(data, start, start) && AtomScanned(data, start, start) && Noticed(data, start, start, false)
  {
  }

  lemma ScanStep(data: string, start: nat, i: nat)
    requires Scanned(data, start, i) && i < |data|
    ensures if data[i] == '\\' then Scanned(data, start, i + 2)
            else if data[i] == '"' then CloseQuote(data[start..]) == Some(i - start)
            else Scanned(data, start, i + 1)
  {
    var rest := data[i..];
    if i + 2 <= |data| {
      assert rest[2..] == data[i + 2..];
    }
    assert rest[1..] == data[i + 1..];
  }

  lemma ScanBound(data: string, start: nat, i: nat)
    requires Scanned(data, start, i)
    ensures start <= i <= |data| + 1 && (i >= |data| ==> CloseQuote(data[start..]) == None)
  {
  }

  /** A backslash in this part of the buffer was noticed. */
  ghost predicate Noticed(data: string, start: nat, i: nat, found: bool) {
    found || start > i || i > |data| || '\\' !in data[start..i]
  }

  lemma NoticeStep(data: string, start: nat, i: nat, found: bool)
    requires start <= i < |data| && Noticed(data, start, i, found)
    ensures Noticed(data, start, i + 1, found || data[i] == '\\') && Noticed(data, start, i + 2, true)
  {
    assert data[start..i + 1] == data[start..i] + [data[i]];
  }

  lemma NoticedSlash(data: string, start: nat, i: nat, found: bool)
    requires start <= i <= |data| && Noticed(data, start, i, found)
    ensures '\\' in data[start..i] ==> found
  {
  }

  lemma Parts(data: string, start: nat, end: nat, rest: string)
    requires start <= end < |data| && rest == data[start..]
    ensures data[start..end] == rest[..end - start]
    ensures data[end..] == rest[end - start..] && data[end + 1..] == rest[end - start + 1..]
  {
  }

  lemma QuotedHere(s: string)
    requires Starts(s, '"')
    ensures QuotedOrAtom(s) == match CloseQuote(s[1..])
                               case None => Raises
                               case Some(end) => Ok(Unescaped(s[1..][..end]), s[1..][end + 1..])
  {
  }

  lemma UnquotedHere(s: string)
    requires s != "" && s[0] != ' ' && s[0] != '"'
    ensures QuotedOrAtom(s) == match AtomEnd(s)
                               case None => Raises
                               case Some(end) => Ok(Unescaped(s[..end]), s[end..])
  {
  }

  ghost predicate AtomScanned(data: string, start: nat, i: nat) {
    start <= i <= |data| && AtomEnd(data[start..]) == Later(AtomEnd(data[i..]), i - start)
  }

  lemma AtomStep(data: string, start: nat, i: nat)
    requires AtomScanned(data, start, i)
    ensures if i == |data| then AtomEnd(data[start..]) == None
            else if EndsAtom(data[i]) then AtomEnd(data[start..]) == Some(i - start)
            else AtomScanned(data, start, i + 1)
  {
    if i < |data| {
      assert data[i..][1..] == data[i + 1..];
    }
  }

  // ---------------------------------------------------------------- Walking through a list

  /** What the list amounts to, seen from position `i` with the items and the sublist read so far */
  ghost predicate Matches(goal: Read<seq<string>>, data: string, i: nat, items: seq<string>, count: nat, begin: nat,
                          open: bool) {
    && i <= |data| && (open ==> items != []) && (count > 0 ==> begin <= i)
    && Items(data[i..], items, count, if count > 0 then data[begin..i] else "", open) == goal
  }

  lemma MatchStart(goal: Read<seq<string>>, data: string, i: nat, items: seq<string>, begin: nat, open: bool)
    requires i <= |data| && (open ==> items != []) && goal == Items(data[i..], items, 0, "", open)
    ensures Matches(goal, data, i, items, 0, begin, open)
  {
  }

  lemma Tail(data: string, begin: nat, i: nat)
    requires i < |data|
    ensures data[i..][0] == data[i] && data[i..][1..] == data[i + 1..]
    ensures begin <= i ==> data[begin..i + 1] == data[begin..i] + [data[i]]
    ensures data[i..i] + [data[i]] == data[i..i + 1]
  {
  }

  lemma MatchEnd(goal: Read<seq<string>>, data: string, i: nat, items: seq<string>, count: nat, begin: nat, open: bool)
    requires Matches(goal, data, i, items, count, begin, open)
    ensures i <= |data| && (i == |data| ==> goal.Raises?)
    ensures (open ==> items != []) && (count > 0 ==> begin <= i)
  {
  }

  lemma MatchParenthesis(goal: Read<seq<string>>, data: string, i: nat, items: seq<string>, count: nat, begin: nat,
                         open: bool)
    requires Matches(goal, data, i, items, count, begin, open) && i < |data|
    ensures data[i] == '(' ==> Matches(goal, data, i + 1, items, count + 1, if count == 0 then i else begin, open)
    ensures data[i] == ')' ==>
      if count == 0 then goal == Ok(items, data[i + 1..])
      else if count == 1 then Matches(goal, data, i + 1, items + [data[begin..i + 1]], 0, begin, open)
      else Matches(goal, data, i + 1, items, count - 1, begin, open)
  {
    Tail(data, begin, i);
    Tail(data, i, i);
    assert "" + [data[i]] == [data[i]] == data[i..i + 1];
  }

  lemma MatchPlain(goal: Read<seq<string>>, data: string, i: nat, items: seq<string>, count: nat, begin: nat,
                   open: bool)
    requires Matches(goal, data, i, items, count, begin, open) && i < |data|
    requires data[i] == ' ' || (count > 0 && data[i] !in "()\"[]")
    ensures Matches(goal, data, i + 1, items, count, begin, open)
  {
    Tail(data, begin, i);
  }

  lemma MatchBracket(goal: Read<seq<string>>, data: string, i: nat, items: seq<string>, count: nat, begin: nat,
                     open: bool)
    requires Matches(goal, data, i, items, count, begin, open) && i < |data| && !goal.Undefined?
    ensures data[i] == '[' ==>
      Matches(goal, data, i + 1, Extended(if items == [] then [""] else items, "["), count, begin, true)
    ensures data[i] == ']' ==> items != [] && Matches(goal, data, i + 1, Extended(items, "]"), count, begin, false)
  {
    Tail(data, begin, i);
  }

  /** A quoted string inside a sublist is part of its text. */
  lemma MatchQuoted(goal: Read<seq<string>>, data: string, i: nat, items: seq<string>, count: nat, begin: nat,
                    open: bool)
    requires Matches(goal, data, i, items, count, begin, open) && i < |data| && data[i] == '"' && count > 0
    ensures match CloseQuote(data[i + 1..])
            case None => goal.Raises?
            case Some(end) => Matches(goal, data, i + end + 2, items, count, begin, open)
  {
    hide CloseQuote;
    Tail(data, begin, i);
    if CloseQuote(data[i + 1..]).Some? {
      QuotedParts(data, begin, i, CloseQuote(data[i + 1..]).value);
    }
  }

  /** Where the parser of quoted strings leaves the position */
  lemma QuotedLength(data: string, i: nat)
    requires i < |data| && data[i] == '"'
    ensures match CloseQuote(data[i + 1..])
            case None => QuotedOrAtom(data[i..]).Raises?
            case Some(end) => QuotedOrAtom(data[i..]).Ok? && |QuotedOrAtom(data[i..]).rest| == |data| - (i + end + 2)
  {
    hide CloseQuote;
    Tail(data, i, i);
    QuotedHere(data[i..]);
  }

  lemma QuotedParts(data: string, begin: nat, i: nat, end: nat)
    requires begin <= i && i + end + 2 <= |data|
    ensures data[i + 1..][end + 1..] == data[i + end + 2..]
    ensures data[begin..i] + data[i..][..end + 2] == data[begin..i + end + 2]
  {
  }

  /** An item, with its line breaks, is read; the buffer may be trimmed meanwhile. */
  lemma MatchItem(goal: Read<seq<string>>, data: string, i: nat, items: seq<string>, begin: nat, open: bool)
    requires Matches(goal, data, i, items, 0, begin, open) && i < |data| && data[i] !in "() []" && !goal.Undefined?
    ensures match String(data[i..])
            case Raises => goal.Raises?
            case Undefined => false
            case Ok(value, rest) =>
              var next := if open then Extended(items, value) else items + [value];
              |SkipLineBreaks(rest)| < |data| - i && Items(SkipLineBreaks(rest), next, 0, "", open) == goal
  {
    Tail(data, begin, i);
    StringShortens(data[i..]);
  }

  lemma NoHeader(s: string)
    requires s != "" && s[0] != ' '
    ensures String(s) == match LiteralHeader(s)
                         case Ok(Some(size), rest) => LiteralText(size, rest)
                         case Ok(None, _) => QuotedOrAtom(s)
                         case Raises => Raises
                         case Undefined => Undefined
  {
  }

  lemma BracesParts(data: string, position: nat, count: nat)
    requires 1 <= count && position + count < |data|
    ensures data[position + 1..position + count] == data[position..][1..count]
    ensures data[position + count + 1..] == data[position..][count + 1..]
  {
  }

  class ImapStreamParser {
    var data: string
    var position: nat
    var literalSize: int
    /** What the socket will deliver, read by read; after that it times out. */
    var incoming: seq<string>

    constructor (incoming: seq<string>)
      ensures Valid() && this.incoming == incoming && Stream() == Flat(incoming) && Rest() == "" && literalSize == 0
    {
      data, position, literalSize, this.incoming := "", 0, 0, incoming;
    }

    ghost predicate Valid()
      reads this
    {
      position <= |data|
    }

    /** What was read from the socket and is not consumed */
    ghost function Rest(): string
      reads this
      requires Valid()
    {
      data[position..]
    }

    /** All that is not consumed: unread buffer, then unread socket data */
    ghost function Stream(): string
      reads this
      requires Valid()
    {
      Rest() + Flat(incoming)
    }

    /** The whole stream was received. */
    ghost predicate Buffered()
      reads this
    {
      Valid() && incoming == []
    }

    method WaitForMoreData(wait: bool) returns (ok: bool)
      requires Valid()
      modifies this`data, this`incoming
      ensures Valid() && Stream() == old(Stream()) && (ok <==> !wait || old(incoming) != [])
      ensures if wait && ok then data == old(data + incoming[0]) && incoming == old(incoming[1..])
              else data == old(data) && incoming == old(incoming)
    {
      if wait {
        if incoming != [] {
          Associative(data[position..], incoming[0], Flat(incoming[1..]));
          assert (data + incoming[0])[position..] == data[position..] + incoming[0];
          data, incoming := data + incoming[0], incoming[1..];
        } else {
          return false;
        }
      }
      return true;
    }

    /** Drops what was consumed, when that is worth it; nobody sees a difference. */
    method TrimBuffer()
      requires Valid()
      modifies this`data, this`position
      ensures Valid() && Rest() == old(Rest()) && Stream() == old(Stream())
    {
      if position < TRIM_FROM {
        return;
      }
      data := data[position..];
      position := 0;
    }

    method StripLeadingSpaces()
      requires Valid()
      modifies this`position
      ensures Valid() && Rest() == SkipSpaces(old(Rest())) && old(position) <= position
    {
      var i := position;
      while i < |data|
        invariant position == old(position) <= i <= |data|
        invariant SkipSpaces(data[i..]) == SkipSpaces(old(Rest()))
      {
        if data[i] != ' ' {
          position := i;
          return;
        }
        assert data[i..][1..] == data[i + 1..];
        i := i + 1;
      }
      position := |data|;
    }

    // -------------------------------------------------------------- Literals, however the stream is split

    function AtLiteralEnd(): bool
      reads this
    {
      literalSize == 0
    }

    /** Reads a part of the literal, at most what the buffer has after waiting once. */
    method ReadLiteralPart() returns (ok: bool, result: string)
      requires Valid() && literalSize >= 0
      modifies this
      ensures Valid() && 0 <= literalSize && |result| <= MAX_LITERAL_PART
      ensures ok ==> old(Stream()) == result + Stream() && literalSize == old(literalSize) - |result|
      ensures ok ==>
        |incoming| <= |old(incoming)| && (old(literalSize) > 0 && result == "" ==> |incoming| < |old(incoming)|)
      ensures !ok ==> Stream() == old(Stream()) && |old(Stream())| < old(literalSize)
      ensures old(incoming) == [] ==> incoming == []
    {
      NoChunks();
      hide Flat;
      var size := if MAX_LITERAL_PART < literalSize then MAX_LITERAL_PART else literalSize;
      result := "";
      ok := WaitForMoreData(|data| < position + size);
      if !ok {
        return;
      }
      if |data| < position + size {
        size := |data| - position;
      }
      result := data[position..position + size];
      Split(data, position, size, Flat(incoming));
      position := position + size;
      literalSize := literalSize - size;
      TrimBuffer();
    }

    /** The loop around `ReadLiteralPart`: exactly the announced octets, or an exception when the stream
        ends before them. */
    method ReadLiteral() returns (ok: bool, result: string)
      requires Valid() && literalSize >= 0
      modifies this
      ensures Valid() && (ok <==> old(literalSize) <= |old(Stream())|)
      ensures ok ==> result == old(Stream())[..old(literalSize)] && Stream() == old(Stream())[old(literalSize)..]
      ensures ok ==> literalSize == 0
      ensures old(incoming) == [] ==> incoming == []
    {
      ok, result := true, "";
      while !AtLiteralEnd()
        invariant Valid() && literalSize >= 0 && ok
        invariant old(Stream()) == result + Stream() && |result| + literalSize == old(literalSize)
        invariant old(incoming) == [] ==> incoming == []
        decreases literalSize, |incoming|
      {
        ghost var before := Stream();
        var part;
        ok, part := ReadLiteralPart();
        if !ok {
          return;
        }
        Associative(result, part, Stream());
        result := result + part;
      }
    }

    // -------------------------------------------------------------- On a stream that was received

    /** The octet at the position; NUL at the end of the buffer */
    function Current(): char
      reads this
    {
      At(data, position)
    }

    /** True when a literal starts; then the position is at its first octet. */
    method HasLiteral() returns (ok: bool, has: bool)
      requires Buffered()
      modifies this
      ensures var r := LiteralHeader(old(Rest())); ok <==> r.Ok?
      ensures var r := LiteralHeader(old(Rest()));
              ok ==> Buffered() && Rest() == r.rest && has == r.value.Some?
                     && literalSize == if has then r.value.value else old(literalSize)
    {
      hide Header;
      ghost var s := Rest();
      has := false;
      ok := WaitForMoreData(position >= |data|);
      if !ok {
        return;
      }
      var savedPos := position;
      StripLeadingSpaces();
      if Current() == '~' {
        position := position + 1;
        ok := WaitForMoreData(position >= |data|);
        if !ok {
          return;
        }
      }
      assert Rest() == Dropped(SkipSpaces(s), '~');
      if Current() == '{' {
        ok := TakeHeader();
        has := true;
      } else {
        position := savedPos;
      }
    }

    /** The size between the braces, and the line break after them */
    method TakeHeader() returns (ok: bool)
      requires Buffered() && Starts(Rest(), '{')
      modifies this
      ensures var r := Header(old(Rest())); ok <==> r.Ok?
      ensures var r := Header(old(Rest())); ok ==> Buffered() && Rest() == r.rest && literalSize == r.value.value
    {
      hide ToInt, Dropped, IndexOf;
      ghost var u := Rest();
      var found := IndexOf(data[position..], '}');
      ok := WaitForMoreData(found == None);
      if !ok {
        return;
      }
      var end := position + found.value;
      BracesParts(data, position, found.value);
      literalSize := ToInt(data[position + 1..end]);
      position := end + 1;
      assert Rest() == u[found.value + 1..];
      ok := WaitForMoreData(position + 1 >= |data|);
      if ok {
        SkipLineBreak();
      }
    }

    method SkipLineBreak()
      requires Valid()
      modifies this`position
      ensures Valid() && Rest() == Dropped(Dropped(old(Rest()), '\r'), '\n')
    {
      if position < |data| && data[position] == '\r' {
        position := position + 1;
      }
      if position < |data| && data[position] == '\n' {
        position := position + 1;
      }
    }

    method ParseQuotedString() returns (ok: bool, result: string)
      requires Buffered()
      modifies this
      ensures var r := QuotedOrAtom(old(Rest())); (ok <==> r.Ok?) && literalSize == old(literalSize)
      ensures var r := QuotedOrAtom(old(Rest()));
              ok ==> Buffered() && data == old(data) && result == r.value && Rest() == r.rest
    {
      result := "";
      ok := WaitForMoreData(|data| == 0);
      if !ok {
        return;
      }
      StripLeadingSpaces();
      ok := WaitForMoreData(position >= |data|);
      if !ok {
        return;
      }
      if data[position] == '"' {
        ok, result := ParseQuoted();
      } else {
        ok, result := ParseUnquoted();
      }
    }

    method ParseQuoted() returns (ok: bool, result: string)
      requires Buffered() && Starts(Rest(), '"')
      modifies this`position, this`data, this`incoming
      ensures var r := QuotedOrAtom(old(Rest())); ok <==> r.Ok?
      ensures var r := QuotedOrAtom(old(Rest()));
              ok ==> Buffered() && data == old(data) && result == r.value && Rest() == r.rest
    {
      QuotedHere(Rest());
      hide QuotedOrAtom, CloseQuote, Noticed;
      result := "";
      ghost var s := Rest();
      position := position + 1;
      assert Rest() == s[1..];
      var end, foundSlash;
      ok, end, foundSlash := ScanQuoted();
      if !ok {
        return;
      }
      NoticedSlash(data, position, end, foundSlash);
      result := Unescape(data[position..end], foundSlash);
      Parts(data, position, end, s[1..]);
      position := end + 1;
    }

    method ParseUnquoted() returns (ok: bool, result: string)
      requires Buffered() && Rest() != "" && Rest()[0] != ' ' && Rest()[0] != '"'
      modifies this`position, this`data, this`incoming
      ensures var r := QuotedOrAtom(old(Rest())); ok <==> r.Ok?
      ensures var r := QuotedOrAtom(old(Rest()));
              ok ==> Buffered() && data == old(data) && result == r.value && Rest() == r.rest
    {
      UnquotedHere(Rest());
      hide QuotedOrAtom, AtomEnd, Noticed;
      result := "";
      ghost var s := Rest();
      var end, foundSlash;
      ok, end, foundSlash := ScanAtom();
      if !ok {
        return;
      }
      NoticedSlash(data, position, end, foundSlash);
      result := Unescape(data[position..end], foundSlash);
      Parts(data, position, end, s);
      position := end;
    }

    /** Looks for the closing quote; what follows a backslash is not looked at. */
    method ScanQuoted() returns (ok: bool, i: nat, foundSlash: bool)
      requires Buffered()
      modifies this`position, this`data, this`incoming
      ensures ok <==> CloseQuote(old(Rest())).Some?
      ensures ok ==> Buffered() && data == old(data) && position == old(position)
                     && i == position + CloseQuote(Rest()).value && Noticed(data, position, i, foundSlash)
    {
      hide CloseQuote, Scanned, Noticed;
      ghost var before, start := data, position;
      ok, i, foundSlash := true, position, false;
      ScanStart(data, start);
      while true
        invariant Buffered() && data == before && position == start && ok
        invariant Scanned(data, start, i) && Noticed(data, start, i, foundSlash)
        decreases |data| + 1 - i
      {
        ScanBound(data, start, i);
        ok := WaitForMoreData(|data| <= i);
        if !ok {
          position := i;
          return;
        }
        ScanStep(data, start, i);
        NoticeStep(data, start, i, foundSlash);
        if data[i] == '\\' {
          i := i + 2;
          foundSlash := true;
          continue;
        }
        if data[i] == '"' {
          return;
        }
        i := i + 1;
      }
    }

    /** Looks for the end of an unquoted string. */
    method ScanAtom() returns (ok: bool, i: nat, foundSlash: bool)
      requires Buffered()
      modifies this`position, this`data, this`incoming
      ensures ok <==> AtomEnd(old(Rest())).Some?
      ensures ok ==> Buffered() && data == old(data) && position == old(position)
                     && i == position + AtomEnd(Rest()).value && Noticed(data, position, i, foundSlash)
    {
      hide AtomEnd, Noticed;
      ghost var before, start := data, position;
      ok, i, foundSlash := true, position, false;
      ScanStart(data, start);
      while true
        invariant Buffered() && data == before && position == start && ok
        invariant AtomScanned(data, start, i) && Noticed(data, start, i, foundSlash)
        decreases |data| - i
      {
        AtomStep(data, start, i);
        ok := WaitForMoreData(|data| <= i);
        if !ok {
          position := i;
          return;
        }
        if EndsAtom(data[i]) {
          return;
        }
        NoticeStep(data, start, i, foundSlash);
        if data[i] == '\\' {
          foundSlash := true;
        }
        i := i + 1;
      }
    }

    method ReadString() returns (ok: bool, result: string)
      requires Buffered() && !String(Rest()).Undefined?
      modifies this
      ensures var r := String(old(Rest())); ok <==> r.Ok?
      ensures var r := String(old(Rest())); ok ==> Buffered() && result == r.value && Rest() == r.rest
    {
      hide LiteralHeader, QuotedOrAtom;
      result := "";
      ok := WaitForMoreData(data == "");
      if !ok {
        return;
      }
      StripLeadingSpaces();
      ok := WaitForMoreData(position >= |data|);
      if !ok {
        return;
      }
      var has;
      ok, has := HasLiteral();
      if !ok {
        return;
      }
      if has {
        BufferedStream();
        ok, result := ReadLiteral();
        if ok {
          BufferedStream();
        }
      } else {
        ok, result := ParseQuotedString();
      }
    }

    lemma BufferedStream()
      requires Buffered()
      ensures Stream() == Rest()
    {
    }

    method SkipAllLineBreaks()
      requires Valid()
      modifies this`position
      ensures Valid() && Rest() == SkipLineBreaks(old(Rest()))
    {
      while position < |data| && (data[position] == '\r' || data[position] == '\n')
        invariant Valid() && SkipLineBreaks(Rest()) == SkipLineBreaks(old(Rest()))
        decreases |data| - position
      {
        assert Rest()[1..] == data[position + 1..];
        position := position + 1;
      }
    }

    /** An item of a list, and the line breaks after it */
    method ReadItem() returns (ok: bool, item: string)
      requires Buffered() && Rest() != "" && Rest()[0] != ' ' && !String(Rest()).Undefined?
      modifies this
      ensures var r := String(old(Rest())); ok <==> r.Ok?
      ensures var r := String(old(Rest())); ok ==> Buffered() && item == r.value && Rest() == SkipLineBreaks(r.rest)
    {
      hide LiteralHeader, QuotedOrAtom;
      NoHeader(Rest());
      item := "";
      var has;
      ok, has := HasLiteral();
      if !ok {
        return;
      }
      if has {
        BufferedStream();
        ok, item := ReadLiteral();
        if ok {
          BufferedStream();
        }
      } else {
        ok, item := ReadString();
      }
      if ok {
        SkipAllLineBreaks();
      }
    }

    method ReadParenthesizedList() returns (ok: bool, result: seq<string>)
      requires Buffered() && !ListText(Rest()).Undefined?
      modifies this
      ensures var r := ListText(old(Rest())); ok <==> r.Ok?
      ensures var r := ListText(old(Rest())); ok ==> Buffered() && result == r.value && Rest() == r.rest
    {
      result := [];
      ok := WaitForMoreData(|data| <= position);
      if !ok {
        return;
      }
      StripLeadingSpaces();
      if Current() != '(' {
        return;
      }
      assert Rest()[1..] == data[position + 1..];
      ok, result := ReadItems(Items(data[position + 1..], [], 0, "", false));
    }

    /** Goes past a quoted string inside a sublist. */
    method SkipQuoted(ghost goal: Read<seq<string>>, i: nat, ghost items: seq<string>, ghost count: nat,
                      ghost begin: nat, ghost open: bool) returns (ok: bool, next: nat)
      requires Buffered() && Matches(goal, data, i, items, count, begin, open)
      requires i < |data| && data[i] == '"' && count > 0
      modifies this
      ensures !ok ==> goal.Raises?
      ensures ok ==>
        Buffered() && data == old(data) && i < next <= |data| && Matches(goal, data, next, items, count, begin, open)
    {
      hide Matches, QuotedOrAtom, CloseQuote;
      MatchQuoted(goal, data, i, items, count, begin, open);
      QuotedLength(data, i);
      position := i;
      var ignored;
      ok, ignored := ParseQuotedString();
      next := position;
    }

    /** Reads an item, and adds it to the list or, inside brackets, to the last one. */
    method TakeItem(ghost goal: Read<seq<string>>, i: nat, items: seq<string>, ghost begin: nat, open: bool)
        returns (ok: bool, next: nat, result: seq<string>)
      requires Buffered() && Matches(goal, data, i, items, 0, begin, open)
      requires i < |data| && data[i] !in "() []" && !goal.Undefined? && (open ==> items != [])
      modifies this
      ensures !ok ==> goal.Raises?
      ensures ok ==> Buffered() && next <= |data| && |data| - next < |old(data)| - i
      ensures ok ==> Matches(goal, data, next, result, 0, begin, open)
    {
      hide Matches, String, Items, SkipLineBreaks;
      MatchItem(goal, data, i, items, begin, open);
      position := i;
      var item;
      ok, item := ReadItem();
      next := position;
      result := items;
      if ok {
        result := if open then Extended(items, item) else items + [item];
        MatchStart(goal, data, next, result, begin, open);
      }
    }

    /** The items of a list, from its parenthesis on */
    method ReadItems(ghost goal: Read<seq<string>>) returns (ok: bool, result: seq<string>)
      requires Buffered() && position < |data|
      requires goal == Items(data[position + 1..], [], 0, "", false) && !goal.Undefined?
      modifies this
      ensures ok <==> goal.Ok?
      ensures ok ==> Buffered() && result == goal.value && Rest() == goal.rest
    {
      result, ok := [], true;
      hide Items, String, SkipLineBreaks, Matches, QuotedOrAtom, CloseQuote, Extended, Flat;
      var concatToLast, count: nat, sublistbegin: nat, i: nat := false, 0, position, position + 1;
      MatchStart(goal, data, i, [], sublistbegin, false);
      while true
        invariant ok && Buffered() && i <= |data| && Matches(goal, data, i, result, count, sublistbegin, concatToLast)
        decreases |data| - i
      {
        MatchEnd(goal, data, i, result, count, sublistbegin, concatToLast);
        ok := WaitForMoreData(|data| <= i);
        if !ok {
          position := i;
          return;
        }
        var c := data[i];
        if c == '(' {
          MatchParenthesis(goal, data, i, result, count, sublistbegin, concatToLast);
          count := count + 1;
          if count == 1 {
            sublistbegin := i;
          }
          i := i + 1;
        } else if c == ')' {
          MatchParenthesis(goal, data, i, result, count, sublistbegin, concatToLast);
          if count <= 0 {
            position := i + 1;
            return;
          }
          if count == 1 {
            result := result + [data[sublistbegin..i + 1]];
          }
          count := count - 1;
          i := i + 1;
        } else if c == ' ' {
          MatchPlain(goal, data, i, result, count, sublistbegin, concatToLast);
          i := i + 1;
        } else if c == '"' && count > 0 {
          ok, i := SkipQuoted(goal, i, result, count, sublistbegin, concatToLast);
          if !ok {
            return;
          }
        } else if c == '[' || c == ']' {
          MatchBracket(goal, data, i, result, count, sublistbegin, concatToLast);
          concatToLast := c == '[';
          if concatToLast && result == [] {
            result := [""];
          }
          result := Extended(result, [c]);
          i := i + 1;
        } else if count == 0 {
          ok, i, result := TakeItem(goal, i, result, sublistbegin, concatToLast);
          if !ok {
            return;
          }
        } else {
          MatchPlain(goal, data, i, result, count, sublistbegin, concatToLast);
          i := i + 1;
        }
      }
    }
  }
}
