/** What the stream parser reads from a text that is completely there: strings, literals and lists,
    and what it raises. A read one past the end of the buffer gives a NUL. */
module StreamText {
  import opened Decimals
  import opened QuotedStrings

  /** A value and the text after it; an exception; or a case that the code does not define */
  datatype Read<T> = Ok(value: T, rest: string) | Raises | Undefined

  function SkipSpaces(s: string): (rest: string)
    ensures |rest| <= |s| && !Starts(rest, ' ')
  {
    if Starts(s, ' ') then SkipSpaces(s[1..]) else s
  }

  // ---------------------------------------------------------------- Literals

  /** Where the character is first found */
  function IndexOf(s: string, c: char): (i: Option<nat>)
    ensures i.Some? ==> i.value < |s| && s[i.value] == c
  {
    if s == "" then None
    else if s[0] == c then Some(0)
    else Later(IndexOf(s[1..], c), 1)
  }

  function Dropped(s: string, c: char): (rest: string)
    ensures |rest| <= |s|
  {
    if Starts(s, c) then s[1..] else s
  }

  /** The size that a literal announces, and the text after the line break */
  function Header(u: string): (r: Read<Option<int>>)
    requires Starts(u, '{')
    ensures r.Ok? ==> r.value.Some? && |r.rest| < |u|
  {
    match IndexOf(u, '}')
    case None => Raises
    case Some(end) =>
      if |u| < end + 3 then Raises
      else Ok(Some(ToInt(u[1..end])), Dropped(Dropped(u[end + 1..], '\r'), '\n'))
  }

  /** None where no literal starts */
  function LiteralHeader(s: string): (r: Read<Option<int>>)
    ensures r.Ok? ==> if r.value.Some? then |r.rest| < |s| else r.rest == s
  {
    var t := SkipSpaces(s);
    if s == "" || (Starts(t, '~') && |t| == 1) then Raises
    else
      var u := Dropped(t, '~');
      if Starts(u, '{') then Header(u) else Ok(None, s)
  }

  function LiteralText(size: int, s: string): (r: Read<string>)
    ensures r.Ok? ==> |r.rest| <= |s|
  {
    if size < 0 then Undefined
    else if |s| < size then Raises
    else Ok(s[..size], s[size..])
  }

  // ---------------------------------------------------------------- Strings

  predicate EndsAtom(c: char) {
    c == ' ' || c == '(' || c == ')' || c == '[' || c == ']' || c == '\n' || c == '\r' || c == '"'
  }

  /** Where an unquoted string ends */
  function AtomEnd(s: string): (end: Option<nat>)
    ensures end.Some? ==> end.value < |s| && EndsAtom(s[end.value])
  {
    if s == "" then None
    else if EndsAtom(s[0]) then Some(0)
    else Later(AtomEnd(s[1..]), 1)
  }

  function QuotedOrAtom(s: string): (r: Read<string>)
    ensures r.Ok? ==> |r.rest| <= |s| && s != "" && (s[0] == '"' || !EndsAtom(s[0]) ==> |r.rest| < |s|)
  {
    var t := SkipSpaces(s);
    if t == "" then Raises
    else if t[0] == '"' then
      match CloseQuote(t[1..])
      case None => Raises
      case Some(end) => Ok(Unescaped(t[1..][..end]), t[1..][end + 1..])
    else
      match AtomEnd(t)
      case None => Raises
      case Some(end) => Ok(Unescaped(t[..end]), t[end..])
  }

  function String(s: string): Read<string> {
    var t := SkipSpaces(s);
    if t == "" then Raises
    else match LiteralHeader(t)
      case Ok(Some(size), rest) => LiteralText(size, rest)
      case Ok(None, _) => QuotedOrAtom(t)
      case Raises => Raises
      case Undefined => Undefined
  }

  // ---------------------------------------------------------------- Lists

  function SkipLineBreaks(s: string): (rest: string)
    ensures |rest| <= |s|
  {
    if Starts(s, '\r') || Starts(s, '\n') then SkipLineBreaks(s[1..]) else s
  }

  /** The last item with more text at its end */
  function Extended(items: seq<string>, text: string): (r: seq<string>)
    requires items != []
    ensures r != []
  {
    items[..|items| - 1] + [items[|items| - 1] + text]
  }

  /** At a line break an item is empty. */
  lemma LineBreakItem(s: string)
    requires Starts(s, '\r') || Starts(s, '\n')
    ensures String(s) == Ok("", s)
  {
    assert SkipSpaces(s) == s && LiteralHeader(s) == Ok(None, s);
    assert AtomEnd(s) == Some(0) && s[..0] == "" && s[0..] == s;
  }

  lemma StringShortens(s: string)
    requires s != "" && s[0] != ' ' && s[0] != '(' && s[0] != ')' && s[0] != '[' && s[0] != ']'
    ensures String(s).Ok? ==> |SkipLineBreaks(String(s).rest)| < |s|
  {
    if s[0] == '\r' || s[0] == '\n' {
      LineBreakItem(s);
    } else {
      assert SkipSpaces(s) == s;
      hide LiteralHeader, QuotedOrAtom, LiteralText, SkipSpaces;
    }
  }

  /** The text of the sublist grows while one is open. */
  function Grown(depth: nat, sub: string, text: string): string {
    if depth == 0 then "" else sub + text
  }

  /** The items of a list whose text starts here. `sub` is the text so far of the outermost sublist,
      when `depth` of them are open; `open` tells whether a bracket is. */
  function Items(s: string, items: seq<string>, depth: nat, sub: string, open: bool): Read<seq<string>>
    requires open ==> items != []
    decreases |s|
  {
    if s == "" then Raises
    else
      var c, t := s[0], s[1..];
      if c == '(' then Items(t, items, depth + 1, sub + [c], open)
      else if c == ')' then
        if depth == 0 then Ok(items, t)
        else if depth == 1 then Items(t, items + [sub + [c]], 0, "", open)
        else Items(t, items, depth - 1, sub + [c], open)
      else if c == ' ' then Items(t, items, depth, Grown(depth, sub, [c]), open)
      else if c == '"' && depth > 0 then
        match CloseQuote(t)
        case None => Raises
        case Some(end) => Items(t[end + 1..], items, depth, sub + s[..end + 2], open)
      else if c == '[' then
        Items(t, Extended(if items == [] then [""] else items, [c]), depth, Grown(depth, sub, [c]), true)
      else if c == ']' then
        if items == [] then Undefined else Items(t, Extended(items, [c]), depth, Grown(depth, sub, [c]), false)
      else if depth > 0 then Items(t, items, depth, sub + [c], open)
      else
        StringShortens(s);
        match String(s)
        case Raises => Raises
        case Undefined => Undefined
        case Ok(value, rest) =>
          Items(SkipLineBreaks(rest), if open then Extended(items, value) else items + [value], 0, "", open)
  }

  function ListText(s: string): Read<seq<string>> {
    var t := SkipSpaces(s);
    if s == "" then Raises
    else if !Starts(t, '(') then Ok([], t)
    else Items(t[1..], [], 0, "", false)
  }
}
