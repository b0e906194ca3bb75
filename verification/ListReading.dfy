/** Printed lists, and what the stream parser reads from them. */
module ListReading {
  import opened Bits
  import opened Decimals
  import opened FolderNameCodec
  import opened QuotedStrings
  import opened StreamParser
  import opened StreamText

  datatype Item =
    | Atom(text: string)
    | Quotation(value: string)
    /** Between quotes as it is, without a backslash added */
    | Raw(value: string)
    | Literal(value: string)
    | Sublist(pieces: seq<Piece>)
    /** A name with brackets, as `BODY[HEADER.FIELDS (DATE FROM)]<0>`: words and a list between the
        brackets, and an origin after them */
    | Section(name: string, words: seq<string>, fields: Option<seq<Piece>>, origin: string)

  /** What a sublist is made of */
  datatype Piece =
    | Plain(text: string)
    | Quote(value: string)
    | LiteralPiece(value: string)
    | Nested(pieces: seq<Piece>)

  function PiecesText(pieces: seq<Piece>): string {
    if pieces == [] then "" else PieceText(pieces[0]) + PiecesText(pieces[1..])
  }

  function PieceText(piece: Piece): string {
    match piece
    case Plain(text) => text
    case Quote(value) => "\"" + Quoted(value) + "\""
    case LiteralPiece(value) => Counted(value)
    case Nested(inner) => "(" + PiecesText(inner) + ")"
  }

  /** A literal: the number of its octets, a line break, and the octets */
  function Counted(value: string): string {
    "{" + Decimal(|value|) + "}\r\n" + value
  }

  /** Nothing that opens or closes anything */
  predicate AllPlain(pieces: seq<Piece>) {
    forall i :: 0 <= i < |pieces| ==>
      match pieces[i]
      case Plain(text) => Ordinary(text)
      case Quote(_) => true
      case LiteralPiece(value) => Ordinary(value)
      case Nested(inner) => AllPlain(inner)
  }

  predicate Ordinary(text: string) {
    forall i :: 0 <= i < |text| ==> text[i] !in "()[]\""
  }

  function Print(item: Item): string {
    match item
    case Atom(text) => text
    case Quotation(value) => "\"" + Quoted(value) + "\""
    case Raw(value) => "\"" + value + "\""
    case Literal(value) => Counted(value)
    case Sublist(pieces) => "(" + PiecesText(pieces) + ")"
    case Section(name, words, fields, origin) =>
      name + ("[" + (SpacedWords(words) + (FieldsPart(fields) + ("]" + origin))))
  }

  function SpacedWords(words: seq<string>): string {
    if words == [] then "" else if |words| == 1 then words[0] else words[0] + (" " + SpacedWords(words[1..]))
  }

  function FieldsPart(fields: Option<seq<Piece>>): string {
    if fields.None? then "" else " " + ("(" + PiecesText(fields.value) + ")")
  }

  function Concatenated(words: seq<string>): string {
    if words == [] then "" else words[0] + Concatenated(words[1..])
  }

  /** What the reader gets of an item: of a section, its name and words without the spaces, then the list
      with the closing bracket, then the origin */
  function ItemValues(item: Item): seq<string> {
    match item
    case Section(name, words, fields, origin) =>
      var head := (name + "[") + Concatenated(words);
      (if fields.None? then [head + "]"] else [head, ("(" + PiecesText(fields.value) + ")") + "]"])
      + (if origin == "" then [] else [origin])
    case _ => [Value(item)]
  }

  /** What the reader is meant to get */
  function Value(item: Item): string {
    match item
    case Atom(text) => text
    case Quotation(value) => value
    case Raw(value) => value
    case Literal(value) => value
    case Sublist(_) => Print(item)
    case Section(_, _, _, _) => Print(item)
  }

  /** Characters that do not end an atom, of which nothing is removed, and no literal */
  predicate AtomText(text: string) {
    && text != "" && (forall i :: 0 <= i < |text| ==> text[i] !in " ()[]\r\n\"")
    && text[0] != '{' && !(|text| > 1 && text[0] == '~' && text[1] == '{')
    && !HasPair(text, '\\', '\\')
  }

  predicate Readable(item: Item) {
    match item
    case Atom(text) => AtomText(text)
    case Quotation(value) => !HasPair(value, '\\', '\\') && !HasPair(value, '\\', '"')
    case Raw(value) => Intact(value)
    case Literal(value) => |value| <= 0x7FFF_FFFF
    case Sublist(pieces) => AllPlain(pieces)
    case Section(name, words, fields, origin) =>
      && AtomText(name) && (forall i :: 0 <= i < |words| ==> AtomText(words[i]))
      && (fields.Some? ==> AllPlain(fields.value)) && (origin != "" ==> AtomText(origin))
  }

  function PrintItems(items: seq<Item>): string {
    if items == [] then ""
    else if |items| == 1 then Print(items[0])
    else Print(items[0]) + " " + PrintItems(items[1..])
  }

  function Values(items: seq<Item>): seq<string> {
    if items == [] then [] else ItemValues(items[0]) + Values(items[1..])
  }

  // ---------------------------------------------------------------- One item

  predicate Separated(tail: string) {
    Starts(tail, ' ') || Starts(tail, ')')
  }

  lemma {:induction false} AtomEnds(text: string, tail: string)
    requires (forall i :: 0 <= i < |text| ==> !EndsAtom(text[i])) && tail != "" && EndsAtom(tail[0])
    ensures AtomEnd(text + tail) == Some(|text|)
  {
    if text == "" {
      assert "" + tail == tail;
    } else {
      assert (text + tail)[1..] == text[1..] + tail;
      AtomEnds(text[1..], tail);
    }
  }

  lemma {:induction false} NoPair(s: string, a: char, b: char)
    requires b !in s
    ensures !HasPair(s, a, b)
  {
    if |s| >= 2 {
      NoPair(s[1..], a, b);
    }
  }

  lemma AtomValue(text: string)
    requires '"' !in text && !HasPair(text, '\\', '\\')
    ensures Unescaped(text) == text
  {
    NoPair(text, '\\', '"');
    StrippedExactly(text, '"');
    StrippedExactly(text, '\\');
  }

  lemma AtomString(text: string, tail: string)
    requires AtomText(text) && tail != "" && tail[0] in " ()[]\r\n\""
    ensures String(text + tail) == Ok(text, tail)
  {
    var s := text + tail;
    assert SkipSpaces(s) == s && s[0] == text[0];
    NoLiteralHere(s);
    AtomEnds(text, tail);
    AtomValue(text);
    assert s[..|text|] == text && s[|text|..] == tail;
  }

  lemma NoLiteralHere(s: string)
    requires |s| > 1 && s[0] != ' ' && s[0] != '{' && (s[0] == '~' ==> s[1] != '{')
    ensures LiteralHeader(s) == Ok(None, s)
  {
  }

  /** Parsing a quoted value stops right after it, and gives the value itself if and only if it has
      no backslash before a backslash or a quote. */
  lemma QuotationParsed(value: string, tail: string)
    ensures var r := String("\"" + Quoted(value) + "\"" + tail);
            r.Ok? && r.rest == tail
            && (r.value == value <==> !HasPair(value, '\\', '\\') && !HasPair(value, '\\', '"'))
  {
    var s := "\"" + Quoted(value) + "\"" + tail;
    var t := Quoted(value) + "\"" + tail;
    assert SkipSpaces(s) == s && s[1..] == t;
    NoLiteralHere(s);
    QuotedCloses(value, tail);
    QuotedReadBackExactly(value);
    assert t[..|Quoted(value)|] == Quoted(value) && t[|Quoted(value)| + 1..] == tail;
  }

  lemma QuoteOpens(t: string)
    ensures String("\"" + t)
            == match CloseQuote(t) case Some(end) => Ok(Inner(t).value, t[end + 1..]) case None => Raises
  {
    var s := "\"" + t;
    assert SkipSpaces(s) == s && s[1..] == t;
    if t == "" {
      assert LiteralHeader(s) == Ok(None, s);
    } else {
      NoLiteralHere(s);
    }
  }

  /** A value between quotes as it is comes back if and only if it is intact. */
  lemma RawParsed(value: string, tail: string)
    ensures var r := String("\"" + value + "\"" + tail);
            && (Intact(value) ==> r == Ok(value, tail))
            && (!Intact(value) ==> !r.Undefined? && (r.Ok? ==> Apart(r.value, value)))
  {
    var t := value + ("\"" + tail);
    assert "\"" + value + "\"" + tail == "\"" + t;
    QuoteOpens(t);
    RawReadBack(value, tail);
    hide Intact, Apart, CloseQuote, String;
    assert t[|value| + 1..] == tail;
  }

  lemma {:induction false} IndexAfter(s: string, c: char, tail: string)
    requires c !in s
    ensures IndexOf(s + [c] + tail, c) == Some(|s|)
  {
    if s != "" {
      assert (s + [c] + tail)[1..] == s[1..] + [c] + tail;
      IndexAfter(s[1..], c, tail);
    }
  }

  lemma HeaderRead(n: nat, after: string)
    requires n <= 0x7FFF_FFFF
    ensures Header("{" + Decimal(n) + "}\r\n" + after) == Ok(Some(n as int), after)
  {
    var digits := Decimal(n);
    var s, t := "{" + digits + "}\r\n" + after, "\r\n" + after;
    NumberRoundTrip(n);
    HeaderParts(digits, after);
    hide ToLongLong, Decimal;
    IndexAfter("{" + digits, '}', t);
  }

  lemma HeaderParts(digits: string, after: string)
    ensures var s, t := "{" + digits + "}\r\n" + after, "\r\n" + after;
            && s == "{" + digits + ['}'] + t && s[1..|digits| + 1] == digits && s[|digits| + 2..] == t
            && Dropped(Dropped(t, '\r'), '\n') == after
  {
    var t := "\r\n" + after;
    assert t[1..] == "\n" + after && t[1..][1..] == after;
  }

  lemma HeaderFirst(s: string)
    requires Starts(s, '{')
    ensures SkipSpaces(s) == s && LiteralHeader(s) == Header(s)
  {
    hide Header;
  }

  lemma LiteralString(value: string, tail: string)
    requires Readable(Literal(value))
    ensures String(Print(Literal(value)) + tail) == Ok(value, tail)
  {
    var head := "{" + Decimal(|value|) + "}\r\n";
    Associative(head, value, tail);
    HeaderRead(|value|, value + tail);
    HeaderFirst(head + (value + tail));
    hide Header, Decimal, LiteralHeader;
    assert (value + tail)[..|value|] == value && (value + tail)[|value|..] == tail;
  }

  /** A literal of bytes, with a tilde before its size, is read as well. */
  lemma BinaryLiteral(value: string, tail: string)
    requires Readable(Literal(value))
    ensures String("~" + (Counted(value) + tail)) == Ok(value, tail)
  {
    var u := Counted(value) + tail;
    LiteralString(value, tail);
    assert ("~" + u)[1..] == u && u[0] == '{';
    HeaderFirst(u);
    hide Header, Counted;
    assert SkipSpaces("~" + u) == "~" + u && SkipSpaces(u) == u;
    assert LiteralHeader("~" + u) == Header(u);
  }

  /** Line breaks after a string are passed over. */
  lemma BreakAfter(s: string, value: string, tail: string, items: seq<string>)
    requires s != "" && s[0] !in "() []" && String(s) == Ok(value, "\r\n" + tail)
    requires tail != "" && tail[0] != '\r' && tail[0] != '\n'
    ensures Items(s, items, 0, "", false) == Items(tail, items + [value], 0, "", false)
  {
    hide String;
    assert ("\r\n" + tail)[1..] == "\n" + tail && ("\n" + tail)[1..] == tail;
    assert SkipLineBreaks(tail) == tail && SkipLineBreaks("\n" + tail) == tail;
    assert SkipLineBreaks("\r\n" + tail) == tail;
  }

  // ---------------------------------------------------------------- Sublists

  lemma {:induction false} PlainRead(text: string, tail: string, items: seq<string>, depth: nat, sub: string,
                                     open: bool)
    requires Ordinary(text) && depth > 0 && (open ==> items != [])
    ensures Items(text + tail, items, depth, sub, open) == Items(tail, items, depth, sub + text, open)
  {
    if text == "" {
      assert "" + tail == tail && sub + "" == sub;
    } else {
      assert (text + tail)[0] == text[0] && (text + tail)[1..] == text[1..] + tail;
      PlainRead(text[1..], tail, items, depth, sub + [text[0]], open);
      assert sub + [text[0]] + text[1..] == sub + text;
    }
  }

  lemma CountedOrdinary(value: string)
    requires Ordinary(value)
    ensures Ordinary(Counted(value))
  {
  }

  lemma QuoteRead(value: string, tail: string, items: seq<string>, depth: nat, sub: string,
                  open: bool)
    requires depth > 0 && (open ==> items != [])
    ensures var text := PieceText(Quote(value));
            Items(text + tail, items, depth, sub, open) == Items(tail, items, depth, sub + text, open)
  {
    var text := PieceText(Quote(value));
    var s, t := text + tail, Quoted(value) + "\"" + tail;
    assert s[0] == '"' && s[1..] == t;
    QuotedCloses(value, tail);
    assert t[|Quoted(value)| + 1..] == tail && s[..|Quoted(value)| + 2] == text;
  }

  lemma {:induction false} PieceRead(piece: Piece, tail: string, items: seq<string>, depth: nat, sub: string,
                                     open: bool)
    requires AllPlain([piece]) && depth > 0 && (open ==> items != [])
    ensures Items(PieceText(piece) + tail, items, depth, sub, open)
            == Items(tail, items, depth, sub + PieceText(piece), open)
    decreases piece, 0
  {
    var whole := [piece];
    assert whole[0] == piece;
    match piece
    case Plain(text) => PlainRead(text, tail, items, depth, sub, open);
    case Quote(value) => QuoteRead(value, tail, items, depth, sub, open);
    case LiteralPiece(value) =>
      CountedOrdinary(value);
      PlainRead(Counted(value), tail, items, depth, sub, open);
    case Nested(inner) =>
      NestedRead(inner, tail, items, depth, sub, open);
  }

  /** Between its parentheses, a sublist is read as the text that it is. */
  lemma {:induction false} InnerRead(inner: seq<Piece>, tail: string, items: seq<string>, depth: nat, sub: string,
                                     open: bool)
    requires AllPlain(inner) && (open ==> items != [])
    ensures Items("(" + PiecesText(inner) + ")" + tail, items, depth, sub, open)
            == Items(")" + tail, items, depth + 1, sub + "(" + PiecesText(inner), open)
    decreases inner, 1
  {
    var s := "(" + PiecesText(inner) + ")" + tail;
    assert s[0] == '(' && s[1..] == PiecesText(inner) + (")" + tail);
    PiecesRead(inner, ")" + tail, items, depth + 1, sub + "(", open);
  }

  lemma {:induction false} NestedRead(inner: seq<Piece>, tail: string, items: seq<string>, depth: nat, sub: string,
                                      open: bool)
    requires AllPlain(inner) && depth > 0 && (open ==> items != [])
    ensures var text := "(" + PiecesText(inner) + ")";
            Items(text + tail, items, depth, sub, open) == Items(tail, items, depth, sub + text, open)
    decreases inner, 2
  {
    InnerRead(inner, tail, items, depth, sub, open);
    var t := ")" + tail;
    assert t[0] == ')' && t[1..] == tail;
    assert sub + "(" + PiecesText(inner) + ")" == sub + ("(" + PiecesText(inner) + ")");
  }

  lemma {:induction false} PiecesRead(pieces: seq<Piece>, tail: string, items: seq<string>, depth: nat, sub: string,
                                      open: bool)
    requires AllPlain(pieces) && depth > 0 && (open ==> items != [])
    ensures Items(PiecesText(pieces) + tail, items, depth, sub, open)
            == Items(tail, items, depth, sub + PiecesText(pieces), open)
    decreases pieces, 0
  {
    if pieces == [] {
      assert "" + tail == tail && sub + "" == sub;
    } else {
      var first, rest := PieceText(pieces[0]), PiecesText(pieces[1..]);
      assert [pieces[0]][0] == pieces[0];
      PieceRead(pieces[0], rest + tail, items, depth, sub, open);
      assert forall i :: 0 <= i < |pieces| - 1 ==> pieces[1..][i] == pieces[i + 1];
      PiecesRead(pieces[1..], tail, items, depth, sub + first, open);
      Associative(first, rest, tail);
      Associative(sub, first, rest);
    }
  }

  // ---------------------------------------------------------------- Whole lists

  lemma SublistRead(pieces: seq<Piece>, tail: string, items: seq<string>, open: bool)
    requires AllPlain(pieces) && (open ==> items != [])
    ensures Items(Print(Sublist(pieces)) + tail, items, 0, "", open)
            == Items(tail, items + [Print(Sublist(pieces))], 0, "", open)
  {
    InnerRead(pieces, tail, items, 0, "", open);
    SublistEnds(tail, items, "" + "(" + PiecesText(pieces), open);
    hide Items, PiecesText;
    assert "" + "(" + PiecesText(pieces) + ")" == Print(Sublist(pieces));
  }

  lemma SublistEnds(tail: string, items: seq<string>, sub: string, open: bool)
    requires open ==> items != []
    ensures Items(")" + tail, items, 1, sub, open) == Items(tail, items + [sub + ")"], 0, "", open)
  {
    var t := ")" + tail;
    assert t[0] == ')' && t[1..] == tail;
  }

  lemma ItemStringRead(item: Item, tail: string, items: seq<string>)
    requires Readable(item) && !item.Sublist? && !item.Section? && Separated(tail)
    ensures Items(Print(item) + tail, items, 0, "", false) == Items(tail, items + [Value(item)], 0, "", false)
  {
    hide Items, String, Intact, HasPair;
    var s := Print(item) + tail;
    assert s[0] == Print(item)[0];
    match item {
      case Atom(text) => AtomString(text, tail);
      case Quotation(value) => QuotationParsed(value, tail);
      case Raw(value) => RawParsed(value, tail);
      case Literal(value) => LiteralString(value, tail);
    }
    StringItem(s, Value(item), tail, items);
  }

  lemma StringItem(s: string, value: string, tail: string, items: seq<string>)
    requires s != "" && s[0] !in "() []" && String(s) == Ok(value, tail)
    requires tail != "" && tail[0] != '\r' && tail[0] != '\n'
    ensures Items(s, items, 0, "", false) == Items(tail, items + [value], 0, "", false)
    ensures items != [] ==> Items(s, items, 0, "", true) == Items(tail, Extended(items, value), 0, "", true)
  {
    hide String;
    assert SkipLineBreaks(tail) == tail;
  }

  // ---------------------------------------------------------------- Sections

  /** What may follow a word of a section */
  predicate AfterWord(tail: string) {
    Starts(tail, ' ') || Starts(tail, '[') || Starts(tail, ']')
  }

  lemma AtomItem(text: string, tail: string, items: seq<string>)
    requires AtomText(text) && (AfterWord(tail) || Separated(tail))
    ensures Items(text + tail, items, 0, "", false) == Items(tail, items + [text], 0, "", false)
    ensures items != [] ==> Items(text + tail, items, 0, "", true) == Items(tail, Extended(items, text), 0, "", true)
  {
    AtomString(text, tail);
    assert (text + tail)[0] == text[0];
    hide String, Items, HasPair;
    StringItem(text + tail, text, tail, items);
  }

  lemma LastExtended(items: seq<string>, last: string, text: string)
    ensures Extended(items + [last], text) == items + [last + text]
  {
    assert (items + [last])[..|items|] == items;
  }

  lemma SpaceInside(tail: string, items: seq<string>)
    requires items != []
    ensures Items(" " + tail, items, 0, "", true) == Items(tail, items, 0, "", true)
  {
    assert (" " + tail)[0] == ' ' && (" " + tail)[1..] == tail;
  }

  lemma BracketOpens(tail: string, items: seq<string>, last: string)
    ensures Items("[" + tail, items + [last], 0, "", false) == Items(tail, items + [last + "["], 0, "", true)
  {
    LastExtended(items, last, "[");
    assert ("[" + tail)[0] == '[' && ("[" + tail)[1..] == tail && ['['] == "[";
  }

  lemma BracketCloses(tail: string, items: seq<string>, last: string)
    ensures Items("]" + tail, items + [last], 0, "", true) == Items(tail, items + [last + "]"], 0, "", false)
  {
    LastExtended(items, last, "]");
    assert ("]" + tail)[0] == ']' && ("]" + tail)[1..] == tail && [']'] == "]";
  }

  /** Words between brackets are put together without their spaces. */
  lemma {:induction false} WordsRead(words: seq<string>, tail: string, items: seq<string>, last: string)
    requires (forall i :: 0 <= i < |words| ==> AtomText(words[i])) && AfterWord(tail)
    ensures Items(SpacedWords(words) + tail, items + [last], 0, "", true)
            == Items(tail, items + [last + Concatenated(words)], 0, "", true)
  {
    hide Items, AtomText, Extended;
    if words == [] {
      assert "" + tail == tail && last + "" == last;
    } else {
      var rest := words[1..];
      assert words[0] + "" == words[0];
      LastExtended(items, last, words[0]);
      Associative(last, words[0], Concatenated(rest));
      if |words| == 1 {
        assert Concatenated(rest) == "";
        AtomItem(words[0], tail, items + [last]);
      } else {
        var more := SpacedWords(rest) + tail;
        WordsRead(rest, tail, items, last + words[0]);
        Associative(words[0], " " + SpacedWords(rest), tail);
        Associative(" ", SpacedWords(rest), tail);
        assert Starts(" " + more, ' ');
        AtomItem(words[0], " " + more, items + [last]);
        SpaceInside(more, items + [last + words[0]]);
      }
    }
  }

  /** The list between the brackets is an item of its own, to which the closing bracket is added. */
  lemma ClosingRead(fields: Option<seq<Piece>>, tail: string, items: seq<string>, last: string)
    requires fields.Some? ==> AllPlain(fields.value)
    ensures Items(FieldsPart(fields) + ("]" + tail), items + [last], 0, "", true)
            == Items(tail, items + if fields.None? then [last + "]"]
                                   else [last, ("(" + PiecesText(fields.value) + ")") + "]"], 0, "", false)
  {
    hide Items, Extended;
    if fields.None? {
      assert "" + ("]" + tail) == "]" + tail;
      BracketCloses(tail, items, last);
    } else {
      var list := "(" + PiecesText(fields.value) + ")";
      Associative(" ", list, "]" + tail);
      SpaceInside(list + ("]" + tail), items + [last]);
      SublistRead(fields.value, "]" + tail, items + [last], true);
      BracketCloses(tail, items + [last], list);
      assert (items + [last]) + [list + "]"] == items + [last, list + "]"];
    }
  }

  lemma OriginRead(origin: string, tail: string, items: seq<string>)
    requires (origin != "" ==> AtomText(origin)) && Separated(tail)
    ensures Items(origin + tail, items, 0, "", false)
            == Items(tail, items + if origin == "" then [] else [origin], 0, "", false)
  {
    hide Items, AtomText;
    if origin == "" {
      assert "" + tail == tail && items + [] == items;
    } else {
      AtomItem(origin, tail, items);
    }
  }

  lemma SectionText(item: Item, tail: string)
    requires item.Section?
    ensures Print(item) + tail
            == item.name + ("[" + (SpacedWords(item.words) + (FieldsPart(item.fields) + ("]" + (item.origin + tail)))))
  {
    var closing := "]" + item.origin;
    var inside := FieldsPart(item.fields) + closing;
    var within := SpacedWords(item.words) + inside;
    Associative(item.name, "[" + within, tail);
    Associative("[", within, tail);
    Associative(SpacedWords(item.words), inside, tail);
    Associative(FieldsPart(item.fields), closing, tail);
    Associative("]", item.origin, tail);
  }

  lemma SectionRead(item: Item, tail: string, items: seq<string>)
    requires item.Section? && Readable(item) && Separated(tail)
    ensures Items(Print(item) + tail, items, 0, "", false) == Items(tail, items + ItemValues(item), 0, "", false)
  {
    hide Items, AtomText, AllPlain, Print, Extended, PiecesText, SpacedWords, Concatenated;
    var Section(name, words, fields, origin) := item;
    var after := "]" + (origin + tail);
    var inside := FieldsPart(fields) + after;
    var head := (name + "[") + Concatenated(words);
    SectionText(item, tail);
    AtomItem(name, "[" + (SpacedWords(words) + inside), items);
    BracketOpens(SpacedWords(words) + inside, items, name);
    assert AfterWord(inside);
    WordsRead(words, inside, items, name + "[");
    ClosingRead(fields, origin + tail, items, head);
    var main := if fields.None? then [head + "]"] else [head, ("(" + PiecesText(fields.value) + ")") + "]"];
    OriginRead(origin, tail, items + main);
    Associative(items, main, if origin == "" then [] else [origin]);
  }

  /** A section is read as its own text, as one item, if and only if there is neither a space nor a list
      between its brackets, and no origin after them. */
  lemma SectionOwnText(item: Item)
    requires item.Section? && Readable(item)
    ensures ItemValues(item) == [Print(item)] <==> |item.words| <= 1 && item.fields.None? && item.origin == ""
  {
    hide PiecesText, AtomText;
    var Section(name, words, fields, origin) := item;
    SectionLengths(item);
    if |words| <= 1 && fields.None? && origin == "" {
      WordAlone(words);
      assert Print(item) == name + ("[" + (SpacedWords(words) + ("" + ("]" + ""))));
      assert ItemValues(item) == [((name + "[") + Concatenated(words)) + "]"] + [];
      assert name + ("[" + (SpacedWords(words) + ("" + ("]" + "")))) == ((name + "[") + SpacedWords(words)) + "]";
    }
  }

  lemma WordAlone(words: seq<string>)
    requires |words| <= 1
    ensures Concatenated(words) == SpacedWords(words)
  {
    if words != [] {
      assert Concatenated(words[1..]) == "" && words[0] + "" == words[0];
    }
  }

  lemma {:induction false} WordLengths(words: seq<string>)
    ensures |SpacedWords(words)| == |Concatenated(words)| + if words == [] then 0 else |words| - 1
  {
    if words != [] {
      WordLengths(words[1..]);
    }
  }

  lemma SectionLengths(item: Item)
    requires item.Section?
    ensures |item.words| > 1 && item.fields.None? && item.origin == "" ==> |Print(item)| > |ItemValues(item)[0]|
    ensures item.fields.None? && item.origin == "" ==> |ItemValues(item)| == 1
    ensures item.fields.Some? || item.origin != "" ==> |ItemValues(item)| > 1
  {
    hide PiecesText;
    WordLengths(item.words);
  }

  predicate AllReadable(items: seq<Item>) {
    forall i :: 0 <= i < |items| ==> Readable(items[i])
  }

  lemma {:induction false} ItemsRead(items: seq<Item>, rest: string, before: seq<string>)
    requires AllReadable(items)
    ensures Items(PrintItems(items) + ")" + rest, before, 0, "", false) == Ok(before + Values(items), rest)
    decreases |items|
  {
    ListCloses(rest, before);
    if items == [] {
      assert "" + ")" + rest == ")" + rest && before + [] == before;
    } else {
      hide Items, Print, ItemValues, Readable, PrintItems;
      var next := before + ItemValues(items[0]);
      ItemsRead(items[1..], rest, next);
      assert next + Values(items[1..]) == before + Values(items);
      var tail := PrintItems(items[1..]) + ")" + rest;
      PrintedCons(items, rest);
      if |items| > 1 {
        ItemRead(items[0], " " + tail, before);
        SpaceRead(tail, next);
      } else {
        ItemRead(items[0], tail, before);
      }
    }
  }

  lemma PrintedCons(items: seq<Item>, rest: string)
    requires items != []
    ensures var tail := PrintItems(items[1..]) + ")" + rest;
            PrintItems(items) + ")" + rest == Print(items[0]) + if |items| > 1 then " " + tail else tail
    ensures |items| == 1 ==> Starts(PrintItems(items[1..]) + ")" + rest, ')')
  {
    hide Print;
    var a := Print(items[0]);
    if |items| > 1 {
      Assembled(a, PrintItems(items[1..]), rest);
    } else {
      assert "" + ")" + rest == ")" + rest;
      Associative(a, ")", rest);
    }
  }

  lemma Assembled(a: string, b: string, rest: string)
    ensures (a + " " + b) + ")" + rest == a + (" " + (b + ")" + rest))
  {
  }

  lemma ListCloses(rest: string, items: seq<string>)
    ensures Items(")" + rest, items, 0, "", false) == Ok(items, rest)
  {
    assert (")" + rest)[0] == ')' && (")" + rest)[1..] == rest;
  }

  lemma SpaceRead(tail: string, items: seq<string>)
    ensures Items(" " + tail, items, 0, "", false) == Items(tail, items, 0, "", false)
  {
    assert (" " + tail)[0] == ' ' && (" " + tail)[1..] == tail;
  }

  lemma ItemRead(item: Item, tail: string, items: seq<string>)
    requires Readable(item) && Separated(tail)
    ensures Items(Print(item) + tail, items, 0, "", false) == Items(tail, items + ItemValues(item), 0, "", false)
  {
    if item.Sublist? {
      SublistRead(item.pieces, tail, items, false);
    } else if item.Section? {
      SectionRead(item, tail, items);
    } else {
      ItemStringRead(item, tail, items);
    }
  }

  /** Reading a printed list gives the values of its items, and stops right after it. */
  lemma ListReadBack(items: seq<Item>, rest: string)
    requires AllReadable(items)
    ensures ListText("(" + PrintItems(items) + ")" + rest) == Ok(Values(items), rest)
  {
    hide PrintItems, Items, Readable;
    var s := "(" + PrintItems(items) + ")" + rest;
    assert s[0] == '(' && s[1..] == PrintItems(items) + ")" + rest;
    ItemsRead(items, rest, []);
    assert [] + Values(items) == Values(items);
  }

  // ---------------------------------------------------------------- Lists that are not read back

  /** Later text may only be added to the last of the items, from a bracket on. */
  predicate Keeps(values: seq<string>, items: seq<string>, open: bool)
    requires items != []
  {
    && |values| >= |items| && values[..|items| - 1] == items[..|items| - 1]
    && Reaches(values[|items| - 1], items[|items| - 1], open)
  }

  predicate Reaches(later: string, item: string, open: bool) {
    item <= later && (open || later == item || later[|item|] == '[' || later[|item|] == ']')
  }

  lemma KeepsMore(values: seq<string>, items: seq<string>, item: string, later: bool, open: bool)
    requires items != [] && Keeps(values, items + [item], later)
    ensures Keeps(values, items, open)
  {
    assert values[..|items|] == items;
    assert values[..|items| - 1] == values[..|items|][..|items| - 1];
    assert values[|items| - 1] == values[..|items|][|items| - 1];
  }

  lemma KeepsExtended(values: seq<string>, items: seq<string>, text: string, later: bool, open: bool)
    requires items != [] && Keeps(values, Extended(items, text), later)
    requires open || Starts(text, '[') || Starts(text, ']')
    ensures Keeps(values, items, open)
  {
    var n := |items| - 1;
    assert Extended(items, text)[..n] == items[..n] && Extended(items, text)[n] == items[n] + text;
    assert items[n] + text <= values[n];
    if text != "" {
      assert values[n][|items[n]|] == (items[n] + text)[|items[n]|] == text[0];
    }
  }

  /** What was read before stays in front of the list. */
  lemma {:induction false} ItemsKeep(s: string, items: seq<string>, depth: nat, sub: string, open: bool)
    requires items != []
    ensures var r := Items(s, items, depth, sub, open); r.Ok? ==> Keeps(r.value, items, open)
    decreases |s|
  {
    if s != "" {
      var c, t := s[0], s[1..];
      if c == '[' || c == ']' {
        BracketKeeps(s, items, depth, sub, open);
      } else if c == '(' {
        ItemsKeep(t, items, depth + 1, sub + [c], open);
      } else if c == ')' {
        CloseKeeps(s, items, depth, sub, open);
      } else if c == ' ' {
        ItemsKeep(t, items, depth, Grown(depth, sub, [c]), open);
      } else if depth > 0 {
        InsideKeeps(s, items, depth, sub, open);
      } else {
        StringKeeps(s, items, open);
      }
    }
  }

  lemma {:induction false} BracketKeeps(s: string, items: seq<string>, depth: nat, sub: string, open: bool)
    requires items != [] && (Starts(s, '[') || Starts(s, ']'))
    ensures var r := Items(s, items, depth, sub, open); r.Ok? ==> Keeps(r.value, items, open)
    decreases |s|, 0
  {
    var c, t := s[0], s[1..];
    var next := Extended(items, [c]);
    ItemsKeep(t, next, depth, Grown(depth, sub, [c]), c == '[');
    var r := Items(t, next, depth, Grown(depth, sub, [c]), c == '[');
    assert r == Items(s, items, depth, sub, open);
    if r.Ok? {
      KeepsExtended(r.value, items, [c], c == '[', open);
    }
  }

  lemma {:induction false} CloseKeeps(s: string, items: seq<string>, depth: nat, sub: string, open: bool)
    requires items != [] && Starts(s, ')')
    ensures var r := Items(s, items, depth, sub, open); r.Ok? ==> Keeps(r.value, items, open)
    decreases |s|, 0
  {
    var c, t := s[0], s[1..];
    if depth == 1 {
      ItemsKeep(t, items + [sub + [c]], 0, "", open);
      var r := Items(t, items + [sub + [c]], 0, "", open);
      assert r == Items(s, items, depth, sub, open);
      if r.Ok? {
        KeepsMore(r.value, items, sub + [c], open, open);
      }
    } else if depth > 1 {
      ItemsKeep(t, items, depth - 1, sub + [c], open);
    }
  }

  lemma {:induction false} InsideKeeps(s: string, items: seq<string>, depth: nat, sub: string, open: bool)
    requires items != [] && depth > 0 && s != "" && s[0] !in "() []"
    ensures var r := Items(s, items, depth, sub, open); r.Ok? ==> Keeps(r.value, items, open)
    decreases |s|, 0
  {
    var c, t := s[0], s[1..];
    if c != '"' {
      ItemsKeep(t, items, depth, sub + [c], open);
    } else if CloseQuote(t).Some? {
      var end := CloseQuote(t).value;
      ItemsKeep(t[end + 1..], items, depth, sub + s[..end + 2], open);
    }
  }

  lemma {:induction false} StringKeeps(s: string, items: seq<string>, open: bool)
    requires items != [] && s != "" && s[0] !in "() []"
    ensures var r := Items(s, items, 0, "", open); r.Ok? ==> Keeps(r.value, items, open)
    decreases |s|, 0
  {
    hide String, Keeps;
    StringShortens(s);
    if String(s).Ok? {
      var value, rest := String(s).value, SkipLineBreaks(String(s).rest);
      var next := if open then Extended(items, value) else items + [value];
      ItemsKeep(rest, next, 0, "", open);
      var r := Items(rest, next, 0, "", open);
      assert r == Items(s, items, 0, "", open);
      if r.Ok? && open {
        KeepsExtended(r.value, items, value, open, open);
      } else if r.Ok? {
        KeepsMore(r.value, items, value, open, open);
      }
    }
  }

  /** A raw value that is not intact is missing from the list. */
  lemma RawLost(value: string, tail: string, before: seq<string>, after: seq<string>, rest: string)
    requires !Intact(value)
    ensures Items(Print(Raw(value)) + tail, before, 0, "", false) != Ok(before + ([value] + after), rest)
  {
    var s := Print(Raw(value)) + tail;
    assert s[0] == '"';
    RawParsed(value, tail);
    StringShortens(s);
    hide String, Intact, Apart;
    if String(s).Ok? {
      var next := before + [String(s).value];
      var text := SkipLineBreaks(String(s).rest);
      assert Items(s, before, 0, "", false) == Items(text, next, 0, "", false);
      ItemsKeep(text, next, 0, "", false);
      var r := Items(text, next, 0, "", false);
      if r.Ok? {
        KeptApart(r.value, next, value);
        assert (before + ([value] + after))[|next| - 1] == value;
      }
    }
  }

  lemma KeptApart(values: seq<string>, items: seq<string>, value: string)
    requires items != [] && Keeps(values, items, false) && Apart(items[|items| - 1], value)
    ensures values[|items| - 1] != value
  {
    var x := items[|items| - 1];
    var j :| 0 <= j < |value| && DiffersAt(x, value, j);
    assert j < |x| ==> values[|items| - 1][j] == x[j];
  }

  // ---------------------------------------------------------------- Brackets in sublists

  /** Nothing but brackets that the reader would take for something else */
  predicate LooseText(text: string) {
    forall i :: 0 <= i < |text| ==> text[i] !in "()\""
  }

  predicate Loose(pieces: seq<Piece>) {
    forall i :: 0 <= i < |pieces| ==>
      match pieces[i]
      case Plain(text) => LooseText(text)
      case Quote(_) => true
      case LiteralPiece(value) => LooseText(value)
      case Nested(inner) => Loose(inner)
  }

  /** The last of the items before, or the first one of all, has got a bracket. */
  predicate Disturbed(values: seq<string>, items: seq<string>) {
    if items == [] then values != [] && Starts(values[0], '[')
    else |values| >= |items| && |values[|items| - 1]| > |items[|items| - 1]|
  }

  /** A bracket in a sublist is added to the item before the sublist as well. */
  lemma BracketHere(s: string, items: seq<string>, depth: nat, sub: string)
    requires (Starts(s, '[') || Starts(s, ']')) && depth > 0
    ensures var r := Items(s, items, depth, sub, false); r.Ok? ==> Disturbed(r.value, items)
  {
    var c, t := s[0], s[1..];
    BracketStep(s, items, depth, sub);
    hide Items, Keeps;
    if items != [] || c == '[' {
      var was := if items == [] then [""] else items;
      ItemsKeep(t, Extended(was, [c]), depth, sub + [c], c == '[');
      var r := Items(t, Extended(was, [c]), depth, sub + [c], c == '[');
      if r.Ok? {
        LastKept(r.value, was, c, c == '[');
      }
    }
  }

  lemma BracketStep(s: string, items: seq<string>, depth: nat, sub: string)
    requires (Starts(s, '[') || Starts(s, ']')) && depth > 0
    ensures Items(s, items, depth, sub, false) ==
              if items == [] && s[0] == ']' then Undefined
              else Items(s[1..], Extended(if items == [] then [""] else items, [s[0]]), depth, sub + [s[0]],
                         s[0] == '[')
  {
  }

  lemma LastKept(values: seq<string>, items: seq<string>, c: char, open: bool)
    requires items != [] && Keeps(values, Extended(items, [c]), open)
    ensures |values| >= |items| && items[|items| - 1] + [c] <= values[|items| - 1]
  {
  }

  lemma {:induction false} LooseLost(text: string, tail: string, items: seq<string>, depth: nat, sub: string)
    requires LooseText(text) && !Ordinary(text) && depth > 0
    ensures var r := Items(text + tail, items, depth, sub, false); r.Ok? ==> Disturbed(r.value, items)
    decreases |text|
  {
    assert text == [text[0]] + text[1..] && (text + tail)[1..] == text[1..] + tail;
    if text[0] == '[' || text[0] == ']' {
      BracketHere(text + tail, items, depth, sub);
    } else {
      LooseLost(text[1..], tail, items, depth, sub + [text[0]]);
    }
  }

  lemma CountedLoose(value: string)
    requires LooseText(value)
    ensures LooseText(Counted(value)) && (Ordinary(Counted(value)) ==> Ordinary(value))
  {
    var head := "{" + Decimal(|value|) + "}\r\n";
    assert forall i :: 0 <= i < |value| ==> Counted(value)[|head| + i] == value[i];
  }

  lemma {:induction false} PieceLost(piece: Piece, tail: string, items: seq<string>, depth: nat, sub: string)
    requires Loose([piece]) && !AllPlain([piece]) && depth > 0
    ensures var r := Items(PieceText(piece) + tail, items, depth, sub, false); r.Ok? ==> Disturbed(r.value, items)
    decreases piece, 0
  {
    var whole := [piece];
    assert whole[0] == piece;
    match piece
    case Plain(text) => LooseLost(text, tail, items, depth, sub);
    case Quote(_) =>
    case LiteralPiece(value) =>
      CountedLoose(value);
      LooseLost(Counted(value), tail, items, depth, sub);
    case Nested(inner) =>
      InnerLost(inner, tail, items, depth, sub);
  }

  lemma {:induction false} InnerLost(inner: seq<Piece>, tail: string, items: seq<string>, depth: nat, sub: string)
    requires Loose(inner) && !AllPlain(inner)
    ensures var r := Items("(" + PiecesText(inner) + ")" + tail, items, depth, sub, false);
            r.Ok? ==> Disturbed(r.value, items)
    decreases inner, 1
  {
    var s := "(" + PiecesText(inner) + ")" + tail;
    assert s[0] == '(' && s[1..] == PiecesText(inner) + (")" + tail);
    PiecesLost(inner, ")" + tail, items, depth + 1, sub + "(");
  }

  lemma {:induction false} PiecesLost(pieces: seq<Piece>, tail: string, items: seq<string>, depth: nat, sub: string)
    requires Loose(pieces) && !AllPlain(pieces) && depth > 0
    ensures var r := Items(PiecesText(pieces) + tail, items, depth, sub, false); r.Ok? ==> Disturbed(r.value, items)
    decreases pieces, 0
  {
    var first, rest := PieceText(pieces[0]), PiecesText(pieces[1..]);
    FirstPiece(pieces);
    Associative(first, rest, tail);
    if AllPlain([pieces[0]]) {
      PieceRead(pieces[0], rest + tail, items, depth, sub, false);
      PiecesLost(pieces[1..], tail, items, depth, sub + first);
    } else {
      PieceLost(pieces[0], rest + tail, items, depth, sub);
    }
  }

  lemma FirstPiece(pieces: seq<Piece>)
    requires pieces != []
    ensures AllPlain(pieces) <==> AllPlain([pieces[0]]) && AllPlain(pieces[1..])
    ensures Loose(pieces) ==> Loose([pieces[0]]) && Loose(pieces[1..])
  {
    assert pieces == [pieces[0]] + pieces[1..];
    assert [pieces[0]][0] == pieces[0];
    assert forall i :: 0 <= i < |pieces| - 1 ==> pieces[1..][i] == pieces[i + 1];
  }

  lemma SublistLost(pieces: seq<Piece>, tail: string, before: seq<string>, after: seq<string>, rest: string)
    requires Loose(pieces) && !AllPlain(pieces)
    ensures Items(Print(Sublist(pieces)) + tail, before, 0, "", false)
         != Ok(before + ([Print(Sublist(pieces))] + after), rest)
  {
    InnerLost(pieces, tail, before, 0, "");
    hide Items, AllPlain, Loose;
    var wanted := before + ([Print(Sublist(pieces))] + after);
    if before == [] {
      assert wanted[0] == Print(Sublist(pieces));
    } else {
      assert wanted[|before| - 1] == before[|before| - 1];
    }
  }

  // ---------------------------------------------------------------- Which lists are read back

  /** Raw values and brackets in sublists may keep the items from being read back. */
  predicate AllFit(items: seq<Item>) {
    forall i :: 0 <= i < |items| ==> Fit(items[i])
  }

  predicate Fit(item: Item) {
    item.Raw? || Readable(item) || (item.Sublist? && Loose(item.pieces))
  }

  lemma {:induction false} ItemsReadExactly(items: seq<Item>, rest: string, before: seq<string>)
    requires AllFit(items)
    ensures Items(PrintItems(items) + ")" + rest, before, 0, "", false) == Ok(before + Values(items), rest)
            <==> AllReadable(items)
    decreases |items|
  {
    hide Items, Print, Readable, PrintItems, AllReadable, ItemValues, Fit;
    if items == [] {
      NoItemsLeft();
      ItemsRead(items, rest, before);
    } else {
      var tail := PrintItems(items[1..]) + ")" + rest;
      var next := before + ItemValues(items[0]);
      FirstReadable(items);
      PrintedCons(items, rest);
      ItemsReadExactly(items[1..], rest, next);
      Associative(before, ItemValues(items[0]), Values(items[1..]));
      assert Values(items) == ItemValues(items[0]) + Values(items[1..]);
      if !Readable(items[0]) {
        ItemLost(items[0], if |items| > 1 then " " + tail else tail, before, Values(items[1..]), rest);
      } else if |items| > 1 {
        ItemRead(items[0], " " + tail, before);
        SpaceRead(tail, next);
      } else {
        ItemRead(items[0], tail, before);
      }
    }
  }

  lemma NoItemsLeft()
    ensures AllReadable([])
  {
  }

  lemma ItemLost(item: Item, tail: string, before: seq<string>, after: seq<string>, rest: string)
    requires Fit(item) && !Readable(item)
    ensures Items(Print(item) + tail, before, 0, "", false) != Ok(before + (ItemValues(item) + after), rest)
  {
    hide Items, AllPlain, Loose;
    if item.Raw? {
      RawLost(item.value, tail, before, after, rest);
    } else {
      SublistLost(item.pieces, tail, before, after, rest);
    }
  }

  lemma FirstReadable(items: seq<Item>)
    requires items != []
    ensures AllReadable(items) <==> Readable(items[0]) && AllReadable(items[1..])
  {
    hide Readable;
    assert items == [items[0]] + items[1..];
  }

  /** A printed list is read back if and only if its raw values are intact and its sublists have no
      brackets outside their quoted strings. */
  lemma ListReadBackExactly(items: seq<Item>, rest: string)
    requires AllFit(items)
    ensures ListText("(" + PrintItems(items) + ")" + rest) == Ok(Values(items), rest) <==> AllReadable(items)
  {
    hide PrintItems, Items, Readable;
    var s := "(" + PrintItems(items) + ")" + rest;
    assert s[0] == '(' && s[1..] == PrintItems(items) + ")" + rest;
    ItemsReadExactly(items, rest, []);
    assert [] + Values(items) == Values(items);
  }

  /** The parser does so too, wherever it trims its buffer. */
  method ReadPrintedList(parser: ImapStreamParser, ghost items: seq<Item>, ghost rest: string)
      returns (ok: bool, values: seq<string>)
    requires parser.Buffered() && AllReadable(items) && parser.Rest() == "(" + PrintItems(items) + ")" + rest
    modifies parser
    ensures ok && parser.Buffered() && values == Values(items) && parser.Rest() == rest
  {
    ListReadBack(items, rest);
    ok, values := parser.ReadParenthesizedList();
  }
}
