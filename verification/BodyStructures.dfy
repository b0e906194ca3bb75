/** The BODYSTRUCTURE of a message: its text after section 7.4.2 of RFC 3501, and the recursive descent
    that builds the tree of parts from it. */
module BodyStructures {
  import opened Bits
  import opened Decimals
  import opened FolderNameCodec
  import opened ListReading
  import opened QuotedStrings
  import opened StreamParser
  import opened StreamText

  // ---------------------------------------------------------------- The text of a body structure

  /** A string, quoted or as a literal, or NIL or a number */
  datatype Word = InQuotes(value: string) | Bare(text: string) | LiteralWord(value: string)

  /** A field of a part: a word, or a list with anything in it, also an envelope or a whole body */
  datatype Field = Simple(word: Word) | Group(pieces: seq<Piece>)

  /** Whatever fields and extension data follow the types. The body inside a message part is one of them. */
  datatype Body =
    | Part(mainType: Word, subType: Word, fields: seq<Field>)
    | Multipart(parts: seq<Body>, subType: Word, fields: seq<Field>)

  function WordText(word: Word): string {
    match word
    case InQuotes(value) => "\"" + Quoted(value) + "\""
    case Bare(text) => text
    case LiteralWord(value) => Counted(value)
  }

  function FieldText(field: Field): string {
    match field
    case Simple(word) => WordText(word)
    case Group(pieces) => "(" + PiecesText(pieces) + ")"
  }

  function FieldsText(fields: seq<Field>): string {
    if fields == [] then "" else " " + FieldText(fields[0]) + FieldsText(fields[1..])
  }

  function BodyText(body: Body): string {
    match body
    case Part(mainType, subType, fields) =>
      "(" + WordText(mainType) + " " + WordText(subType) + FieldsText(fields) + ")"
    case Multipart(parts, subType, fields) =>
      "(" + BodiesText(parts) + " " + WordText(subType) + FieldsText(fields) + ")"
  }

  function BodiesText(bodies: seq<Body>): string {
    if bodies == [] then "" else BodyText(bodies[0]) + BodiesText(bodies[1..])
  }

  predicate FineWord(word: Word) {
    word.Bare? ==> word.text != "" && forall i :: 0 <= i < |word.text| ==> !EndsAtom(word.text[i])
  }

  /** Balanced, and without line breaks outside of quoted strings and literals */
  predicate Tame(pieces: seq<Piece>) {
    forall i :: 0 <= i < |pieces| ==>
      match pieces[i]
      case Plain(text) => Unbroken(text)
      case Quote(_) => true
      case LiteralPiece(_) => true
      case Nested(inner) => Tame(inner)
  }

  predicate Unbroken(text: string) {
    forall i :: 0 <= i < |text| ==> text[i] !in "()[]\"\r\n"
  }

  predicate FineFields(fields: seq<Field>) {
    forall i :: 0 <= i < |fields| ==>
      match fields[i]
      case Simple(word) => FineWord(word)
      case Group(pieces) => Tame(pieces)
  }

  predicate BodyWellFormed(body: Body) {
    match body
    case Part(mainType, subType, fields) => FineWord(mainType) && FineWord(subType) && FineFields(fields)
    case Multipart(parts, subType, fields) =>
      parts != [] && FineWord(subType) && FineFields(fields)
      && forall i :: 0 <= i < |parts| ==> BodyWellFormed(parts[i])
  }

  // ---------------------------------------------------------------- Literals anywhere in it

  predicate PiecesCounted(pieces: seq<Piece>) {
    pieces != [] && (PieceCounted(pieces[0]) || PiecesCounted(pieces[1..]))
  }

  predicate PieceCounted(piece: Piece) {
    piece.LiteralPiece? || (piece.Nested? && PiecesCounted(piece.pieces))
  }

  predicate FieldCounted(field: Field) {
    match field
    case Simple(word) => word.LiteralWord?
    case Group(pieces) => PiecesCounted(pieces)
  }

  predicate FieldsCounted(fields: seq<Field>) {
    fields != [] && (FieldCounted(fields[0]) || FieldsCounted(fields[1..]))
  }

  predicate HasLiteral(body: Body) {
    match body
    case Part(mainType, subType, fields) => mainType.LiteralWord? || subType.LiteralWord? || FieldsCounted(fields)
    case Multipart(parts, subType, fields) => HaveLiteral(parts) || subType.LiteralWord? || FieldsCounted(fields)
  }

  predicate HaveLiteral(bodies: seq<Body>) {
    bodies != [] && (HasLiteral(bodies[0]) || HaveLiteral(bodies[1..]))
  }

  // ---------------------------------------------------------------- The tree of parts

  datatype Content = Content(mimeType: string, children: seq<Content>)

  const EMPTY := Content("", [])

  /** A word as it is read */
  function WordRead(word: Word): string {
    match word
    case InQuotes(value) => Unescaped(Quoted(value))
    case Bare(text) => if text == "NIL" then "" else Unescaped(text)
    case LiteralWord(value) => value
  }

  /** The tree that the text describes */
  function Tree(body: Body): Content {
    match body
    case Part(mainType, subType, _) => Content(WordRead(mainType) + "/" + WordRead(subType), [])
    case Multipart(parts, subType, _) => Content("MULTIPART/" + WordRead(subType), Trees(parts))
  }

  function Trees(bodies: seq<Body>): (trees: seq<Content>)
    ensures |trees| == |bodies|
  {
    if bodies == [] then [] else [Tree(bodies[0])] + Trees(bodies[1..])
  }

  /** A quoted type or subtype is read as it is, unless it has a backslash before a backslash or a quote. */
  lemma WordReadExactly(value: string)
    ensures WordRead(InQuotes(value)) == value <==> !HasPair(value, '\\', '\\') && !HasPair(value, '\\', '"')
  {
    QuotedReadBackExactly(value);
  }

  // ---------------------------------------------------------------- What the parser does with a text

  /** A value and the text after it; a loop that comes back to the same position, and so never ends; or
      reading past the end of the text */
  datatype Outcome<T> = Done(value: T, rest: string) | Endless | Overrun {
    predicate IsFailure() {
      !Done?
    }

    function PropagateFailure<U>(): Outcome<U>
      requires IsFailure()
    {
      if Endless? then Endless else Overrun
    }

    function Extract(): (T, string)
      requires !IsFailure()
    {
      (value, rest)
    }
  }

  /** A string, an atom, or nothing in front of a parenthesis */
  function StringRead(s: string): (r: Outcome<string>)
    ensures r.Done? ==> |r.rest| <= |s|
    ensures !r.Endless?
  {
    var t := SkipSpaces(s);
    match QuotedOrAtom(s)
    case Ok(value, rest) => Done(if |t| - |rest| == 3 && t[..3] == "NIL" then "" else value, rest)
    case _ => Overrun
  }

  /** The rest of a list, `depth` lists deep */
  function GroupRead(s: string, depth: nat): (r: Outcome<()>)
    requires depth > 0
    ensures r.Done? ==> |r.rest| <= |s|
    decreases |s|
  {
    if s == "" then Done((), s)
    else if s[0] == '(' || s[0] == '[' then GroupRead(s[1..], depth + 1)
    else if s[0] == ')' || s[0] == ']' then if depth == 1 then Done((), s[1..]) else GroupRead(s[1..], depth - 1)
    else
      var (_, rest) :- StringRead(SkipSpaces(s));
      if |SkipSpaces(rest)| < |s| then GroupRead(SkipSpaces(rest), depth) else Endless
  }

  /** The next string, or the text of the next list */
  function SentenceRead(s: string): (r: Outcome<string>)
    ensures r.Done? ==> |r.rest| <= |s|
  {
    var t := SkipSpaces(s);
    if !Starts(t, '(') then StringRead(t)
    else
      var (_, rest) :- GroupRead(t[1..], 1);
      Done(t[..|t| - |rest|], rest)
  }

  /** The loop that consumes what is left of a part */
  function ConsumeRead(s: string): (r: Outcome<()>)
    ensures r.Done? ==> |r.rest| <= |s| && (r.rest == "" || r.rest[0] == ')')
    decreases |s|
  {
    if s == "" || s[0] == ')' then Done((), s)
    else
      var (_, rest) :- SentenceRead(SkipSpaces(s));
      if |SkipSpaces(rest)| < |s| then ConsumeRead(SkipSpaces(rest)) else Endless
  }

  /** What follows the types of a part: its parameters, id, description, encoding, size and number of
      lines, its disposition, and all the rest */
  function FieldsRead(s: string): (r: Outcome<()>)
    ensures r.Done? ==> |r.rest| <= |s|
  {
    var (_, s1) :- SentenceRead(s);
    var (_, s2) :- StringRead(s1);
    var (_, s3) :- StringRead(s2);
    var (_, s4) :- StringRead(s3);
    var (_, s5) :- StringRead(s4);
    var (_, s6) :- StringRead(s5);
    var (_, s7) :- SentenceRead(s6);
    ConsumeRead(s7)
  }

  function PartRead(s: string): (r: Outcome<Content>)
    ensures r.Done? ==> |r.rest| <= |s|
  {
    if !Starts(s, '(') then Done(EMPTY, s)
    else
      var (mainType, s1) :- StringRead(s[1..]);
      var (subType, s2) :- StringRead(s1);
      var (_, s3) :- FieldsRead(s2);
      Done(Content(mainType + "/" + subType, []), s3)
  }

  /** The subtype of a multipart, its parameters, disposition and language, and all the rest */
  function ExtensionRead(s: string): (r: Outcome<string>)
    ensures r.Done? ==> |r.rest| <= |s|
  {
    var (subType, s1) :- StringRead(s);
    var (_, s2) :- SentenceRead(s1);
    var (_, s3) :- SentenceRead(s2);
    var (_, s4) :- SentenceRead(s3);
    var (_, s5) :- ConsumeRead(s4);
    Done(subType, s5)
  }

  /** One step past what is consumed */
  function Closing(content: Content, s: string): (r: Outcome<Content>)
    ensures r.Done? ==> |r.rest| < |s|
  {
    var (_, rest) :- ConsumeRead(s);
    if rest == "" then Overrun else Done(content, rest[1..])
  }

  /** A body structure */
  function StructureRead(s: string): (r: Outcome<Content>)
    ensures r.Done? ==> |r.rest| <= |s| && (Starts(s, '(') ==> |r.rest| < |s|)
    decreases |s|, 0
  {
    var t := SkipSpaces(s);
    if !Starts(t, '(') then Done(EMPTY, t)
    else if !Starts(t[1..], '(') then
      var (content, s1) :- PartRead(t);
      Closing(content, s1)
    else
      var (children, s1) :- ChildrenRead(t[1..]);
      var (subType, s2) :- ExtensionRead(s1);
      Closing(Content("MULTIPART/" + subType, children), s2)
  }

  function ChildrenRead(s: string): (r: Outcome<seq<Content>>)
    ensures r.Done? ==> |r.rest| <= |s|
    decreases |s|, 1
  {
    if !Starts(s, '(') then Done([], s)
    else
      var (child, s1) :- StructureRead(s);
      var (children, s2) :- ChildrenRead(s1);
      Done([child] + children, s2)
  }

  // ---------------------------------------------------------------- The parser: strings and sentences

  method SkipLeadingSpaces(structure: string, pos0: nat) returns (pos: nat)
    requires pos0 <= |structure|
    ensures pos0 <= pos <= |structure| && structure[pos..] == SkipSpaces(structure[pos0..])
  {
    pos := pos0;
    while pos < |structure| && structure[pos] == ' '
      invariant pos0 <= pos <= |structure| && SkipSpaces(structure[pos..]) == SkipSpaces(structure[pos0..])
      decreases |structure| - pos
    {
      assert structure[pos..][1..] == structure[pos + 1..];
      pos := pos + 1;
    }
  }

  method ParseString(structure: string, pos0: nat) returns (pos: nat, result: string)
    requires pos0 <= |structure| && StringRead(structure[pos0..]).Done?
    ensures pos0 <= pos <= |structure| && StringRead(structure[pos0..]) == Done(result, structure[pos..])
  {
    pos := SkipLeadingSpaces(structure, pos0);
    StringAfterSpaces(structure[pos0..]);
    hide StringRead;
    if structure[pos] == '"' {
      pos, result := ParseQuoted(structure, pos);
    } else {
      pos, result := ParseUnquoted(structure, pos);
    }
  }

  lemma StringAfterSpaces(s: string)
    requires StringRead(s).Done?
    ensures var t := SkipSpaces(s); t != "" && t[0] != ' ' && StringRead(t) == StringRead(s)
  {
    assert SkipSpaces(SkipSpaces(s)) == SkipSpaces(s);
  }

  method ParseQuoted(structure: string, start: nat) returns (pos: nat, result: string)
    requires start < |structure| && structure[start] == '"' && StringRead(structure[start..]).Done?
    ensures start <= pos <= |structure| && StringRead(structure[start..]) == Done(result, structure[pos..])
  {
    ghost var s := structure[start..];
    StringQuoted(s);
    assert s[1..] == structure[start + 1..];
    hide StringRead, CloseQuote, Noticed;
    var foundSlash;
    pos, foundSlash := FindQuote(structure, start + 1);
    result := structure[start + 1..pos];
    Parts(structure, start + 1, pos, s[1..]);
    NoticedSlash(structure, start + 1, pos, foundSlash);
    result := Unescape(result, foundSlash);
    pos := pos + 1;
  }

  method FindQuote(structure: string, start: nat) returns (pos: nat, foundSlash: bool)
    requires start <= |structure| && CloseQuote(structure[start..]).Some?
    ensures pos == start + CloseQuote(structure[start..]).value && Noticed(structure, start, pos, foundSlash)
  {
    hide CloseQuote, Scanned, Noticed;
    pos, foundSlash := start, false;
    ScanStart(structure, pos);
    while true
      invariant Scanned(structure, start, pos) && Noticed(structure, start, pos, foundSlash)
      decreases |structure| + 1 - pos
    {
      ScanBound(structure, start, pos);
      ScanStep(structure, start, pos);
      NoticeStep(structure, start, pos, foundSlash);
      if structure[pos] == '\\' {
        pos := pos + 2;
        foundSlash := true;
        continue;
      }
      if structure[pos] == '"' {
        break;
      }
      pos := pos + 1;
    }
  }

  lemma StringQuoted(s: string)
    requires Starts(s, '"') && StringRead(s).Done?
    ensures CloseQuote(s[1..]).Some?
    ensures var end := CloseQuote(s[1..]).value; StringRead(s) == Done(Unescaped(s[1..][..end]), s[1..][end + 1..])
  {
    QuotedHere(s);
    assert SkipSpaces(s) == s;
  }

  method ParseUnquoted(structure: string, start: nat) returns (pos: nat, result: string)
    requires start < |structure| && structure[start] != '"' && structure[start] != ' '
    requires StringRead(structure[start..]).Done?
    ensures start <= pos <= |structure| && StringRead(structure[start..]) == Done(result, structure[pos..])
  {
    ghost var s := structure[start..];
    StringUnquoted(s);
    hide StringRead, AtomEnd, Noticed;
    var foundSlash;
    pos, foundSlash := FindEnd(structure, start);
    result := structure[start..pos];
    Parts(structure, start, pos, s);
    NoticedSlash(structure, start, pos, foundSlash);
    if result == "NIL" {
      result := "";
    } else {
      result := Unescape(result, foundSlash);
    }
  }

  method FindEnd(structure: string, start: nat) returns (pos: nat, foundSlash: bool)
    requires start <= |structure| && AtomEnd(structure[start..]).Some?
    ensures pos == start + AtomEnd(structure[start..]).value && Noticed(structure, start, pos, foundSlash)
  {
    hide AtomEnd, Noticed;
    pos, foundSlash := start, false;
    ScanStart(structure, pos);
    while true
      invariant AtomScanned(structure, start, pos) && Noticed(structure, start, pos, foundSlash)
      decreases |structure| - pos
    {
      AtomStep(structure, start, pos);
      if EndsAtom(structure[pos]) {
        break;
      }
      NoticeStep(structure, start, pos, foundSlash);
      if structure[pos] == '\\' {
        foundSlash := true;
      }
      pos := pos + 1;
    }
  }

  lemma StringUnquoted(s: string)
    requires s != "" && s[0] != ' ' && s[0] != '"' && StringRead(s).Done?
    ensures AtomEnd(s).Some?
    ensures var end := AtomEnd(s).value;
            StringRead(s) == Done(if s[..end] == "NIL" then "" else Unescaped(s[..end]), s[end..])
  {
    UnquotedHere(s);
    assert SkipSpaces(s) == s;
  }

  method ParseSentence(structure: string, pos0: nat) returns (pos: nat, result: string)
    requires pos0 <= |structure| && SentenceRead(structure[pos0..]).Done?
    ensures pos0 <= pos <= |structure| && SentenceRead(structure[pos0..]) == Done(result, structure[pos..])
  {
    hide StringRead, GroupRead;
    pos := SkipLeadingSpaces(structure, pos0);
    if At(structure, pos) != '(' {
      SpacesSkipped(structure[pos0..]);
      pos, result := ParseString(structure, pos);
      return;
    }
    var start := pos;
    GroupStart(structure, start);
    ghost var goal := GroupRead(structure[start + 1..], 1);
    var stack := 0;
    while true
      invariant start <= pos <= |structure| && 0 <= stack
      invariant if stack == 0 then pos == start < |structure|
                else GroupRead(structure[pos..], stack) == goal && pos < |structure|
      decreases |structure| - pos
    {
      if stack > 0 {
        GroupByStep(structure[pos..], stack);
      }
      pos, stack := GroupOnce(structure, pos, stack);
      if !(pos < |structure| && stack != 0) {
        break;
      }
    }
    if stack != 0 {
      GroupOver(structure[pos..], stack);
    }
    result := structure[start..pos];
    Slice(structure, start, pos);
    ListSentence(structure[pos0..]);
  }

  lemma Slice(structure: string, start: nat, end: nat)
    requires start <= end <= |structure|
    ensures structure[start..][..end - start] == structure[start..end]
  {
  }

  lemma ListSentence(s: string)
    requires Starts(SkipSpaces(s), '(')
    ensures var t := SkipSpaces(s); var r := GroupRead(t[1..], 1);
            r.Done? ==> SentenceRead(s) == Done(t[..|t| - |r.rest|], r.rest)
  {
    hide GroupRead;
  }

  lemma SpacesSkipped(s: string)
    ensures SkipSpaces(SkipSpaces(s)) == SkipSpaces(s)
    ensures SentenceRead(s)
            == if Starts(SkipSpaces(s), '(') then SentenceRead(SkipSpaces(s)) else StringRead(SkipSpaces(s))
  {
  }

  lemma GroupStart(structure: string, start: nat)
    requires start < |structure|
    ensures structure[start..][1..] == structure[start + 1..] && structure[start..][0] == structure[start]
  {
  }

  lemma GroupOver(s: string, stack: nat)
    requires s == "" && stack > 0
    ensures GroupRead(s, stack) == Done((), s)
  {
  }

  /** One iteration of the loop over a list: the depth after it, and the text that is left */
  function GroupStepped(s: string, depth: nat): (r: Outcome<nat>)
    requires s != "" && (depth > 0 || s[0] == '(')
    ensures r.Done? ==> |r.rest| <= |s|
    ensures !r.Endless?
  {
    if s[0] == '(' || s[0] == '[' then Done(depth + 1, s[1..])
    else if s[0] == ')' || s[0] == ']' then Done(depth - 1, s[1..])
    else
      var (_, rest) :- StringRead(SkipSpaces(s));
      Done(depth, SkipSpaces(rest))
  }

  /** The body of the loop, in any text */
  method GroupOnce(structure: string, pos0: nat, stack0: nat) returns (pos: nat, stack: nat)
    requires pos0 < |structure| && (stack0 > 0 || structure[pos0] == '(')
    requires GroupStepped(structure[pos0..], stack0).Done?
    ensures pos0 <= pos <= |structure| && GroupStepped(structure[pos0..], stack0) == Done(stack, structure[pos..])
  {
    hide StringRead;
    pos, stack := pos0, stack0;
    GroupStart(structure, pos);
    if structure[pos] == '(' || structure[pos] == '[' {
      pos := pos + 1;
      stack := stack + 1;
    } else if structure[pos] == ')' || structure[pos] == ']' {
      pos := pos + 1;
      stack := stack - 1;
    } else {
      pos := SkipLeadingSpaces(structure, pos);
      var ignored;
      pos, ignored := ParseString(structure, pos);
      pos := SkipLeadingSpaces(structure, pos);
    }
  }

  lemma GroupByStep(s: string, depth: nat)
    requires s != "" && depth > 0
    ensures var r := GroupStepped(s, depth);
            GroupRead(s, depth) ==
              if !r.Done? then Overrun
              else if r.value == 0 then Done((), r.rest)
              else if |r.rest| < |s| then GroupRead(r.rest, r.value) else Endless
  {
    hide GroupRead, StringRead, SkipSpaces;
    if s[0] == '(' || s[0] == '[' || s[0] == ')' || s[0] == ']' {
      GroupBracket(s, depth);
    } else {
      GroupText(s, depth);
    }
  }

  lemma GroupBracket(s: string, depth: nat)
    requires s != "" && depth > 0 && (s[0] == '(' || s[0] == '[' || s[0] == ')' || s[0] == ']')
    ensures GroupRead(s, depth) ==
              if s[0] == '(' || s[0] == '[' then GroupRead(s[1..], depth + 1)
              else if depth == 1 then Done((), s[1..]) else GroupRead(s[1..], depth - 1)
  {
    hide StringRead, SkipSpaces;
  }

  lemma GroupText(s: string, depth: nat)
    requires s != "" && depth > 0 && s[0] != '(' && s[0] != '[' && s[0] != ')' && s[0] != ']'
    ensures var r := StringRead(SkipSpaces(s));
            GroupRead(s, depth) ==
              if !r.Done? then Overrun
              else if |SkipSpaces(r.rest)| < |s| then GroupRead(SkipSpaces(r.rest), depth) else Endless
  {
    hide StringRead, SkipSpaces;
  }

  // ---------------------------------------------------------------- The parser: parts

  /** Consumes what is left: sentences up to the next closing parenthesis. */
  method ConsumeRest(structure: string, pos0: nat) returns (pos: nat)
    requires pos0 <= |structure| && ConsumeRead(structure[pos0..]).Done?
    ensures pos0 <= pos <= |structure| && ConsumeRead(structure[pos0..]) == Done((), structure[pos..])
  {
    hide SentenceRead, SkipSpaces;
    pos := pos0;
    while pos < |structure| && structure[pos] != ')'
      invariant pos0 <= pos <= |structure| && ConsumeRead(structure[pos..]) == ConsumeRead(structure[pos0..])
      decreases |structure| - pos
    {
      ConsumeByStep(structure[pos..]);
      pos := ConsumeOnce(structure, pos);
    }
  }

  predicate Consuming(s: string) {
    s != "" && s[0] != ')'
  }

  /** One iteration of the loop that consumes what is left */
  function ConsumeStepped(s: string): (r: Outcome<()>)
    ensures r.Done? ==> |r.rest| <= |s|
  {
    var (_, rest) :- SentenceRead(SkipSpaces(s));
    Done((), SkipSpaces(rest))
  }

  /** The body of the loop, in any text */
  method ConsumeOnce(structure: string, pos0: nat) returns (pos: nat)
    requires pos0 <= |structure| && ConsumeStepped(structure[pos0..]).Done?
    ensures pos0 <= pos <= |structure| && ConsumeStepped(structure[pos0..]) == Done((), structure[pos..])
  {
    hide SentenceRead, SkipSpaces;
    pos := SkipLeadingSpaces(structure, pos0);
    var ignored;
    pos, ignored := ParseSentence(structure, pos);
    pos := SkipLeadingSpaces(structure, pos);
  }

  lemma ConsumeByStep(s: string)
    requires Consuming(s)
    ensures ConsumeRead(s) ==
              match ConsumeStepped(s)
              case Done(_, t) => if |t| < |s| then ConsumeRead(t) else Endless
              case Endless => Endless
              case Overrun => Overrun
  {
    hide SentenceRead, SkipSpaces;
  }

  method ParseFields(structure: string, pos0: nat) returns (pos: nat)
    requires pos0 <= |structure| && FieldsRead(structure[pos0..]).Done?
    ensures pos0 <= pos <= |structure| && FieldsRead(structure[pos0..]) == Done((), structure[pos..])
  {
    hide SentenceRead, StringRead, ConsumeRead;
    var ignored;
    pos, ignored := ParseSentence(structure, pos0); // the parameters
    pos, ignored := ParseString(structure, pos); // the id
    pos, ignored := ParseString(structure, pos); // the description
    pos, ignored := ParseString(structure, pos); // the encoding
    pos, ignored := ParseString(structure, pos); // the size
    pos, ignored := ParseString(structure, pos); // the line count
    pos, ignored := ParseSentence(structure, pos); // the disposition
    pos := ConsumeRest(structure, pos);
  }

  method ParsePart(structure: string, pos0: nat) returns (pos: nat, content: Content)
    requires pos0 <= |structure| && PartRead(structure[pos0..]).Done?
    ensures pos0 <= pos <= |structure| && PartRead(structure[pos0..]) == Done(content, structure[pos..])
  {
    hide StringRead, FieldsRead;
    pos, content := pos0, EMPTY;
    if At(structure, pos) != '(' {
      return;
    }
    pos := pos + 1;
    assert structure[pos..] == structure[pos0..][1..];
    var mainType, subType;
    pos, mainType := ParseString(structure, pos);
    pos, subType := ParseString(structure, pos);
    content := Content(mainType + "/" + subType, []);
    pos := ParseFields(structure, pos);
  }

  method ParseExtension(structure: string, pos0: nat) returns (pos: nat, subType: string)
    requires pos0 <= |structure| && ExtensionRead(structure[pos0..]).Done?
    ensures pos0 <= pos <= |structure| && ExtensionRead(structure[pos0..]) == Done(subType, structure[pos..])
  {
    hide StringRead, SentenceRead, ConsumeRead;
    pos, subType := ParseString(structure, pos0);
    var ignored;
    pos, ignored := ParseSentence(structure, pos); // the parameters
    pos, ignored := ParseSentence(structure, pos); // the disposition
    pos, ignored := ParseSentence(structure, pos); // the language
    pos := ConsumeRest(structure, pos);
  }

  method ParseBodyStructure(structure: string, pos0: nat) returns (pos: nat, content: Content)
    requires pos0 <= |structure| && StructureRead(structure[pos0..]).Done?
    ensures pos0 <= pos <= |structure| && StructureRead(structure[pos0..]) == Done(content, structure[pos..])
    decreases |structure| - pos0, 0
  {
    hide PartRead, ExtensionRead, ConsumeRead, ChildrenRead, SkipSpaces;
    ghost var s := structure[pos0..];
    pos := SkipLeadingSpaces(structure, pos0);
    content := EMPTY;
    if At(structure, pos) != '(' {
      return;
    }
    pos := pos + 1;
    assert structure[pos..] == structure[pos - 1..][1..];
    if At(structure, pos) != '(' {
      pos := pos - 1;
      pos, content := ParsePart(structure, pos);
    } else {
      var children, subType;
      pos, children := ParseChildren(structure, pos);
      pos, subType := ParseExtension(structure, pos);
      content := Content("MULTIPART/" + subType, children);
    }
    pos := ConsumeRest(structure, pos);
    assert structure[pos..] != "" ==> structure[pos..][1..] == structure[pos + 1..];
    pos := pos + 1;
  }

  method ParseChildren(structure: string, pos0: nat) returns (pos: nat, children: seq<Content>)
    requires pos0 <= |structure| && ChildrenRead(structure[pos0..]).Done?
    ensures pos0 <= pos <= |structure| && ChildrenRead(structure[pos0..]) == Done(children, structure[pos..])
    decreases |structure| - pos0, 1
  {
    hide StructureRead;
    pos, children := pos0, [];
    NoChildren(ChildrenRead(structure[pos0..]));
    while pos < |structure| && structure[pos] == '('
      invariant pos0 <= pos <= |structure|
      invariant ChildrenRead(structure[pos0..]) == WithChildren(children, ChildrenRead(structure[pos..]))
      decreases |structure| - pos
    {
      GroupStart(structure, pos);
      var child;
      pos, child := ParseBodyStructure(structure, pos);
      MoreChildren(children, child, ChildrenRead(structure[pos..]));
      children := children + [child];
    }
    assert pos < |structure| ==> structure[pos..][0] == structure[pos];
    assert children + [] == children;
  }

  /** The children read before, and those that follow */
  function WithChildren(before: seq<Content>, r: Outcome<seq<Content>>): Outcome<seq<Content>> {
    var (children, rest) :- r;
    Done(before + children, rest)
  }

  lemma NoChildren(r: Outcome<seq<Content>>)
    ensures WithChildren([], r) == r
  {
    if r.Done? {
      assert [] + r.value == r.value;
    }
  }

  lemma MoreChildren(before: seq<Content>, child: Content, r: Outcome<seq<Content>>)
    ensures WithChildren(before + [child], r) == WithChildren(before, WithChildren([child], r))
  {
    if r.Done? {
      Associative(before, [child], r.value);
    }
  }

  // ---------------------------------------------------------------- At a line break

  predicate AtLineBreak(s: string) {
    Starts(s, '\r') || Starts(s, '\n')
  }

  /** Nothing passes a line break: a string and a sentence read nothing in front of it, and the loops
      over a list and over the rest of a part never end. */
  lemma LineBreakStops(s: string)
    requires AtLineBreak(s)
    ensures StringRead(s) == Done("", s) && SentenceRead(s) == Done("", s)
    ensures ConsumeRead(s) == Endless && FieldsRead(s) == Endless && ExtensionRead(s) == Endless
    ensures forall depth: nat :: depth > 0 ==> GroupRead(s, depth) == Endless
  {
    assert SkipSpaces(s) == s && AtomEnd(s) == Some(0) && s[0..] == s && s[..0] == "";
    UnquotedHere(s);
  }

  // ---------------------------------------------------------------- Loops that never end

  /** Reading a string that moves nowhere leaves the text as it is. */
  lemma SameText(s: string)
    requires StringRead(s).Done? && |StringRead(s).rest| == |s|
    ensures StringRead(s).rest == s && SkipSpaces(s) == s
  {
    var t := SkipSpaces(s);
    if t != "" && t[0] != '"' && AtomEnd(t).Some? {
      assert AtomEnd(t).value == 0 ==> t[0..] == t;
    }
  }

  lemma SpacesStay(s: string)
    ensures |SkipSpaces(s)| == |s| <==> SkipSpaces(s) == s
  {
  }

  lemma GroupStays(s: string, depth: nat)
    requires s != "" && depth > 0 && GroupStepped(s, depth).Done? && |GroupStepped(s, depth).rest| == |s|
    ensures GroupStepped(s, depth) == Done(depth, s)
  {
    SpacesStay(s);
    SpacesStay(StringRead(SkipSpaces(s)).rest);
    SameText(SkipSpaces(s));
    hide StringRead, SkipSpaces;
  }

  lemma ConsumeStays(s: string)
    requires ConsumeStepped(s).Done? && |ConsumeStepped(s).rest| == |s|
    ensures ConsumeStepped(s) == Done((), s)
  {
    SpacesStay(s);
    SpacesStay(SentenceRead(SkipSpaces(s)).rest);
    SpacesSkipped(s);
    if !Starts(s, '(') {
      SameText(s);
    }
    hide StringRead, SkipSpaces, GroupRead;
  }

  /** Where the loop over a list is after `n` iterations; once it has ended it stays there. */
  function GroupAfter(s: string, depth: nat, n: nat): Outcome<nat> {
    if n == 0 then Done(depth, s)
    else
      var (d, t) :- GroupAfter(s, depth, n - 1);
      if d == 0 || t == "" then Done(d, t) else GroupStepped(t, d)
  }

  predicate GroupRunning(s: string, depth: nat, n: nat) {
    GroupAfter(s, depth, n).Done? && GroupAfter(s, depth, n).value > 0 && GroupAfter(s, depth, n).rest != ""
  }

  lemma {:induction false} GroupShift(s: string, depth: nat, n: nat)
    requires s != "" && depth > 0 && GroupStepped(s, depth).Done?
    ensures GroupAfter(s, depth, n + 1)
            == GroupAfter(GroupStepped(s, depth).rest, GroupStepped(s, depth).value, n)
  {
    hide GroupStepped;
    if n > 0 {
      GroupShift(s, depth, n - 1);
    } else {
      assert GroupAfter(s, depth, 0) == Done(depth, s);
    }
  }

  lemma {:induction false} GroupKeepsRunning(s: string, depth: nat, n: nat)
    requires depth > 0 && GroupRead(s, depth) == Endless
    ensures GroupRunning(s, depth, n)
    decreases |s|, n
  {
    if n > 0 {
      GroupByStep(s, depth);
      GroupShift(s, depth, n - 1);
      var d, t := GroupStepped(s, depth).value, GroupStepped(s, depth).rest;
      if |t| < |s| {
        GroupKeepsRunning(t, d, n - 1);
      } else {
        GroupStays(s, depth);
        GroupKeepsRunning(s, depth, n - 1);
      }
    }
  }

  lemma {:induction false} GroupStops(s: string, depth: nat) returns (n: nat)
    requires depth > 0 && GroupRead(s, depth) != Endless
    ensures !GroupRunning(s, depth, n)
    decreases |s|
  {
    hide GroupStepped, GroupRead;
    n := 0;
    if s != "" {
      n := 1;
      GroupByStep(s, depth);
      assert GroupAfter(s, depth, 0) == Done(depth, s);
      assert GroupAfter(s, depth, 1) == GroupStepped(s, depth);
      var r := GroupStepped(s, depth);
      if r.Done? && r.value > 0 {
        var m := GroupStops(r.rest, r.value);
        n := m + 1;
        GroupShift(s, depth, m);
      }
    }
  }

  /** The reader of a list is endless if and only if the loop is in its body after any number of
      iterations. */
  lemma GroupEndless(s: string, depth: nat)
    requires depth > 0
    ensures GroupRead(s, depth) == Endless <==> forall n: nat :: GroupRunning(s, depth, n)
  {
    if GroupRead(s, depth) == Endless {
      forall n: nat
        ensures GroupRunning(s, depth, n)
      {
        GroupKeepsRunning(s, depth, n);
      }
    } else {
      var n := GroupStops(s, depth);
    }
  }

  /** Where the loop that consumes what is left is after `n` iterations; Endless when a sentence in one
      of them is. */
  function ConsumeAfter(s: string, n: nat): Outcome<()> {
    if n == 0 then Done((), s)
    else
      var (_, t) :- ConsumeAfter(s, n - 1);
      if Consuming(t) then ConsumeStepped(t) else Done((), t)
  }

  predicate ConsumeRunning(s: string, n: nat) {
    ConsumeAfter(s, n).Endless? || (ConsumeAfter(s, n).Done? && Consuming(ConsumeAfter(s, n).rest))
  }

  lemma ConsumeFirst(s: string)
    requires Consuming(s)
    ensures ConsumeAfter(s, 0) == Done((), s) && ConsumeAfter(s, 1) == ConsumeStepped(s)
    ensures ConsumeStepped(s).Done? ==> ConsumeAfter(ConsumeStepped(s).rest, 0) == ConsumeStepped(s)
  {
    hide ConsumeStepped;
    var (_, t) := ((), s);
    assert ConsumeAfter(s, 0) == Done((), s);
    if ConsumeStepped(s).Done? {
      assert ConsumeStepped(s).value == ();
    }
  }

  lemma {:induction false} ConsumeShift(s: string, n: nat)
    requires Consuming(s)
    ensures ConsumeAfter(s, n + 1)
            == var r := ConsumeStepped(s); if r.Done? then ConsumeAfter(r.rest, n) else r
  {
    hide ConsumeStepped;
    if n > 0 {
      ConsumeShift(s, n - 1);
    } else {
      ConsumeFirst(s);
    }
  }

  lemma EndlessConsumes(s: string)
    requires ConsumeRead(s) == Endless
    ensures Consuming(s)
  {
  }

  lemma {:induction false} ConsumeKeepsRunning(s: string, n: nat)
    requires ConsumeRead(s) == Endless
    ensures ConsumeRunning(s, n)
    decreases |s|, n
  {
    hide ConsumeStepped, ConsumeRead, ConsumeAfter, Consuming;
    ConsumeStart(s);
    EndlessConsumes(s);
    if n > 0 {
      var r := ConsumeStepped(s);
      ConsumeByStep(s);
      ConsumeShift(s, n - 1);
      if r.Done? && |r.rest| < |s| {
        ConsumeKeepsRunning(r.rest, n - 1);
      } else if r.Done? {
        ConsumeStays(s);
        ConsumeKeepsRunning(s, n - 1);
      }
    }
  }

  lemma ConsumeStart(s: string)
    ensures ConsumeAfter(s, 0) == Done((), s)
  {
  }

  lemma {:induction false} ConsumeStops(s: string) returns (n: nat)
    requires ConsumeRead(s) != Endless
    ensures !ConsumeRunning(s, n)
    decreases |s|
  {
    hide ConsumeStepped, ConsumeRead, ConsumeAfter, Consuming;
    n := 0;
    ConsumeStart(s);
    if Consuming(s) {
      n := 1;
      ConsumeByStep(s);
      ConsumeFirst(s);
      var r := ConsumeStepped(s);
      if r.Done? {
        var m := ConsumeStops(r.rest);
        n := m + 1;
        ConsumeShift(s, m);
      }
    }
  }

  /** The reader of what is left is endless if and only if the loop, or a loop inside its body, runs
      after any number of iterations. */
  lemma ConsumeEndless(s: string)
    ensures ConsumeRead(s) == Endless <==> forall n: nat :: ConsumeRunning(s, n)
  {
    if ConsumeRead(s) == Endless {
      forall n: nat
        ensures ConsumeRunning(s, n)
      {
        ConsumeKeepsRunning(s, n);
      }
    } else {
      var n := ConsumeStops(s);
    }
  }

  /** At a line break any number of iterations leaves the text as it is. */
  lemma {:induction false} LineBreakLoops(s: string, depth: nat, n: nat)
    requires AtLineBreak(s) && depth > 0
    ensures GroupAfter(s, depth, n) == Done(depth, s) && ConsumeAfter(s, n) == Done((), s)
  {
    hide GroupStepped, ConsumeStepped;
    ConsumeStart(s);
    if n > 0 {
      LineBreakLoops(s, depth, n - 1);
      LineBreakSteps(s, depth);
      assert Consuming(s);
      hide Consuming;
      assert GroupAfter(s, depth, n) == GroupStepped(s, depth);
      assert ConsumeAfter(s, n) == ConsumeStepped(s);
    }
  }

  lemma LineBreakSteps(s: string, depth: nat)
    requires AtLineBreak(s) && depth > 0
    ensures GroupStepped(s, depth) == Done(depth, s) && ConsumeStepped(s) == Done((), s)
  {
    LineBreakStops(s);
    hide StringRead, SentenceRead, GroupRead, ConsumeRead;
    assert SkipSpaces(s) == s;
  }

  // ---------------------------------------------------------------- Reading a list of pieces

  predicate Closes(s: string) {
    ')' in s
  }

  lemma {:induction false} ClosesMore(s: string)
    requires Closes(s)
    ensures AtomEnd(s).Some? && Closes(s[AtomEnd(s).value..]) && Closes(SkipSpaces(s))
  {
    if !EndsAtom(s[0]) {
      ClosesMore(s[1..]);
      assert s[1..][AtomEnd(s[1..]).value..] == s[AtomEnd(s).value..];
    } else {
      assert s[0..] == s;
      if s[0] == ' ' {
        ClosesMore(s[1..]);
      }
    }
  }

  /** Spaces in a list do not matter. */
  lemma GroupSpaces(s: string, depth: nat)
    requires depth > 0 && Closes(s)
    ensures GroupRead(s, depth) == GroupRead(SkipSpaces(s), depth)
  {
    if s[0] == ' ' {
      var u := SkipSpaces(s);
      ClosesMore(s);
      assert SkipSpaces(u) == u;
      if u[0] in "()[]\r\n" {
        assert AtomEnd(u) == Some(0) && u[0..] == u && u[..0] == "";
        UnquotedHere(u);
      } else {
        StringMoves(u);
      }
    }
  }

  lemma StringMoves(u: string)
    requires u != "" && u[0] !in " ()[]\r\n"
    ensures StringRead(u).Done? ==> |SkipSpaces(StringRead(u).rest)| < |u|
  {
  }

  lemma GroupAtom(c: char, t: string, depth: nat)
    requires depth > 0 && !EndsAtom(c) && Closes(t)
    ensures GroupRead([c] + t, depth) == GroupRead(t, depth)
  {
    hide StringRead, SkipSpaces, AtomEnd, Closes;
    ClosesMore(t);
    AtomCons(c, t);
    AtomRest([c] + t);
    GroupSpaces(t, depth);
    if AtomEnd(t).value > 0 {
      AtomInside(t);
      AtomRest(t);
    } else {
      assert t[0..] == t;
    }
  }

  lemma AtomCons(c: char, t: string)
    requires !EndsAtom(c) && AtomEnd(t).Some?
    ensures var end := AtomEnd(t).value; AtomEnd([c] + t) == Some(end + 1) && ([c] + t)[end + 1..] == t[end..]
  {
    assert ([c] + t)[1..] == t;
  }

  lemma AtomInside(t: string)
    requires AtomEnd(t).Some? && AtomEnd(t).value > 0
    ensures t != "" && !EndsAtom(t[0])
  {
  }

  lemma AtomRest(s: string)
    requires s != "" && !EndsAtom(s[0]) && AtomEnd(s).Some?
    ensures SkipSpaces(s) == s && StringRead(s).Done? && StringRead(s).rest == s[AtomEnd(s).value..]
    ensures AtomEnd(s).value > 0
  {
    UnquotedHere(s);
  }

  lemma GroupSpace(t: string, depth: nat)
    requires depth > 0 && Closes(t)
    ensures GroupRead([' '] + t, depth) == GroupRead(t, depth)
  {
    hide GroupRead;
    assert ([' '] + t)[1..] == t;
    GroupSpaces([' '] + t, depth);
    GroupSpaces(t, depth);
  }

  lemma {:induction false} GroupPlain(text: string, t: string, depth: nat)
    requires depth > 0 && Closes(t) && Unbroken(text)
    ensures GroupRead(text + t, depth) == GroupRead(t, depth)
    decreases |text|
  {
    hide GroupRead, Closes, Unbroken;
    if text == "" {
      Empty(text, t);
    } else {
      UnbrokenParts(text);
      GroupPlain(text[1..], t, depth);
      ClosesLater(text[1..], t);
      HeadAndTail(text, t);
      PlainStep(text[0], text[1..] + t, depth);
    }
  }

  lemma Empty(text: string, t: string)
    requires text == ""
    ensures text + t == t
  {
  }

  lemma HeadAndTail(text: string, t: string)
    requires text != ""
    ensures text + t == [text[0]] + (text[1..] + t)
  {
  }

  lemma UnbrokenParts(text: string)
    requires text != "" && Unbroken(text)
    ensures Unbroken([text[0]]) && Unbroken(text[1..])
  {
  }

  lemma PlainStep(c: char, rest: string, depth: nat)
    requires depth > 0 && Closes(rest) && Unbroken([c])
    ensures GroupRead([c] + rest, depth) == GroupRead(rest, depth)
  {
    hide GroupRead, Closes;
    assert [c][0] == c;
    if c == ' ' {
      GroupSpace(rest, depth);
    } else {
      GroupAtom(c, rest, depth);
    }
  }

  // ---------------------------------------------------------------- One word

  lemma QuoteParsed(q: string, more: string, value: string)
    requires q == Quoted(value)
    ensures StringRead("\"" + q + "\"" + more) == Done(Unescaped(q), more)
  {
    QuotedCloses(value, more);
    hide Quoted, Unescaped, CloseQuote;
    var s, t := "\"" + q + "\"" + more, q + "\"" + more;
    assert s[0] == '"' && s[1..] == t && SkipSpaces(s) == s;
    QuotedHere(s);
    QuoteParts(q, more);
  }

  lemma QuoteParts(q: string, more: string)
    ensures (q + "\"" + more)[..|q|] == q && (q + "\"" + more)[|q| + 1..] == more
  {
  }

  /** An atom is read up to what ends it. */
  lemma BareParsed(text: string, more: string)
    requires FineWord(Bare(text)) && more != "" && EndsAtom(more[0])
    ensures StringRead(text + more) == Done(WordRead(Bare(text)), more)
  {
    AtomEnds(text, more);
    hide Unescaped, AtomEnd;
    var s := text + more;
    assert s[0] == text[0] && SkipSpaces(s) == s;
    UnquotedHere(s);
    assert s[..|text|] == text && s[|text|..] == more;
  }

  /** The parser takes the size of a literal for an atom, and is left in front of the line break. */
  lemma CountedParsed(value: string, more: string)
    ensures StringRead(Counted(value) + more) == Done("{" + Decimal(|value|) + "}", "\r\n" + value + more)
  {
    var head, rest := "{" + Decimal(|value|) + "}", "\r\n" + value + more;
    CountedHead(value, more);
    hide Decimal, Counted, StringRead, Unescaped, FineWord;
    assert rest[0] == '\r' && head != "NIL";
    BareParsed(head, rest);
    NoBackslash(head);
  }

  lemma CountedHead(value: string, more: string)
    ensures var head := "{" + Decimal(|value|) + "}";
            && Counted(value) + more == head + ("\r\n" + value + more)
            && FineWord(Bare(head)) && head[0] == '{' && '\\' !in head
  {
    HeadParts(Decimal(|value|), value, more);
    HeadFine(Decimal(|value|));
    hide Decimal;
  }

  lemma HeadParts(digits: string, value: string, more: string)
    ensures ("{" + digits + "}\r\n" + value) + more == ("{" + digits + "}") + ("\r\n" + value + more)
  {
  }

  lemma HeadFine(digits: string)
    requires AllDigits(digits)
    ensures var head := "{" + digits + "}"; FineWord(Bare(head)) && head[0] == '{' && '\\' !in head
  {
  }

  lemma NoBackslash(s: string)
    requires '\\' !in s
    ensures Unescaped(s) == s
  {
    StrippedWithout(s, '"');
    StrippedWithout(s, '\\');
  }

  // ---------------------------------------------------------------- Lists

  lemma GroupQuote(value: string, t: string, depth: nat)
    requires depth > 0 && Closes(t)
    ensures GroupRead(PieceText(Quote(value)) + t, depth) == GroupRead(t, depth)
  {
    hide StringRead, Quoted, Closes;
    var q := Quoted(value);
    var s := "\"" + q + "\"" + t;
    assert s[0] == '"' && SkipSpaces(s) == s;
    QuoteParsed(q, t, value);
    GroupSpaces(t, depth);
  }

  lemma GroupLiteral(value: string, t: string, depth: nat)
    requires depth > 0
    ensures GroupRead(PieceText(LiteralPiece(value)) + t, depth) == Endless
  {
    var s := Counted(value) + t;
    CountedFirst(value, t);
    CountedParsed(value, t);
    LineBreakStops("\r\n" + value + t);
    hide StringRead, Counted;
  }

  lemma CountedFirst(value: string, t: string)
    ensures var s := Counted(value) + t;
            && s != "" && s[0] == '{' && SkipSpaces(s) == s && |"\r\n" + value + t| < |s|
            && SkipSpaces("\r\n" + value + t) == "\r\n" + value + t
  {
  }

  lemma GroupOpen(inner: string, t: string, depth: nat)
    requires depth > 0
    ensures GroupRead("(" + inner + ")" + t, depth) == GroupRead(inner + (")" + t), depth + 1)
    ensures GroupRead(")" + t, depth + 1) == GroupRead(t, depth)
  {
    assert ("(" + inner + ")" + t)[1..] == inner + (")" + t);
    assert (")" + t)[1..] == t;
  }

  /** A list is skipped if and only if no literal is in it. */
  lemma {:induction false} PiecesGroup(pieces: seq<Piece>, t: string, depth: nat)
    requires depth > 0 && Tame(pieces) && Closes(t)
    ensures GroupRead(PiecesText(pieces) + t, depth) == if PiecesCounted(pieces) then Endless else GroupRead(t, depth)
    decreases pieces, 0
  {
    if pieces == [] {
      assert "" + t == t;
    } else {
      hide GroupRead, PieceText, Tame, PieceCounted;
      var rest := PiecesText(pieces[1..]);
      Associative(PieceText(pieces[0]), rest, t);
      ClosesLater(rest, t);
      TameTail(pieces);
      PieceGroup(pieces[0], rest + t, depth, pieces);
      PiecesGroup(pieces[1..], t, depth);
    }
  }

  lemma ClosesLater(s: string, t: string)
    requires Closes(t)
    ensures Closes(s + t) && Closes(")" + t) && Closes(")" + s)
  {
    assert (")" + s)[0] == ')';
  }

  lemma TameTail(pieces: seq<Piece>)
    requires pieces != [] && Tame(pieces)
    ensures Tame(pieces[1..])
  {
    assert forall i :: 0 <= i < |pieces| - 1 ==> pieces[1..][i] == pieces[i + 1];
  }

  lemma {:induction false} PieceGroup(piece: Piece, t: string, depth: nat, all: seq<Piece>)
    requires depth > 0 && Tame(all) && all != [] && all[0] == piece && Closes(t)
    ensures GroupRead(PieceText(piece) + t, depth) == if PieceCounted(piece) then Endless else GroupRead(t, depth)
    decreases piece, 1
  {
    match piece
    case Plain(text) => GroupPlain(text, t, depth);
    case Quote(value) => GroupQuote(value, t, depth);
    case LiteralPiece(value) => GroupLiteral(value, t, depth);
    case Nested(inner) =>
      hide GroupRead;
      GroupOpen(PiecesText(inner), t, depth);
      ClosesLater("", t);
      PiecesGroup(inner, ")" + t, depth + 1);
  }

  // ---------------------------------------------------------------- The fields that are left

  /** What follows the fields: the parenthesis of the part */
  function Closed(fields: seq<Field>, tail: string): string {
    FieldsText(fields) + ")" + tail
  }

  /** These fields are left, perhaps without the space before the first one. */
  ghost predicate Remain(text: string, fields: seq<Field>, tail: string) {
    SkipSpaces(text) == SkipSpaces(Closed(fields, tail))
  }

  lemma WordFirst(word: Word)
    requires FineWord(word)
    ensures WordText(word) != "" && WordText(word)[0] !in " ()"
  {
  }

  /** A word is read up to the space or parenthesis after it; a literal only up to its line break. */
  lemma WordStep(word: Word, more: string)
    requires FineWord(word) && Separated(more)
    ensures var s := WordText(word) + more;
            var r := StringRead(s);
            if word.LiteralWord? then r.Done? && AtLineBreak(r.rest) && |r.rest| < |s|
            else r == Done(WordRead(word), more)
  {
    match word
    case InQuotes(value) => QuoteParsed(Quoted(value), more, value);
    case Bare(text) => BareParsed(text, more);
    case LiteralWord(value) =>
      CountedParsed(value, more);
      CountedFirst(value, more);
      hide StringRead, Counted;
  }

  lemma FieldFirst(fields: seq<Field>)
    requires fields != [] && FineFields(fields)
    ensures FieldText(fields[0]) != "" && FieldText(fields[0])[0] !in " )" && FineFields(fields[1..])
    ensures FieldText(fields[0])[0] == '(' <==> fields[0].Group?
  {
    if fields[0].Simple? {
      WordFirst(fields[0].word);
    }
  }

  lemma ClosedStart(fields: seq<Field>, tail: string)
    requires FineFields(fields)
    ensures SkipSpaces(Closed(fields, tail))
            == if fields == [] then ")" + tail else FieldText(fields[0]) + Closed(fields[1..], tail)
    ensures Separated(Closed(fields, tail))
  {
    if fields == [] {
      assert "" + ")" + tail == ")" + tail;
    } else {
      FieldFirst(fields);
      hide FieldText, FieldsText;
      ClosedCons(fields, tail);
      var t := FieldText(fields[0]) + Closed(fields[1..], tail);
      assert t[0] == FieldText(fields[0])[0];
      assert (" " + t)[1..] == t;
    }
  }

  lemma ClosedCons(fields: seq<Field>, tail: string)
    requires fields != []
    ensures Closed(fields, tail) == " " + (FieldText(fields[0]) + Closed(fields[1..], tail))
  {
    hide FieldText;
    var first, rest := FieldText(fields[0]), FieldsText(fields[1..]);
    assert (" " + first + rest) + ")" + tail == " " + (first + (rest + ")" + tail));
  }

  /** Reading goes on with these fields, or is stuck in front of the line break of a literal; `lit`
      tells whether a literal was among the fields. */
  ghost predicate Going(text: string, fields: seq<Field>, tail: string, lit: bool) {
    || (lit && AtLineBreak(text))
    || (Remain(text, fields, tail) && FineFields(fields) && (lit <==> FieldsCounted(fields)))
  }

  lemma StringSpaces(s: string)
    ensures StringRead(s) == StringRead(SkipSpaces(s)) && SentenceRead(s) == SentenceRead(SkipSpaces(s))
    ensures SkipSpaces(SkipSpaces(s)) == SkipSpaces(s)
  {
  }

  lemma NothingRead(s: string)
    requires Starts(s, '(') || Starts(s, ')')
    ensures StringRead(s) == Done("", s) && SkipSpaces(s) == s
    ensures Starts(s, ')') ==> SentenceRead(s) == Done("", s)
  {
    assert s[0..] == s && s[..0] == "";
    UnquotedHere(s);
    assert AtomEnd(s) == Some(0);
  }

  /** A string takes the next field if it is a word; in front of a list it reads nothing. */
  lemma StringGoing(text: string, fields: seq<Field>, tail: string, lit: bool) returns (next: seq<Field>)
    requires Going(text, fields, tail, lit)
    ensures StringRead(text).Done? && Going(StringRead(text).rest, next, tail, lit)
  {
    next := fields;
    if lit && AtLineBreak(text) {
      LineBreakStops(text);
    } else {
      StringSpaces(text);
      ClosedStart(fields, tail);
      if fields == [] {
        NothingRead(SkipSpaces(text));
      } else {
        FieldFirst(fields);
        if fields[0].Group? {
          NothingRead(SkipSpaces(text));
        } else {
          next := fields[1..];
          ClosedStart(next, tail);
          WordStep(fields[0].word, Closed(next, tail));
        }
      }
      hide StringRead, SentenceRead, FieldText, SkipSpaces;
    }
  }

  /** A sentence takes the next field, whatever it is, and never ends in a list with a literal. */
  lemma SentenceGoing(text: string, fields: seq<Field>, tail: string, lit: bool) returns (next: seq<Field>)
    requires Going(text, fields, tail, lit)
    ensures var r := SentenceRead(text);
            if r.Done? then Going(r.rest, next, tail, lit) && (Progresses(text) ==> |r.rest| < |text|)
            else r == Endless && lit
  {
    next := fields;
    if lit && AtLineBreak(text) {
      LineBreakStops(text);
    } else {
      StringSpaces(text);
      ClosedStart(fields, tail);
      if fields == [] {
        NothingRead(SkipSpaces(text));
      } else {
        FieldFirst(fields);
        next := fields[1..];
        ClosedStart(next, tail);
        FieldSentence(fields[0], Closed(next, tail));
      }
      hide StringRead, SentenceRead, FieldText, SkipSpaces;
    }
  }

  /** Neither at the end of a part nor in front of a line break */
  predicate Progresses(text: string) {
    text != "" && text[0] != ')' && !AtLineBreak(text)
  }

  lemma FieldSentence(field: Field, more: string)
    requires (match field case Simple(word) => FineWord(word) case Group(pieces) => Tame(pieces))
    requires Separated(more) && Closes(more)
    ensures var r := SentenceRead(FieldText(field) + more);
            if !FieldCounted(field) then r.Done? && r.rest == more
            else if field.Group? then r == Endless
            else r.Done? && AtLineBreak(r.rest) && |r.rest| < |FieldText(field) + more|
  {
    match field
    case Simple(word) =>
      WordFirst(word);
      WordStep(word, more);
      assert (WordText(word) + more)[0] == WordText(word)[0];
      SpacesSkipped(WordText(word) + more);
      hide StringRead, SentenceRead, WordText;
    case Group(pieces) =>
      GroupSentence(pieces, more);
  }

  lemma GroupSentence(pieces: seq<Piece>, more: string)
    requires Tame(pieces) && Closes(more)
    ensures var r := SentenceRead(FieldText(Group(pieces)) + more);
            if PiecesCounted(pieces) then r == Endless else r.Done? && r.rest == more
  {
    var text := PiecesText(pieces);
    var s := "(" + text + ")" + more;
    assert s[0] == '(' && SkipSpaces(s) == s && s[1..] == text + (")" + more);
    ClosesLater("", more);
    PiecesGroup(pieces, ")" + more, 1);
    assert (")" + more)[1..] == more;
    ListSentence(s);
  }

  lemma NothingRemains(text: string, fields: seq<Field>, tail: string, lit: bool)
    requires Going(text, fields, tail, lit)
    ensures text != "" && (text[0] == ')' ==> text == ")" + tail && !lit)
    ensures Going(SkipSpaces(text), fields, tail, lit)
  {
    if !(lit && AtLineBreak(text)) {
      ClosedStart(fields, tail);
      StringSpaces(text);
      if fields != [] {
        FieldFirst(fields);
      }
    }
  }

  /** The loop over what is left ends right before the closing parenthesis, or never. */
  lemma {:induction false} ConsumeGoing(text: string, fields: seq<Field>, tail: string, lit: bool)
    requires Going(text, fields, tail, lit)
    ensures ConsumeRead(text) == if lit then Endless else Done((), ")" + tail)
    decreases |text|
  {
    NothingRemains(text, fields, tail, lit);
    if AtLineBreak(text) {
      LineBreakStops(text);
      LineBreakLit(text, fields, tail, lit);
    } else if text[0] != ')' {
      hide Going, SentenceRead;
      var u := SkipSpaces(text);
      var next := SentenceGoing(u, fields, tail, lit);
      SpacesShorten(text);
      if SentenceRead(u).Done? {
        var rest := SentenceRead(u).rest;
        NothingRemains(rest, next, tail, lit);
        ConsumeGoing(SkipSpaces(rest), next, tail, lit);
      }
    }
  }

  lemma LineBreakLit(text: string, fields: seq<Field>, tail: string, lit: bool)
    requires Going(text, fields, tail, lit) && AtLineBreak(text)
    ensures lit
  {
    if !lit {
      ClosedStart(fields, tail);
      if fields != [] {
        FieldFirst(fields);
      }
    }
  }

  lemma SpacesShorten(text: string)
    ensures Starts(text, ' ') ==> |SkipSpaces(text)| < |text|
    ensures !Starts(text, ' ') ==> SkipSpaces(text) == text
  {
  }

  lemma FieldsGoing(text: string, fields: seq<Field>, tail: string, lit: bool)
    requires Going(text, fields, tail, lit)
    ensures FieldsRead(text) == if lit then Endless else Done((), ")" + tail)
  {
    hide Going, StringRead, SentenceRead, ConsumeRead;
    var f1 := SentenceGoing(text, fields, tail, lit);
    if SentenceRead(text).Done? {
      var s1 := SentenceRead(text).rest;
      var f2 := StringGoing(s1, f1, tail, lit);
      var s2 := StringRead(s1).rest;
      var f3 := StringGoing(s2, f2, tail, lit);
      var s3 := StringRead(s2).rest;
      var f4 := StringGoing(s3, f3, tail, lit);
      var s4 := StringRead(s3).rest;
      var f5 := StringGoing(s4, f4, tail, lit);
      var s5 := StringRead(s4).rest;
      var f6 := StringGoing(s5, f5, tail, lit);
      var s6 := StringRead(s5).rest;
      var f7 := SentenceGoing(s6, f6, tail, lit);
      if SentenceRead(s6).Done? {
        ConsumeGoing(SentenceRead(s6).rest, f7, tail, lit);
      }
    }
  }

  /** A type, perhaps with a space in front of it, and whether reading goes on after it */
  lemma TypeGoing(text: string, word: Word, fields: seq<Field>, tail: string)
    requires FineWord(word) && FineFields(fields) && SkipSpaces(text) == WordText(word) + Closed(fields, tail)
    ensures var r := StringRead(text);
            && r.Done? && Going(r.rest, fields, tail, word.LiteralWord? || FieldsCounted(fields))
            && (!word.LiteralWord? ==> r.value == WordRead(word))
  {
    StringSpaces(text);
    ClosedStart(fields, tail);
    WordStep(word, Closed(fields, tail));
    RemainAll(fields, tail);
    hide StringRead, Remain, SkipSpaces, WordText, Closed;
  }

  lemma RemainAll(fields: seq<Field>, tail: string)
    ensures Remain(Closed(fields, tail), fields, tail)
  {
  }

  /** What follows the main type */
  function AfterMain(body: Body, tail: string): string {
    " " + WordText(body.subType) + Closed(body.fields, tail)
  }

  lemma Spliced(first: string, sub: string, fields: string, tail: string)
    ensures ("(" + first + " " + sub + fields + ")") + tail == "(" + (first + (" " + sub + (fields + ")" + tail)))
    ensures ("(" + (first + (" " + sub + (fields + ")" + tail))))[1..] == first + (" " + sub + (fields + ")" + tail))
  {
  }

  lemma PartStart(body: Body, tail: string)
    requires body.Part? && BodyWellFormed(body)
    ensures var s := BodyText(body) + tail;
            s[0] == '(' && s[1..] == WordText(body.mainType) + AfterMain(body, tail) && !Starts(s[1..], '(')
  {
    WordFirst(body.mainType);
    hide WordText, FieldsText;
    var main := WordText(body.mainType);
    Spliced(main, WordText(body.subType), FieldsText(body.fields), tail);
    assert (main + AfterMain(body, tail))[0] == main[0];
  }

  lemma AfterSpace(word: Word, more: string)
    requires FineWord(word)
    ensures SkipSpaces(" " + WordText(word) + more) == WordText(word) + more == SkipSpaces(WordText(word) + more)
    ensures Separated(" " + WordText(word) + more)
  {
    WordFirst(word);
    var t := WordText(word) + more;
    assert t[0] == WordText(word)[0] && " " + WordText(word) + more == " " + t && (" " + t)[1..] == t;
  }

  /** A part is read up to its closing parenthesis, with its types, unless a literal is in it. */
  lemma PartOutcome(body: Body, tail: string)
    requires body.Part? && BodyWellFormed(body)
    ensures PartRead(BodyText(body) + tail) == if HasLiteral(body) then Endless else Done(Tree(body), ")" + tail)
  {
    var rest := AfterMain(body, tail);
    var s := WordText(body.mainType) + rest;
    PartStart(body, tail);
    AfterSpace(body.mainType, rest);
    AfterSpace(body.subType, Closed(body.fields, tail));
    WordStep(body.mainType, rest);
    hide StringRead, FieldsRead, WordText, SkipSpaces;
    if body.mainType.LiteralWord? {
      var s1 := StringRead(s).rest;
      LineBreakStops(s1);
    } else {
      TypeGoing(rest, body.subType, body.fields, tail);
      FieldsGoing(StringRead(rest).rest, body.fields, tail, body.subType.LiteralWord? || FieldsCounted(body.fields));
    }
  }

  lemma MultipartStart(body: Body, tail: string)
    requires body.Multipart? && BodyWellFormed(body)
    ensures var s := BodyText(body) + tail;
            s[0] == '(' && s[1..] == BodiesText(body.parts) + AfterMain(body, tail) && Starts(s[1..], '(')
  {
    var bodies, sub, fields := BodiesText(body.parts), WordText(body.subType), FieldsText(body.fields);
    BodyFirst(body.parts[0]);
    assert Starts(bodies, '(');
    assert BodyText(body) == "(" + bodies + " " + sub + fields + ")";
    hide WordText, FieldsText, BodiesText, BodyText;
    Spliced(bodies, sub, fields, tail);
  }

  lemma BodyFirst(body: Body)
    ensures BodyText(body) != "" && BodyText(body)[0] == '('
  {
  }

  /** What follows the parts of a multipart */
  lemma ExtensionOutcome(body: Body, tail: string)
    requires body.Multipart? && BodyWellFormed(body)
    ensures var lit := body.subType.LiteralWord? || FieldsCounted(body.fields);
            ExtensionRead(AfterMain(body, tail)) == if lit then Endless else Done(WordRead(body.subType), ")" + tail)
  {
    var rest, lit := AfterMain(body, tail), body.subType.LiteralWord? || FieldsCounted(body.fields);
    AfterSpace(body.subType, Closed(body.fields, tail));
    TypeGoing(rest, body.subType, body.fields, tail);
    hide Going, StringRead, SentenceRead, ConsumeRead;
    var s1 := StringRead(rest).rest;
    var f1 := SentenceGoing(s1, body.fields, tail, lit);
    if SentenceRead(s1).Done? {
      var s2 := SentenceRead(s1).rest;
      var f2 := SentenceGoing(s2, f1, tail, lit);
      if SentenceRead(s2).Done? {
        var s3 := SentenceRead(s2).rest;
        var f3 := SentenceGoing(s3, f2, tail, lit);
        if SentenceRead(s3).Done? {
          ConsumeGoing(SentenceRead(s3).rest, f3, tail, lit);
        }
      }
    }
  }

  lemma ClosingDone(content: Content, tail: string)
    ensures Closing(content, ")" + tail) == Done(content, tail)
  {
    assert (")" + tail)[1..] == tail;
  }

  /** The descent gets through a body structure of section 7.4.2 of RFC 3501 if and only if no literal is
      in it, and then it ends right after the matching parenthesis with the tree that the text
      describes. With a literal anywhere it never ends. */
  lemma {:induction false} StructureOutcome(body: Body, tail: string)
    requires BodyWellFormed(body)
    ensures StructureRead(BodyText(body) + tail) == if HasLiteral(body) then Endless else Done(Tree(body), tail)
    decreases body, 0
  {
    BodyFirst(body);
    var s := BodyText(body) + tail;
    assert s[0] == '(' && SkipSpaces(s) == s;
    if body.Part? {
      PartStart(body, tail);
      PartOutcome(body, tail);
      ClosingDone(Tree(body), tail);
      hide PartRead, BodyText, Closing;
    } else {
      MultipartStart(body, tail);
      AfterSpace(body.subType, Closed(body.fields, tail));
      ChildrenOutcome(body.parts, AfterMain(body, tail));
      ExtensionOutcome(body, tail);
      ClosingDone(Tree(body), tail);
      hide ChildrenRead, ExtensionRead, BodyText, Closing;
    }
  }

  lemma {:induction false} ChildrenOutcome(bodies: seq<Body>, after: string)
    requires (forall i :: 0 <= i < |bodies| ==> BodyWellFormed(bodies[i])) && Starts(after, ' ')
    ensures ChildrenRead(BodiesText(bodies) + after)
            == if HaveLiteral(bodies) then Endless else Done(Trees(bodies), after)
    decreases bodies, 0
  {
    if bodies == [] {
      assert "" + after == after;
    } else {
      var rest := BodiesText(bodies[1..]) + after;
      StructureOutcome(bodies[0], rest);
      ChildrenOutcome(bodies[1..], after);
      BodyFirst(bodies[0]);
      hide StructureRead, BodyText, BodyWellFormed, Tree;
      Associative(BodyText(bodies[0]), BodiesText(bodies[1..]), after);
      assert (BodyText(bodies[0]) + rest)[0] == '(';
    }
  }

  /** On a text part whose subtype comes as a literal, as in `("TEXT" {5}` and then a line break and
      `PLAIN NIL NIL NIL "7BIT" 5 1)`, the descent never ends, whatever follows. */
  lemma LiteralNeverEnds(rest: string)
    requires AtLineBreak(rest)
    ensures StructureRead("(\"TEXT\" {5}" + rest) == Endless
  {
    hide StringRead, FieldsRead, StructureRead;
    FirstTwoWords(rest);
    LineBreakStops(rest);
    assert "(" + "\"TEXT\" {5}" == "(\"TEXT\" {5}";
    Opened("\"TEXT\" {5}", rest);
  }

  lemma Opened(words: string, rest: string)
    requires Starts(words, '"') && AtLineBreak(rest)
    requires StringRead(words + rest).Done? && StringRead(StringRead(words + rest).rest) == Done("{5}", rest)
    requires FieldsRead(rest) == Endless
    ensures StructureRead(("(" + words) + rest) == Endless
  {
    hide StringRead, FieldsRead;
    var t := words + rest;
    var s := ("(" + words) + rest;
    assert s[1..] == t && t[0] == '"' && SkipSpaces(s) == s;
    assert PartRead(s) == Endless;
  }

  lemma FirstTwoWords(rest: string)
    requires AtLineBreak(rest)
    ensures StringRead("\"TEXT\" {5}" + rest) == Done("TEXT", " {5}" + rest)
    ensures StringRead(" {5}" + rest) == Done("{5}", rest)
  {
    hide StringRead;
    assert "\"TEXT\" {5}" + rest == "\"" + "TEXT" + "\"" + (" {5}" + rest);
    FirstWord(" {5}" + rest);
    SecondWord(rest);
  }

  lemma FirstWord(more: string)
    ensures StringRead("\"" + "TEXT" + "\"" + more) == Done("TEXT", more)
  {
    QuotedUnquoted("TEXT");
    NoBackslash("TEXT");
    hide StringRead, Quoted, Unescaped;
    QuoteParsed("TEXT", more, "TEXT");
  }

  lemma SecondWord(rest: string)
    requires AtLineBreak(rest)
    ensures StringRead(" {5}" + rest) == Done("{5}", rest)
  {
    var more := "{5}" + rest;
    assert (" {5}" + rest)[1..] == more && SkipSpaces(" {5}" + rest) == more == SkipSpaces(more);
    StringSpaces(" {5}" + rest);
    NoBackslash("{5}");
    hide StringRead, Unescaped, SkipSpaces;
    BareParsed("{5}", rest);
  }
}
