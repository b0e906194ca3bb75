/** The search-key grammar (sections 6.4.4 and 9 of RFC 3501, FUZZY from RFC 6203), as a parser, and
    what a key means. `utf8` tells whether the server accepted UTF8=ACCEPT (RFC 9755). */
module SearchGrammar {
  import opened Decimals
  import opened Texts

  // ---------------------------------------------------------------- Grammar

  /** What an argument means: a text, a date, a number, or a set of message numbers */
  datatype Arg =
    | Words(text: string)
    | Date(day: int, month: int, year: int)
    | Amount(number: int)
    | Ids(ranges: seq<Range>)

  /** From one number to another; None is the largest one in use, an asterisk. */
  datatype Range = Range(first: Option<int>, last: Option<int>)

  /** A parsed search key; a leaf is its keyword and its arguments. */
  datatype Key =
    | KLeaf(word: string, args: seq<Arg>)
    | KNot(key: Key)
    | KFuzzy(key: Key)
    | KOr(left: Key, right: Key)
    | KAnd(keys: seq<Key>)

  datatype Kind = StringArg | AtomArg | DateArg | NumberArg | SetArg

  predicate IsDelimiter(c: char) {
    c == ' ' || c == '(' || c == ')' || c == '"'
  }

  predicate IsWord(s: string) {
    s != "" && forall i :: 0 <= i < |s| ==> !IsDelimiter(s[i])
  }

  predicate AtomChar(c: char) {
    ' ' < c <= '~' && c !in {'(', ')', '{', '%', '*', '"', '\\', ']'}
  }

  predicate IsAtom(s: string) {
    s != "" && forall i :: 0 <= i < |s| ==> AtomChar(s[i])
  }

  /** An astring without quotes */
  predicate IsAstring(s: string) {
    s != "" && forall i :: 0 <= i < |s| ==> AtomChar(s[i]) || s[i] == ']'
  }

  /** TEXT-CHAR: 7 bits, and no line break or NUL; octets above that only in UTF-8 */
  predicate TextChar(c: char, utf8: bool) {
    c != '\0' && c != '\r' && c != '\n' && (c as int < 0x80 || utf8)
  }

  /** A value that stands for itself between double quotes */
  predicate Quotable(s: string, utf8: bool) {
    forall i :: 0 <= i < |s| ==> s[i] != '"' && s[i] != '\\' && TextChar(s[i], utf8)
  }

  /** Numbers have 32 bits. */
  predicate IsNumber(s: string) {
    s != "" && AllDigits(s) && DigitsValue(s) < 0x1_0000_0000
  }

  predicate IsSequenceNumber(s: string) {
    s == "*" || (IsNumber(s) && s[0] != '0')
  }

  predicate IsSequenceRange(s: string) {
    var ends := Split(s, ':');
    |ends| <= 2 && forall i :: 0 <= i < |ends| ==> IsSequenceNumber(ends[i])
  }

  predicate IsSequenceSet(s: string) {
    var ranges := Split(s, ',');
    forall i :: 0 <= i < |ranges| ==> IsSequenceRange(ranges[i])
  }

  /** The months in their order */
  const MONTHS := ["Jan", "Feb", "Mar", "Apr", "May", "Jun", "Jul", "Aug", "Sep", "Oct", "Nov", "Dec"]

  predicate IsMonth(s: string) {
    s in MONTHS
  }

  /** The place of a month among the months from number `n` on, 0 when it is none of them */
  function MonthFrom(s: string, n: nat): nat
    requires n >= 1
    decreases 13 - n
  {
    if n > 12 then 0 else if MONTHS[n - 1] == s then n else MonthFrom(s, n + 1)
  }

  predicate IsDateText(s: string) {
    var parts := Split(s, '-');
    && |parts| == 3
    && AllDigits(parts[0]) && 1 <= |parts[0]| <= 2
    && IsMonth(parts[1])
    && AllDigits(parts[2]) && |parts[2]| == 4
  }

  // ---------------------------------------------------------------- What an argument means

  function ValueOf(digits: string): nat {
    if AllDigits(digits) then DigitsValue(digits) else 0
  }

  /** The day, the month and the year of a date */
  function DateOf(s: string): Arg {
    var parts := Split(s, '-');
    if |parts| == 3 then Date(ValueOf(parts[0]), MonthFrom(parts[1], 1), ValueOf(parts[2])) else Date(0, 0, 0)
  }

  function EndOf(s: string): Option<int> {
    if s == "*" then None else Some(ValueOf(s))
  }

  function RangeOf(s: string): Range {
    var ends := Split(s, ':');
    Range(EndOf(ends[0]), EndOf(ends[|ends| - 1]))
  }

  function RangesOf(pieces: seq<string>): seq<Range> {
    if pieces == [] then [] else [RangeOf(pieces[0])] + RangesOf(pieces[1..])
  }

  function ArgOf(kind: Kind, text: string): Arg {
    match kind
    case StringArg => Words(text)
    case AtomArg => Words(text)
    case DateArg => DateOf(text)
    case NumberArg => Amount(ValueOf(text))
    case SetArg => Ids(RangesOf(Split(text, ',')))
  }

  // ---------------------------------------------------------------- Keywords and keys

  /** The arguments a keyword takes; a sequence set is a key of its own. */
  function Kinds(word: string): Option<seq<Kind>> {
    if word in {"ALL", "ANSWERED", "DELETED", "DRAFT", "FLAGGED", "NEW", "OLD", "RECENT", "SEEN"} then Some([])
    else if word in {"BCC", "BODY", "CC", "FROM", "SUBJECT", "TEXT", "TO"} then Some([StringArg])
    else if word == "KEYWORD" then Some([AtomArg])
    else if word == "HEADER" then Some([StringArg, StringArg])
    else if word in {"BEFORE", "ON", "SINCE", "SENTBEFORE", "SENTON", "SENTSINCE"} then Some([DateArg])
    else if word in {"LARGER", "SMALLER"} then Some([NumberArg])
    else if word == "UID" then Some([SetArg])
    else if IsSequenceSet(word) then Some([])
    else None
  }

  /** The characters up to the next delimiter */
  function TakeWord(s: string): (w: string)
    ensures |w| <= |s| && s[..|w|] == w
  {
    if s == "" || IsDelimiter(s[0]) then "" else [s[0]] + TakeWord(s[1..])
  }

  function Prepended(c: char, r: Option<(string, string)>): Option<(string, string)> {
    if r.None? then None else Some(([c] + r.value.0, r.value.1))
  }

  /** The rest of a quoted string, and what follows it; a backslash stands before a quote or a backslash. */
  function TakeQuoted(s: string, utf8: bool): (r: Option<(string, string)>)
    ensures r.Some? ==> |r.value.1| < |s|
  {
    if s == "" then None
    else if s[0] == '"' then Some(("", s[1..]))
    else if s[0] == '\\' then
      if |s| > 1 && (s[1] == '"' || s[1] == '\\') then Prepended(s[1], TakeQuoted(s[2..], utf8)) else None
    else if TextChar(s[0], utf8) then Prepended(s[0], TakeQuoted(s[1..], utf8))
    else None
  }

  predicate Fits(kind: Kind, quoted: bool, text: string) {
    match kind
    case StringArg => quoted || IsAstring(text)
    case AtomArg => !quoted && IsAtom(text)
    case DateArg => IsDateText(text)
    case NumberArg => !quoted && IsNumber(text)
    case SetArg => !quoted && IsSequenceSet(text)
  }

  function ParseArg(kind: Kind, s: string, utf8: bool): (r: Option<(string, string)>)
    ensures r.Some? ==> |r.value.1| < |s|
  {
    if s != "" && s[0] == '"' then
      var r := TakeQuoted(s[1..], utf8);
      if r.Some? && Fits(kind, true, r.value.0) then r else None
    else
      var text := TakeWord(s);
      if text != "" && Fits(kind, false, text) then Some((text, s[|text|..])) else None
  }

  function ParseArgs(kinds: seq<Kind>, s: string, utf8: bool): (r: Option<(seq<Arg>, string)>)
    ensures r.Some? ==> |r.value.1| <= |s|
    decreases |kinds|
  {
    if kinds == [] then Some(([], s))
    else if s == "" || s[0] != ' ' then None
    else
      match ParseArg(kinds[0], s[1..], utf8)
      case None => None
      case Some((text, s')) =>
        match ParseArgs(kinds[1..], s', utf8)
        case None => None
        case Some((args, s'')) => Some(([ArgOf(kinds[0], text)] + args, s''))
  }

  /** search-key */
  function ParseKey(s: string, utf8: bool): (r: Option<(Key, string)>)
    ensures r.Some? ==> |r.value.1| < |s|
    decreases |s|, 0
  {
    if s != "" && s[0] == '(' then
      match ParseKeys(s[1..], utf8)
      case None => None
      case Some((keys, rest)) => if rest != "" && rest[0] == ')' then Some((KAnd(keys), rest[1..])) else None
    else
      var word := TakeWord(s);
      var t := s[|word|..];
      if word == "" then None
      else if word == "NOT" || word == "FUZZY" then
        if t == "" || t[0] != ' ' then None
        else
          match ParseKey(t[1..], utf8)
          case None => None
          case Some((key, rest)) => Some((if word == "NOT" then KNot(key) else KFuzzy(key), rest))
      else if word == "OR" then ParsePair(t, utf8)
      else
        match Kinds(word)
        case None => None
        case Some(kinds) =>
          match ParseArgs(kinds, t, utf8)
          case None => None
          case Some((args, rest)) => Some((KLeaf(word, args), rest))
  }

  /** SP search-key SP search-key */
  function ParsePair(t: string, utf8: bool): (r: Option<(Key, string)>)
    ensures r.Some? ==> |r.value.1| < |t|
    decreases |t|, 1
  {
    if t == "" || t[0] != ' ' then None
    else
      match ParseKey(t[1..], utf8)
      case None => None
      case Some((left, t')) =>
        if t' == "" || t'[0] != ' ' then None
        else
          match ParseKey(t'[1..], utf8)
          case None => None
          case Some((right, rest)) => Some((KOr(left, right), rest))
  }

  /** search-key *(SP search-key) */
  function ParseKeys(s: string, utf8: bool): (r: Option<(seq<Key>, string)>)
    ensures r.Some? ==> |r.value.1| < |s|
    decreases |s|, 2
  {
    match ParseKey(s, utf8)
    case None => None
    case Some((key, rest)) =>
      if rest != "" && rest[0] == ' ' then
        match ParseKeys(rest[1..], utf8)
        case None => None
        case Some((keys, rest')) => Some(([key] + keys, rest'))
      else Some(([key], rest))
  }

  /** The criteria of a SEARCH command */
  function ParseSearch(s: string, utf8: bool): Option<seq<Key>> {
    match ParseKeys(s, utf8)
    case None => None
    case Some((keys, rest)) => if rest == "" then Some(keys) else None
  }

  /** The arguments of a SEARCH command: a charset, if one is named, and the criteria */
  function ParseCriteria(s: string, utf8: bool): Option<(string, seq<Key>)> {
    if TakeWord(s) != "CHARSET" then WithCharset("", ParseSearch(s, utf8))
    else if |s| == 7 || s[7] != ' ' then None
    else
      match ParseArg(StringArg, s[8..], utf8)
      case None => None
      case Some((charset, rest)) =>
        if rest == "" || rest[0] != ' ' then None else WithCharset(charset, ParseSearch(rest[1..], utf8))
  }

  function WithCharset(charset: string, keys: Option<seq<Key>>): Option<(string, seq<Key>)> {
    if keys.None? then None else Some((charset, keys.value))
  }

  /** The truth value of a key */
  function Truth(k: Key, holds: (string, seq<Arg>, bool) -> bool, fuzzy: bool): bool
    decreases k, 0
  {
    match k
    case KLeaf(word, args) => holds(word, args, fuzzy)
    case KNot(key) => !Truth(key, holds, fuzzy)
    case KFuzzy(key) => Truth(key, holds, true)
    case KOr(left, right) => Truth(left, holds, fuzzy) || Truth(right, holds, fuzzy)
    case KAnd(keys) => AllTrue(keys, holds, fuzzy)
  }

  /** Several keys are a conjunction. */
  function AllTrue(keys: seq<Key>, holds: (string, seq<Arg>, bool) -> bool, fuzzy: bool): bool
    decreases keys, 1
  {
    keys == [] || (Truth(keys[0], holds, fuzzy) && AllTrue(keys[1..], holds, fuzzy))
  }
}
