/** A serialised query, read by the search-key grammar, means what the query means; and which queries
    exactly the grammar reads back. */
module SearchMeaning {
  import opened Bits
  import opened Decimals
  import opened Texts
  import opened ImapSets
  import opened SearchTerms
  import opened SearchGrammar

  // ---------------------------------------------------------------- The key a query stands for

  /** The key of section 6.4.4 of RFC 3501 that a leaf is meant to be; the names that are written agree. */
  function LeafWord(leaf: Leaf): (word: string)
    ensures leaf.TextLeaf? ==> word == SearchName(leaf.textKey)
    ensures leaf.FlagLeaf? ==> word == BooleanName(leaf.flagKey)
    ensures leaf.DateLeaf? ==> word == DateName(leaf.dateKey)
    ensures leaf.NumberLeaf? ==> word == NumberName(leaf.numberKey)
  {
    match leaf
    case TextLeaf(All, _) => "ALL"
    case TextLeaf(Bcc, _) => "BCC"
    case TextLeaf(Body, _) => "BODY"
    case TextLeaf(Cc, _) => "CC"
    case TextLeaf(From, _) => "FROM"
    case TextLeaf(Subject, _) => "SUBJECT"
    case TextLeaf(Text, _) => "TEXT"
    case TextLeaf(To, _) => "TO"
    case TextLeaf(Keyword, _) => "KEYWORD"
    case HeaderLeaf(_, _) => "HEADER"
    case FlagLeaf(Answered) => "ANSWERED"
    case FlagLeaf(Deleted) => "DELETED"
    case FlagLeaf(Draft) => "DRAFT"
    case FlagLeaf(Flagged) => "FLAGGED"
    case FlagLeaf(New) => "NEW"
    case FlagLeaf(Old) => "OLD"
    case FlagLeaf(Recent) => "RECENT"
    case FlagLeaf(Seen) => "SEEN"
    case DateLeaf(Before, _, _, _) => "BEFORE"
    case DateLeaf(On, _, _, _) => "ON"
    case DateLeaf(Since, _, _, _) => "SINCE"
    case DateLeaf(SentBefore, _, _, _) => "SENTBEFORE"
    case DateLeaf(SentOn, _, _, _) => "SENTON"
    case DateLeaf(SentSince, _, _, _) => "SENTSINCE"
    case NumberLeaf(Larger, _) => "LARGER"
    case NumberLeaf(Smaller, _) => "SMALLER"
    case SequenceLeaf(Uid, _) => "UID"
    case SequenceLeaf(SequenceNumber, list) => SetText(list)
  }

  /** What is asked for: the text, the date, the size, or the ids themselves, not what is written of them */
  function LeafArgs(leaf: Leaf): seq<Arg> {
    match leaf
    case TextLeaf(key, value) => if key == All then [] else [Words(value)]
    case HeaderLeaf(header, value) => [Words(header), Words(value)]
    case FlagLeaf(_) => []
    case DateLeaf(_, day, month, year) => [Date(day, month, year)]
    case NumberLeaf(_, number) => [Amount(number)]
    case SequenceLeaf(key, list) => if key == Uid then [Ids(ListRanges(list))] else []
  }

  /** The ranges of ids that intervals are */
  function ListRanges(list: seq<Interval>): seq<Range> {
    if list == [] then [] else [IntervalRange(list[0])] + ListRanges(list[1..])
  }

  function IntervalRange(interval: Interval): Range {
    Range(Some(interval.begin), if interval.HasDefinedEnd() then Some(interval.end) else None)
  }

  /** An interval that prints as a number or range of the grammar */
  predicate IsRange(interval: Interval) {
    interval.Size() != 0 && 1 <= interval.begin < 0x1_0000_0000 && 0 <= interval.end < 0x1_0000_0000
  }

  /** The grammar reads the leaf back. A value is written as it is, so it must need no backslash, and be 7-bit
      text unless the server accepted UTF-8; a header name is written without quotes. KEYWORD takes an atom
      but is written with a quoted string; a set of sequence numbers is written with a space before it.
      Sizes must be numbers of 32 bits, years must have four digits, and sets need at least one range, of
      ids of 32 bits. */
  predicate Grammatical(leaf: Leaf, utf8: bool) {
    match leaf
    case TextLeaf(key, value) => key == All || (key != Keyword && Quotable(value, utf8))
    case HeaderLeaf(header, value) => IsAstring(header) && Quotable(value, utf8)
    case FlagLeaf(_) => true
    case DateLeaf(_, day, month, year) => 0 <= day <= 99 && 1 <= month <= 12 && 1000 <= year <= 9999
    case NumberLeaf(_, number) => 0 <= number < 0x1_0000_0000
    case SequenceLeaf(key, list) => key == Uid && list != [] && forall i :: 0 <= i < |list| ==> IsRange(list[i])
  }

  /** Grammatical leaves everywhere, and no relation without subterms */
  predicate GrammaticalQuery(q: Query, utf8: bool)
    decreases q, 0
  {
    match q.form
    case Single(leaf) => Grammatical(leaf, utf8)
    case Related(_, subs) => subs != [] && GrammaticalAll(subs, utf8)
  }

  predicate GrammaticalAll(qs: seq<Query>, utf8: bool)
    decreases qs, 1
  {
    qs == [] || (GrammaticalQuery(qs[0], utf8) && GrammaticalAll(qs[1..], utf8))
  }

  function KeyOf(q: Query): Key
    decreases q, 2
  {
    var key := FormKey(q.form);
    var key' := if q.negated then KNot(key) else key;
    if q.fuzzy then KFuzzy(key') else key'
  }

  function FormKey(form: Form): Key
    decreases form, 1
  {
    match form
    case Single(leaf) => KLeaf(LeafWord(leaf), LeafArgs(leaf))
    case Related(relation, subs) =>
      if |subs| == 1 then KeyOf(subs[0])
      else if relation == And then KAnd(KeysOf(subs))
      else OrKey(subs)
  }

  function KeysOf(qs: seq<Query>): (ks: seq<Key>)
    ensures |ks| == |qs|
    decreases qs, 3
  {
    if qs == [] then [] else [KeyOf(qs[0])] + KeysOf(qs[1..])
  }

  function OrKey(qs: seq<Query>): Key
    decreases qs, 3
  {
    if qs == [] then KNot(KAnd([]))
    else if |qs| == 1 then KeyOf(qs[0])
    else KAnd([KOr(KeyOf(qs[0]), OrKey(qs[1..]))])
  }

  // ---------------------------------------------------------------- The key means the query

  function LeafHolds(holds: (string, seq<Arg>, bool) -> bool): (Leaf, bool) -> bool {
    (leaf: Leaf, fuzzy: bool) => holds(LeafWord(leaf), LeafArgs(leaf), fuzzy)
  }

  lemma {:induction false} KeyMeans(q: Query, holds: (string, seq<Arg>, bool) -> bool, fuzzy: bool)
    ensures Truth(KeyOf(q), holds, fuzzy) == Means(q, LeafHolds(holds), fuzzy)
    decreases q, 0
  {
    var f := fuzzy || q.fuzzy;
    var key := FormKey(q.form);
    var key' := if q.negated then KNot(key) else key;
    assert Truth(key', holds, f) == if q.negated then !Truth(key, holds, f) else Truth(key, holds, f);
    assert Truth(KFuzzy(key'), holds, fuzzy) == Truth(key', holds, true);
    match q.form
    case Single(leaf) =>
    case Related(relation, subs) =>
      if |subs| == 1 {
        KeyMeans(subs[0], holds, f);
        assert AllMean(subs[1..], LeafHolds(holds), f) && !SomeMeans(subs[1..], LeafHolds(holds), f);
      } else if relation == And {
        KeysMean(subs, holds, f);
      } else {
        OrKeyMeans(subs, holds, f);
      }
  }

  lemma {:induction false} KeysMean(qs: seq<Query>, holds: (string, seq<Arg>, bool) -> bool, fuzzy: bool)
    ensures AllTrue(KeysOf(qs), holds, fuzzy) == AllMean(qs, LeafHolds(holds), fuzzy)
    decreases qs, 1
  {
    if qs != [] {
      KeyMeans(qs[0], holds, fuzzy);
      KeysMean(qs[1..], holds, fuzzy);
      assert KeysOf(qs)[1..] == KeysOf(qs[1..]);
    }
  }

  lemma {:induction false} OrKeyMeans(qs: seq<Query>, holds: (string, seq<Arg>, bool) -> bool, fuzzy: bool)
    ensures Truth(OrKey(qs), holds, fuzzy) == SomeMeans(qs, LeafHolds(holds), fuzzy)
    decreases qs, 1
  {
    if qs == [] {
      assert AllTrue([], holds, fuzzy);
    } else if |qs| == 1 {
      KeyMeans(qs[0], holds, fuzzy);
      assert !SomeMeans(qs[1..], LeafHolds(holds), fuzzy);
    } else {
      KeyMeans(qs[0], holds, fuzzy);
      OrKeyMeans(qs[1..], holds, fuzzy);
      OneKey(KOr(KeyOf(qs[0]), OrKey(qs[1..])), holds, fuzzy);
    }
  }

  lemma OneKey(k: Key, holds: (string, seq<Arg>, bool) -> bool, fuzzy: bool)
    ensures AllTrue([k], holds, fuzzy) == Truth(k, holds, fuzzy)
    ensures Truth(KAnd([k]), holds, fuzzy) == Truth(k, holds, fuzzy)
  {
    assert [k][1..] == [];
    assert AllTrue([], holds, fuzzy);
  }

  // ---------------------------------------------------------------- Reading words and arguments

  /** What may follow a complete key */
  predicate Ends(rest: string) {
    rest == "" || rest[0] == ' ' || rest[0] == ')'
  }

  lemma {:induction false} TakeWordOf(w: string, rest: string)
    requires (forall i :: 0 <= i < |w| ==> !IsDelimiter(w[i])) && (rest == "" || IsDelimiter(rest[0]))
    ensures TakeWord(w + rest) == w && (w + rest)[|w|..] == rest
  {
    if w == "" {
      assert w + rest == rest;
    } else {
      assert (w + rest)[1..] == w[1..] + rest;
      TakeWordOf(w[1..], rest);
    }
  }

  function Backslashes(n: nat): (s: string)
    ensures |s| == n
  {
    if n == 0 then "" else "\\" + Backslashes(n - 1)
  }

  /** A pair of backslashes is read as one, so the text lags behind itself; it never catches up. */
  lemma {:induction false} Lagging(value: string, owed: nat, rest: string, utf8: bool)
    requires owed > 0
    ensures var r := TakeQuoted(value + ("\"" + rest), utf8); r.Some? ==> r.value.0 != Backslashes(owed) + value
    decreases |value|
  {
    var s := value + ("\"" + rest);
    assert (Backslashes(owed) + value)[0] == '\\';
    if |value| > 1 && value[0] == '\\' && value[1] == '\\' {
      Lagging(value[2..], owed + 1, rest, utf8);
      assert s[2..] == value[2..] + ("\"" + rest);
      OwedMore(owed, value);
      hide TakeQuoted, Backslashes;
      Ahead('\\', TakeQuoted(s[2..], utf8), Backslashes(owed + 1) + value[2..]);
      TakesPair(s, utf8);
    }
  }

  lemma OwedMore(owed: nat, value: string)
    requires owed > 0 && |value| > 1 && value[0] == '\\' && value[1] == '\\'
    ensures Backslashes(owed) + value == "\\" + (Backslashes(owed + 1) + value[2..])
  {
    BackslashesEnd(owed);
    hide Backslashes;
    assert value == "\\" + ("\\" + value[2..]);
    BackslashFirst(Backslashes(owed), value[2..]);
  }

  lemma BackslashFirst(owed: string, rest: string)
    requires "\\" + owed == owed + "\\"
    ensures owed + ("\\" + ("\\" + rest)) == "\\" + ((owed + "\\") + rest)
  {
    Associative(owed, "\\", "\\" + rest);
    Associative("\\", owed, "\\" + rest);
    Associative(owed, "\\", rest);
  }

  lemma {:induction false} BackslashesEnd(n: nat)
    ensures Backslashes(n + 1) == Backslashes(n) + "\\" == "\\" + Backslashes(n)
  {
    if n > 0 {
      BackslashesEnd(n - 1);
    }
  }

  lemma Ahead(c: char, r: Option<(string, string)>, text: string)
    ensures Prepended(c, r).Some? ==> r.Some? && (Prepended(c, r).value.0 == [c] + text <==> r.value.0 == text)
  {
    if r.Some? {
      assert ([c] + r.value.0)[1..] == r.value.0 && ([c] + text)[1..] == text;
    }
  }

  lemma TakesPair(s: string, utf8: bool)
    requires |s| > 1 && s[0] == '\\' && s[1] == '\\'
    ensures TakeQuoted(s, utf8) == Prepended('\\', TakeQuoted(s[2..], utf8))
  {
  }

  /** A value between quotes is read as itself if and only if it needs no backslash and is text. */
  lemma {:induction false} TakeQuotedValue(value: string, rest: string, utf8: bool)
    ensures var r := TakeQuoted(value + ("\"" + rest), utf8);
            if Quotable(value, utf8) then r == Some((value, rest)) else r.None? || r.value.0 != value
  {
    var s := value + ("\"" + rest);
    if value == "" {
      assert s == "\"" + rest && s[1..] == rest;
    } else {
      assert s[0] == value[0] && s[1..] == value[1..] + ("\"" + rest);
      QuotableCons(value, utf8);
      if value[0] != '\\' {
        TakeQuotedValue(value[1..], rest, utf8);
        assert [value[0]] + value[1..] == value;
        Ahead(value[0], TakeQuoted(s[1..], utf8), value[1..]);
      } else if |value| > 1 && value[1] == '\\' {
        Lagging(value[2..], 1, rest, utf8);
        assert s[2..] == value[2..] + ("\"" + rest);
        assert Backslashes(0) == "" && value == "\\" + (Backslashes(1) + value[2..]);
        hide TakeQuoted, Backslashes;
        Ahead('\\', TakeQuoted(s[2..], utf8), Backslashes(1) + value[2..]);
        TakesPair(s, utf8);
      }
    }
  }

  lemma QuotableCons(value: string, utf8: bool)
    requires value != ""
    ensures Quotable(value, utf8)
       <==> value[0] != '"' && value[0] != '\\' && TextChar(value[0], utf8) && Quotable(value[1..], utf8)
  {
    assert value == [value[0]] + value[1..];
  }

  lemma QuotedArg(kind: Kind, value: string, rest: string, utf8: bool)
    ensures var r := ParseArg(kind, Quote(value) + rest, utf8);
            if Quotable(value, utf8) then r == if Fits(kind, true, value) then Some((value, rest)) else None
            else r.None? || r.value.0 != value
  {
    var s := Quote(value) + rest;
    assert s[1..] == value + ("\"" + rest);
    TakeQuotedValue(value, rest, utf8);
    hide TakeQuoted;
  }

  lemma WordArg(kind: Kind, text: string, rest: string, utf8: bool)
    requires IsWord(text) && (rest == "" || IsDelimiter(rest[0]))
    ensures ParseArg(kind, text + rest, utf8) == if Fits(kind, false, text) then Some((text, rest)) else None
  {
    TakeWordOf(text, rest);
    assert (text + rest)[0] == text[0];
  }

  function AsLeaf(word: string, r: Option<(seq<Arg>, string)>): Option<(Key, string)> {
    if r.None? then None else Some((KLeaf(word, r.value.0), r.value.1))
  }

  /** One argument, and no more */
  function AsArgs(kind: Kind, r: Option<(string, string)>): Option<(seq<Arg>, string)> {
    if r.None? then None else Some(([ArgOf(kind, r.value.0)], r.value.1))
  }

  /** A keyword with its arguments */
  lemma Leafy(word: string, kinds: seq<Kind>, t: string, utf8: bool)
    requires IsWord(word) && word != "NOT" && word != "FUZZY" && word != "OR" && Kinds(word) == Some(kinds)
    requires t == "" || IsDelimiter(t[0])
    ensures ParseKey(word + t, utf8) == AsLeaf(word, ParseArgs(kinds, t, utf8))
  {
    TakeWordOf(word, t);
    assert (word + t)[0] == word[0];
  }

  lemma NoArgs(rest: string, utf8: bool)
    ensures ParseArgs([], rest, utf8) == Some(([], rest))
  {
  }

  // ---------------------------------------------------------------- Single keys read back

  /** What reading a complete text gives: the key and the rest if it is grammatical, else nothing or
      another key */
  predicate Reads(r: Option<(Key, string)>, ok: bool, key: Key, rest: string) {
    if ok then r == Some((key, rest)) else r.None? || r.value.0 != key
  }

  /** A keyword with one argument */
  lemma OneArgLeaf(word: string, kind: Kind, arg: string, rest: string, utf8: bool)
    requires IsWord(word) && word != "NOT" && word != "FUZZY" && word != "OR" && Kinds(word) == Some([kind])
    ensures ParseKey(word + " " + arg + rest, utf8) == AsLeaf(word, AsArgs(kind, ParseArg(kind, arg + rest, utf8)))
  {
    var t := " " + (arg + rest);
    assert word + " " + arg + rest == word + t;
    Leafy(word, [kind], t, utf8);
    OneArg(kind, arg + rest, utf8);
  }

  lemma OneArg(kind: Kind, s: string, utf8: bool)
    ensures ParseArgs([kind], " " + s, utf8) == AsArgs(kind, ParseArg(kind, s, utf8))
  {
    assert (" " + s)[1..] == s && [kind][1..] == [];
    if ParseArg(kind, s, utf8).Some? {
      NoArgs(ParseArg(kind, s, utf8).value.1, utf8);
      var arg := ArgOf(kind, ParseArg(kind, s, utf8).value.0);
      assert [arg] + [] == [arg];
    }
  }

  lemma BareLeaf(word: string, rest: string, utf8: bool)
    requires IsWord(word) && word != "NOT" && word != "FUZZY" && word != "OR" && Kinds(word) == Some([]) && Ends(rest)
    ensures ParseKey(word + rest, utf8) == Some((KLeaf(word, []), rest))
  {
    Leafy(word, [], rest, utf8);
    NoArgs(rest, utf8);
  }

  /** A single key reads back, if it is grammatical. */
  ghost predicate ReadsBack(leaf: Leaf, rest: string, utf8: bool) {
    Reads(ParseKey(LeafCommand(leaf) + rest, utf8), Grammatical(leaf, utf8),
          KLeaf(LeafWord(leaf), LeafArgs(leaf)), rest)
  }

  lemma TextKinds(key: SearchKey)
    requires key != All
    ensures var word := SearchName(key);
      IsWord(word) && word != "NOT" && word != "FUZZY" && word != "OR"
      && Kinds(word) == Some([if key == Keyword then AtomArg else StringArg])
  {
  }

  lemma TextLeafParses(key: SearchKey, value: string, rest: string, utf8: bool)
    requires Ends(rest)
    ensures ReadsBack(TextLeaf(key, value), rest, utf8)
  {
    if key == All {
      assert "ALL" + "" == "ALL";
      BareLeaf("ALL", rest, utf8);
    } else {
      var kind := if key == Keyword then AtomArg else StringArg;
      TextKinds(key);
      OneArgLeaf(SearchName(key), kind, Quote(value), rest, utf8);
      Associative(SearchName(key), " ", Quote(value));
      QuotedArg(kind, value, rest, utf8);
      hide ParseKey, ParseArg, Quotable;
      KeywordArg(value, rest, utf8);
    }
  }

  lemma KeywordArg(value: string, rest: string, utf8: bool)
    ensures ParseArg(AtomArg, Quote(value) + rest, utf8) == None
  {
    assert (Quote(value) + rest)[0] == '"';
  }

  lemma HeaderLeafParses(header: string, value: string, rest: string, utf8: bool)
    ensures ReadsBack(HeaderLeaf(header, value), rest, utf8)
  {
    var t := " " + (Quote(value) + rest);
    var s := " " + (header + t);
    assert "HEADER" + " " + header + " " + Quote(value) + rest == "HEADER" + s;
    Leafy("HEADER", [StringArg, StringArg], s, utf8);
    HeaderArgs(header, t, utf8);
    HeaderArg(header, value, rest, utf8);
    OneArg(StringArg, Quote(value) + rest, utf8);
    QuotedArg(StringArg, value, rest, utf8);
    hide ParseKey, ParseArg, ParseArgs, Quotable, IsAstring;
    if ParseArg(StringArg, Quote(value) + rest, utf8).Some? {
      TwoArgs(header, ParseArg(StringArg, Quote(value) + rest, utf8).value.0, value);
    }
  }

  /** A header name that is no astring is not read, or read as something else. */
  lemma HeaderArg(header: string, value: string, rest: string, utf8: bool)
    ensures var r := ParseArg(StringArg, header + (" " + (Quote(value) + rest)), utf8);
            if IsAstring(header) then r == Some((header, " " + (Quote(value) + rest)))
            else r.None? || r.value.0 != header
  {
    var t := " " + (Quote(value) + rest);
    var s := header + t;
    if IsWord(header) {
      WordArg(StringArg, header, t, utf8);
      AstringWord(header);
    } else if header == "" {
      assert s[0] == ' ';
    } else if header[0] == '"' {
      assert s[1..] == header[1..] + (" \"" + (value + "\"" + rest));
      QuotedName(header[1..], value + "\"" + rest, utf8);
    } else {
      TakeWordOfPrefix(header, t);
    }
  }

  lemma AstringWord(s: string)
    ensures IsAstring(s) ==> IsWord(s)
  {
  }

  lemma {:induction false} TakeWordOfPrefix(w: string, t: string)
    requires !IsWord(w) && w != ""
    ensures |TakeWord(w + t)| < |w|
  {
    if !IsDelimiter(w[0]) {
      assert w == [w[0]] + w[1..] && (w + t)[1..] == w[1..] + t;
      TakeWordOfPrefix(w[1..], t);
    }
  }

  /** A quoted string that a header name opens ends at the next quote at the latest. Read as the name
      itself, it would be one character too short, or have no quote in it. */
  lemma {:induction false} QuotedName(s: string, rest: string, utf8: bool)
    ensures var r := TakeQuoted(s + (" \"" + rest), utf8);
            r.Some? ==> |r.value.0| <= |s| || (|r.value.0| == |s| + 1 && '"' !in r.value.0)
    decreases |s|
  {
    var all := s + (" \"" + rest);
    if s == "" {
      assert all[1..] == "\"" + rest && all[1..][1..] == rest;
    } else if s[0] == '\\' {
      if |s| > 1 {
        assert all[2..] == s[2..] + (" \"" + rest);
        QuotedName(s[2..], rest, utf8);
      }
    } else {
      assert all[1..] == s[1..] + (" \"" + rest);
      QuotedName(s[1..], rest, utf8);
    }
  }

  lemma TwoArgs(header: string, text: string, value: string)
    ensures [Words(header)] + [Words(text)] == [Words(header), Words(value)] <==> text == value
  {
    assert ([Words(header)] + [Words(text)])[1] == Words(text) && [Words(header), Words(value)][1] == Words(value);
  }

  lemma HeaderArgs(header: string, t: string, utf8: bool)
    ensures var first := ParseArg(StringArg, header + t, utf8);
            var r := ParseArgs([StringArg, StringArg], " " + (header + t), utf8);
            && (first == Some((header, t)) ==>
                 var next := ParseArgs([StringArg], t, utf8);
                 r == if next.None? then None else Some(([Words(header)] + next.value.0, next.value.1)))
            && (first.None? ==> r.None?)
            && (r.Some? ==> r.value.0 != [] && first.Some? && r.value.0[0] == Words(first.value.0))
  {
    assert (" " + (header + t))[1..] == header + t;
    assert [StringArg, StringArg][1..] == [StringArg];
  }

  // ---------------------------------------------------------------- Dates, sizes and sets

  lemma SplitThree(a: string, b: string, c: string, sep: char)
    requires Without(a, sep) && Without(b, sep) && Without(c, sep)
    ensures Split(a + [sep] + b + [sep] + c, sep) == [a, b, c]
  {
    Associative(a + [sep], b + [sep], c);
    Associative(a + [sep], b, [sep]);
    SplitPiece(a, sep, b + [sep] + c);
    SplitPiece(b, sep, c);
    SplitPiece(c, sep, "");
  }

  lemma MonthFits(month: int)
    ensures IsMonth(MonthName(month)) <==> 1 <= month <= 12
    ensures 1 <= month <= 12 ==> MonthName(month) == MONTHS[month - 1]
    ensures Without(MonthName(month), '-') && Quotable(MonthName(month), false)
  {
    MonthText(month);
    NoMonth();
    if 1 <= month <= 12 {
      MonthListed(month);
      assert MONTHS[month - 1] in MONTHS;
    }
    hide MONTHS;
  }

  lemma MonthText(month: int)
    ensures Without(MonthName(month), '-') && Quotable(MonthName(month), false)
    ensures !(1 <= month <= 12) ==> MonthName(month) == ""
  {
  }

  lemma NoMonth()
    ensures "" !in MONTHS && |MONTHS| == 12
  {
  }

  lemma MonthListed(month: int)
    requires 1 <= month <= 12
    ensures MonthName(month) == MONTHS[month - 1]
  {
  }

  lemma MonthsDiffer(a: nat, b: nat)
    requires a < b < 12
    ensures MONTHS[a] != MONTHS[b]
  {
  }

  /** The name of a month is read as its number. */
  lemma {:induction false} MonthRead(month: nat, n: nat)
    requires 1 <= n <= month <= 12
    ensures MonthFrom(MonthName(month), n) == month
    decreases 13 - n
  {
    MonthFits(month);
    if n < month {
      MonthsDiffer(n - 1, month - 1);
      MonthRead(month, n + 1);
    }
    hide MonthName, MONTHS;
  }

  lemma NumberPieces(n: int)
    ensures Quotable(Number(n), false)
    ensures n >= 0 ==> Without(Number(n), '-') && AllDigits(Number(n))
  {
  }

  /** More than two dashes leave more than three pieces. */
  lemma ManyPieces(a: string, b: string, c: string)
    requires Without(a, '-') && Without(b, '-')
    ensures |Split(a + "-" + b + "-" + c, '-')| == 2 + |Split(c, '-')|
  {
    assert a + "-" + b + "-" + c == a + ['-'] + (b + ['-'] + c);
    SplitPiece(a, '-', b + ['-'] + c);
    SplitPiece(b, '-', c);
  }

  /** A negative day puts a dash in front. */
  lemma DashFirst(n: string, m: string, y: string)
    requires Without(n, '-') && Without(m, '-')
    ensures |Split("-" + n + "-" + m + "-" + y, '-')| >= 4
  {
    var t := n + "-" + m + "-" + y;
    assert "-" + n + "-" + m + "-" + y == "" + ['-'] + t;
    SplitPiece("", '-', t);
    ManyPieces(n, m, y);
  }

  /** A negative year has a dash of its own. */
  lemma DashLast(d: string, m: string, n: string)
    requires Without(d, '-') && Without(m, '-')
    ensures |Split(d + "-" + m + "-" + ("-" + n), '-')| >= 4
  {
    ManyPieces(d, m, "-" + n);
    assert "-" + n == "" + ['-'] + n;
    SplitPiece("", '-', n);
  }

  /** A date that is written as the grammar has it is read as the same day, month and year. */
  lemma DateRead(day: nat, month: nat, year: nat)
    requires 1 <= month <= 12
    ensures DateOf(DateText(day, month, year)) == Date(day, month, year)
  {
    MonthFits(month);
    MonthRead(month, 1);
    NumberPieces(day);
    NumberPieces(year);
    DecimalValue(day);
    DecimalValue(year);
    SplitThree(Number(day), MonthName(month), Number(year), '-');
    hide Decimal, MonthName, IsMonth, Quotable, MonthFrom;
  }

  lemma PlainDate(day: nat, month: int, year: nat)
    ensures IsDateText(DateText(day, month, year)) <==> day <= 99 && 1 <= month <= 12 && 1000 <= year <= 9999
  {
    MonthFits(month);
    NumberPieces(day);
    NumberPieces(year);
    DecimalLength(day);
    DecimalLength(year);
    SplitThree(Number(day), MonthName(month), Number(year), '-');
    hide Decimal, MonthName, IsMonth, Quotable;
  }

  /** Which dates are written as the grammar has them */
  lemma DateTextExactly(day: int, month: int, year: int)
    ensures IsDateText(DateText(day, month, year)) <==> 0 <= day <= 99 && 1 <= month <= 12 && 1000 <= year <= 9999
  {
    MonthFits(month);
    NumberPieces(day);
    NumberPieces(year);
    hide MonthName, IsMonth, Quotable, Decimal;
    if day < 0 {
      NumberPieces(-day);
      DashFirst(Decimal(-day), MonthName(month), Number(year));
    } else if year < 0 {
      DashLast(Number(day), MonthName(month), Decimal(-year));
    } else {
      PlainDate(day, month, year);
    }
  }

  lemma DateQuotable(day: int, month: int, year: int, utf8: bool)
    ensures Quotable(DateText(day, month, year), utf8)
  {
    NumberPieces(day);
    NumberPieces(year);
    MonthFits(month);
  }

  lemma NumberFits(n: int)
    ensures var s := Number(n);
            && (IsNumber(s) <==> 0 <= n < 0x1_0000_0000) && (IsSequenceNumber(s) <==> 1 <= n < 0x1_0000_0000)
            && IsWord(s) && Without(s, ',') && Without(s, ':')
  {
    if n >= 0 {
      DecimalValue(n);
    }
    if n >= 1 {
      DecimalLead(n);
    } else if n == 0 {
      assert Number(0) == "0";
    }
  }

  lemma RangeFits(begin: string, end: string)
    requires Without(begin, ':') && Without(end, ':')
    ensures IsSequenceRange(begin) <==> IsSequenceNumber(begin)
    ensures IsSequenceRange(begin + ":" + end) <==> IsSequenceNumber(begin) && IsSequenceNumber(end)
  {
    FromPieces(begin, end);
    hide IsSequenceNumber, Split;
    var one, two := [begin], [begin, end];
    assert one[0] == begin && two[0] == begin && two[1] == end;
  }

  /** Which intervals are written as the grammar has them */
  lemma IntervalTextExactly(interval: Interval)
    ensures var s := interval.ToImapSequence();
            (IsSequenceRange(s) <==> IsRange(interval)) && Without(s, ',') && (s != "" ==> IsWord(s))
  {
    var begin := Number(interval.begin);
    var end := if interval.HasDefinedEnd() then Number(interval.end) else "*";
    NumberFits(interval.begin);
    if interval.HasDefinedEnd() {
      NumberFits(interval.end);
    }
    RangeFits(begin, end);
    if interval.Size() == 0 {
      RangeFits("", "");
    }
    hide Number, IsSequenceRange, IsSequenceNumber;
  }

  /** Which sets are written as the grammar has them */
  lemma SetTextExactly(list: seq<Interval>)
    ensures var s := SetText(list);
            && (IsSequenceSet(s) <==> list != [] && forall i :: 0 <= i < |list| ==> IsRange(list[i]))
            && (s != "" ==> IsWord(s))
  {
    var texts := SequenceTexts(list);
    hide IsSequenceRange, IsRange, Interval.ToImapSequence;
    forall i | 0 <= i < |texts|
      ensures (IsSequenceRange(texts[i]) <==> IsRange(list[i]))
      ensures Without(texts[i], ',') && (texts[i] != "" ==> IsWord(texts[i]))
    {
      SequenceTextsAt(list, i);
      IntervalTextExactly(list[i]);
    }
    if list == [] {
      RangeFits("", "");
      EmptySet();
    } else {
      SplitJoin(texts, ',');
      assert IsSequenceSet(SetText(list)) <==> forall i :: 0 <= i < |texts| ==> IsSequenceRange(texts[i]);
      JoinWord(texts);
    }
  }

  lemma EmptySet()
    ensures !IsSequenceSet("")
  {
    RangeFits("", "");
    assert Split("", ',')[0] == "";
  }

  lemma {:induction false} JoinWord(texts: seq<string>)
    requires texts != [] && forall i :: 0 <= i < |texts| ==> texts[i] != "" ==> IsWord(texts[i])
    ensures Join(texts, ',') != "" ==> IsWord(Join(texts, ','))
  {
    if |texts| > 1 {
      JoinWord(texts[1..]);
    }
  }

  lemma DateLeafParses(key: DateKey, day: int, month: int, year: int, rest: string, utf8: bool)
    ensures ReadsBack(DateLeaf(key, day, month, year), rest, utf8)
  {
    var text := DateText(day, month, year);
    DateTextExactly(day, month, year);
    DateQuotable(day, month, year, utf8);
    DateKinds(key);
    OneArgLeaf(DateName(key), DateArg, Quote(text), rest, utf8);
    QuotedArg(DateArg, text, rest, utf8);
    if IsDateText(text) {
      DateRead(day, month, year);
    }
    hide ParseKey, ParseArg, Quotable, IsDateText, DateText, DateOf;
  }

  lemma DateKinds(key: DateKey)
    ensures var word := DateName(key);
      IsWord(word) && word != "NOT" && word != "FUZZY" && word != "OR" && Kinds(word) == Some([DateArg])
  {
  }

  lemma NumberLeafParses(key: NumberKey, number: int, rest: string, utf8: bool)
    requires Ends(rest)
    ensures ReadsBack(NumberLeaf(key, number), rest, utf8)
  {
    hide ParseKey, ParseArg, Number, Kinds, IsNumber, IsWord;
    var text := Number(number);
    NumberFits(number);
    NumberKinds(key);
    OneArgLeaf(NumberName(key), NumberArg, text, rest, utf8);
    WordArg(NumberArg, text, rest, utf8);
    if number >= 0 {
      NumberValue(number);
    }
  }

  lemma NumberValue(n: nat)
    ensures ValueOf(Number(n)) == n
  {
    DecimalValue(n);
  }

  lemma NumberKinds(key: NumberKey)
    ensures var word := NumberName(key);
      IsWord(word) && word != "NOT" && word != "FUZZY" && word != "OR" && Kinds(word) == Some([NumberArg])
  {
  }

  lemma UidParses(list: seq<Interval>, rest: string, utf8: bool)
    requires Ends(rest)
    ensures ReadsBack(SequenceLeaf(Uid, list), rest, utf8)
  {
    var text := SetText(list);
    SetTextExactly(list);
    OneArgLeaf("UID", SetArg, text, rest, utf8);
    SetArgExactly(text, rest, utf8);
    if IsSequenceSet(text) {
      SetRead(list);
    }
    hide ParseKey, ParseArg, SetText, IsSequenceSet, IsRange, RangesOf, ListRanges;
  }

  /** The text of a set is read as its ranges, in their order. */
  lemma SetRead(list: seq<Interval>)
    requires list != [] && forall i :: 0 <= i < |list| ==> IsRange(list[i])
    ensures RangesOf(Split(SetText(list), ',')) == ListRanges(list)
  {
    var texts := SequenceTexts(list);
    forall i | 0 <= i < |texts|
      ensures Without(texts[i], ',')
    {
      SequenceTextsAt(list, i);
      IntervalTextExactly(list[i]);
    }
    SplitJoin(texts, ',');
    RangesRead(list);
  }

  lemma {:induction false} RangesRead(list: seq<Interval>)
    requires forall i :: 0 <= i < |list| ==> IsRange(list[i])
    ensures RangesOf(SequenceTexts(list)) == ListRanges(list)
  {
    if list != [] {
      IntervalRead(list[0]);
      RangesRead(list[1..]);
      hide RangeOf, IntervalRange, IsRange;
      assert SequenceTexts(list)[1..] == SequenceTexts(list[1..]);
    }
  }

  lemma IntervalRead(interval: Interval)
    requires IsRange(interval)
    ensures RangeOf(interval.ToImapSequence()) == IntervalRange(interval)
  {
    var begin := Number(interval.begin);
    var end := if interval.HasDefinedEnd() then Number(interval.end) else "*";
    NumberFits(interval.begin);
    EndRead(interval.begin);
    if interval.HasDefinedEnd() {
      NumberFits(interval.end);
      EndRead(interval.end);
    }
    FromPieces(begin, end);
    hide Number, Split, EndOf;
    assert EndOf("*") == None;
    assert interval.Size() == 1 ==> interval.HasDefinedEnd() && interval.end == interval.begin;
  }

  lemma EndRead(n: nat)
    ensures EndOf(Number(n)) == Some(n)
  {
    DecimalValue(n);
    NumberText(n);
  }

  lemma SetArgExactly(text: string, rest: string, utf8: bool)
    requires Ends(rest) && (text != "" ==> IsWord(text))
    ensures ParseArg(SetArg, text + rest, utf8) == if IsSequenceSet(text) then Some((text, rest)) else None
  {
    EmptySet();
    hide IsSequenceSet;
    if text == "" {
      assert "" + rest == rest;
    } else {
      WordArg(SetArg, text, rest, utf8);
    }
  }

  /** The space in front of a set of sequence numbers keeps it from being read. */
  lemma SequenceNumberParses(list: seq<Interval>, rest: string, utf8: bool)
    ensures ReadsBack(SequenceLeaf(SequenceNumber, list), rest, utf8)
  {
    assert (LeafCommand(SequenceLeaf(SequenceNumber, list)) + rest)[0] == ' ';
  }

  lemma LeafParses(leaf: Leaf, rest: string, utf8: bool)
    requires Ends(rest)
    ensures ReadsBack(leaf, rest, utf8)
  {
    match leaf
    case TextLeaf(key, value) => TextLeafParses(key, value, rest, utf8);
    case HeaderLeaf(header, value) => HeaderLeafParses(header, value, rest, utf8);
    case FlagLeaf(key) => FlagLeafParses(key, rest, utf8);
    case DateLeaf(key, day, month, year) => DateLeafParses(key, day, month, year, rest, utf8);
    case NumberLeaf(key, number) => NumberLeafParses(key, number, rest, utf8);
    case SequenceLeaf(Uid, list) => UidParses(list, rest, utf8);
    case SequenceLeaf(SequenceNumber, list) => SequenceNumberParses(list, rest, utf8);
  }

  lemma FlagLeafParses(key: BooleanKey, rest: string, utf8: bool)
    requires Ends(rest)
    ensures ReadsBack(FlagLeaf(key), rest, utf8)
  {
    BareLeaf(BooleanName(key), rest, utf8);
  }

  // ---------------------------------------------------------------- Queries read back

  function AsNot(r: Option<(Key, string)>): Option<(Key, string)> {
    if r.None? then None else Some((KNot(r.value.0), r.value.1))
  }

  function AsFuzzy(r: Option<(Key, string)>): Option<(Key, string)> {
    if r.None? then None else Some((KFuzzy(r.value.0), r.value.1))
  }

  lemma NotParses(s: string, utf8: bool)
    ensures ParseKey("NOT " + s, utf8) == AsNot(ParseKey(s, utf8))
  {
    assert "NOT " + s == "NOT" + (" " + s);
    TakeWordOf("NOT", " " + s);
    assert (" " + s)[1..] == s;
    assert ("NOT " + s)[0] == 'N';
  }

  lemma FuzzyParses(s: string, utf8: bool)
    ensures ParseKey("FUZZY " + s, utf8) == AsFuzzy(ParseKey(s, utf8))
  {
    assert "FUZZY " + s == "FUZZY" + (" " + s);
    TakeWordOf("FUZZY", " " + s);
    assert (" " + s)[1..] == s;
    assert ("FUZZY " + s)[0] == 'F';
  }

  /** Several keys and the closing parenthesis */
  function AsAnd(r: Option<(seq<Key>, string)>): Option<(Key, string)> {
    if r.None? || r.value.1 == "" || r.value.1[0] != ')' then None else Some((KAnd(r.value.0), r.value.1[1..]))
  }

  lemma ParenthesisParses(s: string, utf8: bool)
    ensures ParseKey("(" + s, utf8) == AsAnd(ParseKeys(s, utf8))
  {
    assert ("(" + s)[1..] == s;
  }

  /** Reading several keys gives these, if they are grammatical, else nothing or others. */
  predicate ReadsAll(r: Option<(seq<Key>, string)>, ok: bool, keys: seq<Key>, rest: string) {
    if ok then r == Some((keys, rest)) else r.None? || r.value.0 != keys
  }

  /** A key, a space, and more keys */
  lemma MoreKeysParse(text: string, ok: bool, key: Key, more: string, okMore: bool, keys: seq<Key>, rest: string,
                      utf8: bool)
    requires Reads(ParseKey(text + (" " + more), utf8), ok, key, " " + more)
    requires ReadsAll(ParseKeys(more, utf8), okMore, keys, rest)
    ensures ReadsAll(ParseKeys(text + (" " + more), utf8), ok && okMore, [key] + keys, rest)
  {
    hide ParseKey;
    assert (" " + more)[1..] == more;
    var r := ParseKeys(text + (" " + more), utf8);
    if ok {
      if ParseKeys(more, utf8).Some? {
        SameTail(key, ParseKeys(more, utf8).value.0, keys);
      }
    } else if r.Some? {
      assert r.value.0[0] != key;
    }
  }

  lemma SameTail(key: Key, a: seq<Key>, b: seq<Key>)
    ensures [key] + a == [key] + b <==> a == b
  {
    assert ([key] + a)[1..] == a && ([key] + b)[1..] == b;
  }

  lemma LastKeyParses(s: string, ok: bool, key: Key, rest: string, utf8: bool)
    requires Reads(ParseKey(s, utf8), ok, key, rest) && (rest == "" || rest[0] == ')')
    ensures ReadsAll(ParseKeys(s, utf8), ok, [key], rest)
  {
    hide ParseKey;
    if !ok && ParseKeys(s, utf8).Some? {
      assert ParseKeys(s, utf8).value.0[0] != key;
    }
  }

  lemma OrWord(s: string, utf8: bool)
    ensures ParseKey("OR " + s, utf8) == ParsePair(" " + s, utf8)
  {
    assert "OR " + s == "OR" + (" " + s);
    TakeWordOf("OR", " " + s);
    assert ("OR" + (" " + s))[0] == 'O';
  }

  /** OR and its two keys */
  lemma OrParses(left: string, okLeft: bool, a: Key, right: string, okRight: bool, b: Key, rest: string, utf8: bool)
    requires Reads(ParseKey(left + (" " + right), utf8), okLeft, a, " " + right)
    requires Reads(ParseKey(right, utf8), okRight, b, rest)
    ensures Reads(ParseKey("OR " + (left + (" " + right)), utf8), okLeft && okRight, KOr(a, b), rest)
  {
    OrWord(left + (" " + right), utf8);
    hide ParseKey;
    assert (" " + (left + (" " + right)))[1..] == left + (" " + right) && (" " + right)[1..] == right;
  }

  function TextOf(q: Query): string {
    Build(q).Serialize()
  }

  /** The text without the prefixes */
  function FormText(form: Form): string {
    match form
    case Single(leaf) => LeafCommand(leaf)
    case Related(relation, subs) => RelationTerm(relation, BuildAll(subs)).command
  }

  lemma TextParts(q: Query)
    ensures TextOf(q) == (if q.fuzzy then "FUZZY " else "") + ((if q.negated then "NOT " else "") + FormText(q.form))
  {
    Associative(if q.fuzzy then "FUZZY " else "", if q.negated then "NOT " else "", FormText(q.form));
  }

  lemma {:induction false} QueryParses(q: Query, rest: string, utf8: bool)
    requires Ends(rest)
    ensures Reads(ParseKey(TextOf(q) + rest, utf8), GrammaticalQuery(q, utf8), KeyOf(q), rest)
    decreases q, 1
  {
    FormParses(q, rest, utf8);
    var form := FormText(q.form) + rest;
    var inner := (if q.negated then "NOT " else "") + FormText(q.form);
    TextParts(q);
    Associative(if q.fuzzy then "FUZZY " else "", inner, rest);
    Associative(if q.negated then "NOT " else "", FormText(q.form), rest);
    NotParses(form, utf8);
    assert "" + form == form;
    FuzzyParses(inner + rest, utf8);
    assert "" + (inner + rest) == inner + rest;
    hide ParseKey, FormText, TextOf;
  }

  lemma {:induction false} FormParses(q: Query, rest: string, utf8: bool)
    requires Ends(rest)
    ensures Reads(ParseKey(FormText(q.form) + rest, utf8), GrammaticalQuery(q, utf8), FormKey(q.form), rest)
    decreases q, 0
  {
    hide ParseKey;
    match q.form
    case Single(leaf) => LeafParses(leaf, rest, utf8);
    case Related(relation, subs) =>
      assert FormText(q.form) == RelationTerm(relation, BuildAll(subs)).command;
      if subs == [] {
        NothingParses(rest, utf8);
      } else if |subs| == 1 {
        QueryParses(subs[0], rest, utf8);
        assert BuildAll(subs)[0] == Build(subs[0]);
        assert GrammaticalAll(subs[1..], utf8);
      } else if relation == And {
        SpacedParses(subs, ")" + rest, utf8);
        AndText(BuildAll(subs), rest);
        ParenthesisParses(Spaced(BuildAll(subs)) + (")" + rest), utf8);
        assert (")" + rest)[1..] == rest;
      } else {
        ChainParses(subs, rest, utf8);
      }
  }

  /** A relation without subterms is written as nothing. */
  lemma NothingParses(rest: string, utf8: bool)
    requires Ends(rest)
    ensures ParseKey("" + rest, utf8) == None
  {
    assert "" + rest == rest && TakeWord(rest) == "";
  }

  lemma AndText(ts: seq<Term>, rest: string)
    ensures "(" + Spaced(ts) + ")" + rest == "(" + (Spaced(ts) + (")" + rest))
  {
  }

  lemma {:induction false} SpacedParses(qs: seq<Query>, rest: string, utf8: bool)
    requires qs != [] && (rest == "" || rest[0] == ')')
    ensures ReadsAll(ParseKeys(Spaced(BuildAll(qs)) + rest, utf8), GrammaticalAll(qs, utf8), KeysOf(qs), rest)
    decreases qs, 2
  {
    hide ParseKey, ParseKeys;
    var ts := BuildAll(qs);
    assert ts[0] == Build(qs[0]) && ts[1..] == BuildAll(qs[1..]);
    if |qs| == 1 {
      QueryParses(qs[0], rest, utf8);
      assert GrammaticalAll(qs[1..], utf8) && KeysOf(qs[1..]) == [];
      assert [KeyOf(qs[0])] + [] == [KeyOf(qs[0])];
      LastKeyParses(TextOf(qs[0]) + rest, GrammaticalQuery(qs[0], utf8), KeyOf(qs[0]), rest, utf8);
    } else {
      var more := Spaced(ts[1..]) + rest;
      SpacedText(ts, rest);
      QueryParses(qs[0], " " + more, utf8);
      SpacedParses(qs[1..], rest, utf8);
      MoreKeysParse(TextOf(qs[0]), GrammaticalQuery(qs[0], utf8), KeyOf(qs[0]), more,
                    GrammaticalAll(qs[1..], utf8), KeysOf(qs[1..]), rest, utf8);
    }
  }

  lemma SpacedText(ts: seq<Term>, rest: string)
    requires |ts| >= 2
    ensures Spaced(ts) + rest == ts[0].Serialize() + (" " + (Spaced(ts[1..]) + rest))
  {
    Associative(ts[0].Serialize() + " ", Spaced(ts[1..]), rest);
    Associative(ts[0].Serialize(), " ", Spaced(ts[1..]) + rest);
  }

  lemma {:induction false} ChainParses(qs: seq<Query>, rest: string, utf8: bool)
    requires qs != [] && Ends(rest)
    ensures Reads(ParseKey(OrChain(BuildAll(qs)) + rest, utf8), GrammaticalAll(qs, utf8), OrKey(qs), rest)
    decreases qs, 2
  {
    hide ParseKey, ParseKeys;
    var ts := BuildAll(qs);
    assert ts[0] == Build(qs[0]) && ts[1..] == BuildAll(qs[1..]);
    if |qs| == 1 {
      QueryParses(qs[0], rest, utf8);
      assert GrammaticalAll(qs[1..], utf8);
    } else {
      var inner := "OR " + (TextOf(qs[0]) + (" " + (OrChain(ts[1..]) + (")" + rest))));
      ChainText(TextOf(qs[0]), OrChain(ts[1..]), rest);
      ChainInner(qs, ")" + rest, utf8);
      ParenthesisParses(inner, utf8);
      assert (")" + rest)[1..] == rest;
    }
  }

  lemma ChainText(a: string, chain: string, rest: string)
    ensures "(OR " + a + " " + chain + ")" + rest == "(" + ("OR " + (a + (" " + (chain + (")" + rest)))))
  {
    Associative("(OR " + a + " " + chain, ")", rest);
    Associative("(OR " + a + " ", chain, ")" + rest);
    Associative("(OR " + a, " ", chain + (")" + rest));
    Associative("(OR ", a, " " + (chain + (")" + rest)));
    Associative("(", "OR ", a + (" " + (chain + (")" + rest))));
    assert "(" + "OR " == "(OR ";
  }

  lemma {:induction false} ChainInner(qs: seq<Query>, rest: string, utf8: bool)
    requires |qs| >= 2 && (rest == "" || rest[0] == ')')
    ensures var inner := "OR " + (TextOf(qs[0]) + (" " + (OrChain(BuildAll(qs)[1..]) + rest)));
      ReadsAll(ParseKeys(inner, utf8), GrammaticalAll(qs, utf8), [KOr(KeyOf(qs[0]), OrKey(qs[1..]))], rest)
    decreases qs, 1
  {
    hide ParseKey, ParseKeys;
    var ts := BuildAll(qs);
    assert ts[1..] == BuildAll(qs[1..]);
    var right := OrChain(ts[1..]) + rest;
    QueryParses(qs[0], " " + right, utf8);
    ChainParses(qs[1..], rest, utf8);
    OrParses(TextOf(qs[0]), GrammaticalQuery(qs[0], utf8), KeyOf(qs[0]),
             right, GrammaticalAll(qs[1..], utf8), OrKey(qs[1..]), rest, utf8);
    LastKeyParses("OR " + (TextOf(qs[0]) + (" " + right)), GrammaticalAll(qs, utf8),
                  KOr(KeyOf(qs[0]), OrKey(qs[1..])), rest, utf8);
  }

  // ---------------------------------------------------------------- The SEARCH command

  lemma LeafStart(leaf: Leaf)
    ensures LeafCommand(leaf) != "" && LeafCommand(leaf)[0] != '('
  {
  }

  /** The criteria that mean a key: several keys are a conjunction. */
  function TopKeys(key: Key): seq<Key> {
    if key.KAnd? then key.keys else [key]
  }

  /** The first and the last character of a relation's text belong together; what is between them
      reads as `keys` exactly if the subterms are grammatical. */
  ghost predicate StripsTo(text: string, ok: bool, keys: seq<Key>, utf8: bool) {
    && text == "(" + TopLevel(text) + ")"
    && (ParseSearch(TopLevel(text), utf8) == Some(keys) <==> ok)
  }

  lemma Strip(inner: string)
    ensures TopLevel("(" + inner + ")") == inner
  {
  }

  lemma SearchReads(s: string, ok: bool, keys: seq<Key>, utf8: bool)
    requires ReadsAll(ParseKeys(s, utf8), ok, keys, "")
    ensures ParseSearch(s, utf8) == Some(keys) <==> ok
  {
    hide ParseKeys;
  }

  lemma StrippedAnd(qs: seq<Query>, utf8: bool)
    requires |qs| >= 2
    ensures StripsTo("(" + Spaced(BuildAll(qs)) + ")", GrammaticalAll(qs, utf8), KeysOf(qs), utf8)
  {
    hide ParseKeys, ParseSearch;
    var inner := Spaced(BuildAll(qs));
    Strip(inner);
    SpacedParses(qs, "", utf8);
    assert inner + "" == inner;
    SearchReads(inner, GrammaticalAll(qs, utf8), KeysOf(qs), utf8);
  }

  lemma StrippedOr(qs: seq<Query>, utf8: bool)
    requires |qs| >= 2
    ensures StripsTo(OrChain(BuildAll(qs)), GrammaticalAll(qs, utf8), [KOr(KeyOf(qs[0]), OrKey(qs[1..]))], utf8)
  {
    hide ParseKeys, ParseSearch;
    var ts := BuildAll(qs);
    var inner := "OR " + (TextOf(qs[0]) + (" " + (OrChain(ts[1..]) + "")));
    ChainText(TextOf(qs[0]), OrChain(ts[1..]), "");
    OrChainText(ts, inner);
    Strip(inner);
    ChainInner(qs, "", utf8);
    SearchReads(inner, GrammaticalAll(qs, utf8), [KOr(KeyOf(qs[0]), OrKey(qs[1..]))], utf8);
  }

  lemma OrChainText(ts: seq<Term>, inner: string)
    requires |ts| >= 2 && inner == "OR " + (ts[0].Serialize() + (" " + (OrChain(ts[1..]) + "")))
    ensures OrChain(ts) == "(" + inner + ")"
  {
    hide Term.Serialize;
    OrText(ts[0].Serialize(), OrChain(ts[1..]));
  }

  lemma OrText(first: string, rest: string)
    ensures "(" + ("OR " + (first + (" " + (rest + "")))) + ")" == "(OR " + first + " " + rest + ")"
  {
    assert rest + "" == rest;
    Associative("OR ", first, " " + rest);
  }

  /** A text that starts with a parenthesis is one relation, and means the same without it and the
      parenthesis that matches it. */
  lemma {:induction false} Stripped(q: Query, utf8: bool)
    requires TextOf(q) != "" && TextOf(q)[0] == '('
    ensures KeyOf(q).KAnd? && StripsTo(TextOf(q), GrammaticalQuery(q, utf8), KeyOf(q).keys, utf8)
    decreases q
  {
    hide ParseSearch, TopLevel;
    TextParts(q);
    assert !q.fuzzy && !q.negated;
    assert TextOf(q) == FormText(q.form) && KeyOf(q) == FormKey(q.form);
    match q.form
    case Single(leaf) =>
      LeafStart(leaf);
    case Related(relation, subs) =>
      if |subs| == 1 {
        Stripped(subs[0], utf8);
        assert GrammaticalAll(subs[1..], utf8);
      } else if relation == And {
        StrippedAnd(subs, utf8);
      } else {
        StrippedOr(subs, utf8);
        assert KeyOf(q) == OrKey(subs) == KAnd([KOr(KeyOf(subs[0]), OrKey(subs[1..]))]);
      }
  }

  /** Other texts are of one key that is no conjunction, or of none. */
  lemma {:induction false} Unstripped(q: Query)
    requires TextOf(q) == "" || TextOf(q)[0] != '('
    ensures (KeyOf(q).KAnd? ==> TextOf(q) == "") && TopLevel(TextOf(q)) == TextOf(q)
    decreases q
  {
    TextParts(q);
    if !q.fuzzy && !q.negated && q.form.Related? {
      var subs := q.form.subs;
      assert TextOf(q) == FormText(q.form) && KeyOf(q) == FormKey(q.form);
      if |subs| == 1 {
        Unstripped(subs[0]);
        assert TextOf(q) == TextOf(subs[0]);
      } else if subs == [] {
        assert TextOf(q) == "";
      }
    } else {
      OneKeyOnly(q);
    }
  }

  lemma OneKeyOnly(q: Query)
    requires q.fuzzy || q.negated || q.form.Single?
    ensures !KeyOf(q).KAnd?
  {
  }

  /** What goes on the wire is read back as the query if and only if the query is grammatical, and then a
      message matches the criteria if and only if it matches the query. */
  lemma SearchMeansQuery(q: Query, holds: (string, seq<Arg>, bool) -> bool, utf8: bool)
    ensures ParseSearch(TopLevel(TextOf(q)), utf8) == Some(TopKeys(KeyOf(q))) <==> GrammaticalQuery(q, utf8)
    ensures AllTrue(TopKeys(KeyOf(q)), holds, false) == Means(q, LeafHolds(holds), false)
  {
    hide ParseKey, ParseSearch, TopLevel, TextOf;
    KeyMeans(q, holds, false);
    OneKey(KeyOf(q), holds, false);
    if TextOf(q) != "" && TextOf(q)[0] == '(' {
      Stripped(q, utf8);
    } else {
      Unstripped(q);
      NothingFound(utf8);
      QueryParses(q, "", utf8);
      assert TextOf(q) + "" == TextOf(q);
      LastKeyParses(TextOf(q), GrammaticalQuery(q, utf8), KeyOf(q), "", utf8);
      SearchReads(TextOf(q), GrammaticalQuery(q, utf8), [KeyOf(q)], utf8);
    }
  }

  lemma NothingFound(utf8: bool)
    ensures ParseSearch("", utf8) == None
  {
  }

  // ---------------------------------------------------------------- Searches that are not read back

  /** A search by one key alone */
  predicate Understood(leaf: Leaf, utf8: bool) {
    ParseSearch(TopLevel(TextOf(Query(Single(leaf), false, false))), utf8)
    == Some([KLeaf(LeafWord(leaf), LeafArgs(leaf))])
  }

  lemma UnderstoodExactly(leaf: Leaf, utf8: bool)
    ensures Understood(leaf, utf8) <==> Grammatical(leaf, utf8)
  {
    SearchMeansQuery(Query(Single(leaf), false, false), (w, a, f) => true, utf8);
    hide ParseSearch, TextOf, TopLevel, Grammatical;
  }

  /** A keyword is written with quotes, a set of sequence numbers with a second space. */
  lemma KeywordFails(utf8: bool)
    ensures !Understood(TextLeaf(Keyword, "Junk"), utf8)
  {
    UnderstoodExactly(TextLeaf(Keyword, "Junk"), utf8);
  }

  lemma SequenceNumberFails(utf8: bool)
    ensures !Understood(SequenceLeaf(SequenceNumber, [Interval(1, 5)]), utf8)
  {
    UnderstoodExactly(SequenceLeaf(SequenceNumber, [Interval(1, 5)]), utf8);
  }

  lemma NegativeSizeFails(utf8: bool)
    ensures !Understood(NumberLeaf(Larger, -1), utf8)
  {
    UnderstoodExactly(NumberLeaf(Larger, -1), utf8);
  }

  /** An e with an acute accent, in UTF-8: only a server that accepted UTF-8 reads it. */
  lemma EightBitFails()
    ensures !Understood(TextLeaf(Subject, ['\U{C3}', '\U{A9}']), false)
    ensures Understood(TextLeaf(Subject, ['\U{C3}', '\U{A9}']), true)
  {
    var value := ['\U{C3}', '\U{A9}'];
    assert value[0] as int >= 0x80 && !Quotable(value, false) && Quotable(value, true);
    hide Quotable, Understood;
    UnderstoodExactly(TextLeaf(Subject, value), false);
    UnderstoodExactly(TextLeaf(Subject, value), true);
  }

  /** NUL and line breaks are written raw, and so are backslashes. */
  lemma RawCharacterFails(c: char, utf8: bool)
    requires c == '\0' || c == '\r' || c == '\n' || c == '\\'
    ensures !Understood(TextLeaf(Subject, ['a', c, 'b']), utf8)
  {
    var value := ['a', c, 'b'];
    assert value[1] == c;
    UnderstoodExactly(TextLeaf(Subject, value), utf8);
  }

  /** Two backslashes are read as one: the search is understood, but as another one. */
  lemma DoubledBackslashMeansOther(utf8: bool)
    ensures ParseSearch(TopLevel(TextOf(Query(Single(TextLeaf(Subject, "a\\\\b")), false, false))), utf8)
         == Some([KLeaf("SUBJECT", [Words("a\\b")])])
  {
    hide ParseKey, ParseArg, TopLevel;
    var q := Query(Single(TextLeaf(Subject, "a\\\\b")), false, false);
    var quoted := Quote("a\\\\b");
    TextKinds(Subject);
    Unstripped(q);
    OneArgLeaf("SUBJECT", StringArg, quoted, "", utf8);
    DoubledBackslashRead(utf8);
    TextParts(q);
    assert TextOf(q) == "SUBJECT" + " " + quoted + "";
  }

  lemma DoubledBackslashRead(utf8: bool)
    ensures ParseArg(StringArg, Quote("a\\\\b") + "", utf8) == Some(("a\\b", ""))
  {
    var s := Quote("a\\\\b") + "";
    assert s[1..] == "a\\\\b\"" && s[1..][1..] == "\\\\b\"" && "\\\\b\""[2..] == "b\"" && "b\""[1..] == "\"";
    assert ['b'] + "" == "b" && ['\\'] + "b" == "\\b" && ['a'] + "\\b" == "a\\b";
    assert TakeQuoted("\"", utf8) == Some(("", ""));
    assert TakeQuoted("b\"", utf8) == Some(("b", ""));
    assert TakeQuoted("\\\\b\"", utf8) == Some(("\\b", ""));
  }

  /** A value of this form closes its quotes, adds a key, and opens others. */
  function Injected(a: string, key: string, b: string): string {
    a + ("\" " + key + " SUBJECT \"" + b)
  }

  /** A value with a double quote ends there, and what follows it is read as keys. */
  lemma QuoteInjects(a: string, b: string, utf8: bool)
    requires Quotable(a, utf8) && Quotable(b, utf8)
    ensures var leaf := TextLeaf(Subject, Injected(a, "SEEN", b));
            !Understood(leaf, utf8)
            && ParseSearch(TopLevel(TextOf(Query(Single(leaf), false, false))), utf8)
               == Some([KLeaf("SUBJECT", [Words(a)]), KLeaf("SEEN", []), KLeaf("SUBJECT", [Words(b)])])
  {
    var value := Injected(a, "SEEN", b);
    assert value[|a|] == '"';
    UnderstoodExactly(TextLeaf(Subject, value), utf8);
    SubjectSent(value);
    InjectedText(a, "SEEN", b);
    hide Injected, Understood;
    ThreeKeys(a, b, utf8);
  }

  lemma ThreeKeys(a: string, b: string, utf8: bool)
    requires Quotable(a, utf8) && Quotable(b, utf8)
    ensures ParseSearch(SubjectText(a) + (" " + ("SEEN" + (" " + SubjectText(b)))), utf8)
         == Some([KLeaf("SUBJECT", [Words(a)]), KLeaf("SEEN", []), KLeaf("SUBJECT", [Words(b)])])
  {
    var last := SubjectText(b);
    SubjectRead(a, " " + ("SEEN" + (" " + last)), utf8);
    SubjectRead(b, "", utf8);
    assert last + "" == last;
    BareLeaf("SEEN", " " + last, utf8);
    hide ParseKey, ParseKeys, SubjectText;
    var x, seen, y := KLeaf("SUBJECT", [Words(a)]), KLeaf("SEEN", []), KLeaf("SUBJECT", [Words(b)]);
    LastKeyParses(last, true, y, "", utf8);
    MoreKeysParse("SEEN", true, seen, last, true, [y], "", utf8);
    MoreKeysParse(SubjectText(a), true, x, "SEEN" + (" " + last), true, [seen] + [y], "", utf8);
    assert [x] + ([seen] + [y]) == [x, seen, y];
  }

  function SubjectText(value: string): string {
    "SUBJECT" + " " + Quote(value)
  }

  lemma SubjectSent(value: string)
    ensures TopLevel(TextOf(Query(Single(TextLeaf(Subject, value)), false, false))) == SubjectText(value)
  {
    var q := Query(Single(TextLeaf(Subject, value)), false, false);
    TextParts(q);
    Unstripped(q);
    assert TextOf(q) == LeafCommand(q.form.leaf);
    Associative("SUBJECT", " ", Quote(value));
  }

  lemma InjectedText(a: string, key: string, b: string)
    ensures SubjectText(Injected(a, key, b)) == SubjectText(a) + (" " + (key + (" " + SubjectText(b))))
  {
    var tail := " " + (key + (" " + SubjectText(b)));
    assert Quote(Injected(a, key, b)) == Quote(a) + tail by {
      Spelled(b);
      Associative("\"" + a, "\"", tail);
    }
    Associative("SUBJECT" + " ", Quote(a), tail);
  }

  lemma Spelled(b: string)
    ensures " SUBJECT \"" + b + "\"" == " " + SubjectText(b)
  {
  }

  lemma SubjectRead(value: string, rest: string, utf8: bool)
    requires Quotable(value, utf8)
    ensures ParseKey(SubjectText(value) + rest, utf8) == Some((KLeaf("SUBJECT", [Words(value)]), rest))
  {
    OneArgLeaf("SUBJECT", StringArg, Quote(value), rest, utf8);
    QuotedArg(StringArg, value, rest, utf8);
    hide ParseKey, ParseArg, Quotable;
  }

  /** No space is written after a charset: it is read as it was set, with these keys, if and only if the
      criteria happen to start with a space, as a set of sequence numbers does, and the rest of them
      means these keys. */
  lemma CharsetRead(charset: string, term: string, keys: seq<Key>)
    requires IsAstring(charset)
    ensures ParseCriteria(SearchArguments(charset, term, false), false) == Some((charset, keys))
       <==> TopLevel(term) != "" && TopLevel(term)[0] == ' ' && ParseSearch(TopLevel(term)[1..], false) == Some(keys)
  {
    var text := TopLevel(term);
    var s := SearchArguments(charset, term, false);
    assert s == "CHARSET" + (" " + (charset + text));
    TakeWordOf("CHARSET", " " + (charset + text));
    assert s[8..] == charset + text;
    AstringWord(charset);
    hide ParseSearch, TopLevel, IsAstring;
    if text == "" || IsDelimiter(text[0]) {
      WordArg(StringArg, charset, text, false);
    } else {
      LongerWord(charset, text);
      assert (charset + text)[0] == charset[0];
    }
  }

  /** No charset is named when none is set, or UTF8=ACCEPT is enabled. */
  lemma CharsetOmitted(charset: string, term: string)
    ensures SearchArguments("", term, false) == SearchArguments(charset, term, true) == TopLevel(term)
  {
    hide TopLevel;
    assert "" + TopLevel(term) == TopLevel(term);
  }

  lemma {:induction false} LongerWord(w: string, t: string)
    requires (forall i :: 0 <= i < |w| ==> !IsDelimiter(w[i])) && t != "" && !IsDelimiter(t[0])
    ensures |TakeWord(w + t)| > |w|
  {
    if w == "" {
      assert w + t == t;
    } else {
      assert (w + t)[1..] == w[1..] + t;
      LongerWord(w[1..], t);
    }
  }

  /** A search by subject in a charset names another charset. */
  lemma CharsetFails(value: string, keys: seq<Key>)
    ensures var term := TextOf(Query(Single(TextLeaf(Subject, value)), false, false));
            ParseCriteria(SearchArguments("UTF-8", term, false), false) != Some(("UTF-8", keys))
  {
    var term := TextOf(Query(Single(TextLeaf(Subject, value)), false, false));
    SubjectSent(value);
    CharsetRead("UTF-8", term, keys);
    assert SubjectText(value)[0] == 'S';
    hide ParseCriteria, SearchArguments, TopLevel, TextOf;
  }

  /** A header name with a space, and one that is empty */
  lemma HeaderNameFails(utf8: bool)
    ensures !Understood(HeaderLeaf("X Y", "z"), utf8) && !Understood(HeaderLeaf("", "z"), utf8)
  {
    assert "X Y"[1] == ' ';
    UnderstoodExactly(HeaderLeaf("X Y", "z"), utf8);
    UnderstoodExactly(HeaderLeaf("", "z"), utf8);
  }

  /** A conjunction of nothing, which every message matches, is sent as nothing. */
  lemma NullFails(utf8: bool)
    ensures TextOf(Query(Related(And, []), false, false)) == "" && ParseSearch(TopLevel(""), utf8) == None
  {
    NothingFound(utf8);
  }

  lemma SetFails(utf8: bool)
    ensures !Understood(SequenceLeaf(Uid, []), utf8)
    ensures !Understood(SequenceLeaf(Uid, [Interval(0, 5)]), utf8)
    ensures !Understood(SequenceLeaf(Uid, [Interval(0x1_0000_0000, 0x1_0000_0000)]), utf8)
  {
    var low, high := [Interval(0, 5)], [Interval(0x1_0000_0000, 0x1_0000_0000)];
    assert !IsRange(low[0]) && !IsRange(high[0]);
    UnderstoodExactly(SequenceLeaf(Uid, []), utf8);
    UnderstoodExactly(SequenceLeaf(Uid, low), utf8);
    UnderstoodExactly(SequenceLeaf(Uid, high), utf8);
  }

  lemma YearFails(utf8: bool)
    ensures !Understood(DateLeaf(Before, 1, 1, 999), utf8) && !Understood(DateLeaf(Before, 1, 1, 10000), utf8)
  {
    UnderstoodExactly(DateLeaf(Before, 1, 1, 999), utf8);
    UnderstoodExactly(DateLeaf(Before, 1, 1, 10000), utf8);
  }
}
