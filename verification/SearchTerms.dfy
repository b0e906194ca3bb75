/** Search terms: a query is built bottom-up into one command string. */
module SearchTerms {
  import opened Decimals
  import opened ImapSets

  datatype Relation = And | Or
  datatype SearchKey = All | Bcc | Body | Cc | From | Subject | Text | To | Keyword
  datatype BooleanKey = New | Old | Recent | Seen | Draft | Deleted | Flagged | Answered
  datatype DateKey = Before | On | Since | SentBefore | SentOn | SentSince
  datatype NumberKey = Larger | Smaller
  datatype SequenceKey = Uid | SequenceNumber

  datatype Term = Term(command: string, isFuzzy: bool, isNegated: bool, isNull: bool) {
    function Serialize(): string {
      (if isFuzzy then "FUZZY " else "") + (if isNegated then "NOT " else "") + command
    }

    function SetFuzzy(fuzzy: bool): Term {
      this.(isFuzzy := fuzzy)
    }

    function SetNegated(negated: bool): Term {
      this.(isNegated := negated)
    }
  }

  function Plain(command: string): Term {
    Term(command, false, false, false)
  }

  const NULL_TERM := Term("", false, false, true)

  // ---------------------------------------------------------------- Single keys

  function SearchName(key: SearchKey): string {
    match key
    case All => "ALL" case Bcc => "BCC" case Body => "BODY" case Cc => "CC" case From => "FROM"
    case Subject => "SUBJECT" case Text => "TEXT" case To => "TO" case Keyword => "KEYWORD"
  }

  function BooleanName(key: BooleanKey): string {
    match key
    case New => "NEW" case Old => "OLD" case Recent => "RECENT" case Seen => "SEEN"
    case Draft => "DRAFT" case Deleted => "DELETED" case Flagged => "FLAGGED" case Answered => "ANSWERED"
  }

  function DateName(key: DateKey): string {
    match key
    case Before => "BEFORE" case On => "ON" case Since => "SINCE"
    case SentBefore => "SENTBEFORE" case SentOn => "SENTON" case SentSince => "SENTSINCE"
  }

  function NumberName(key: NumberKey): string {
    match key
    case Larger => "LARGER" case Smaller => "SMALLER"
  }

  function MonthName(month: int): string {
    match month
    case 1 => "Jan" case 2 => "Feb" case 3 => "Mar" case 4 => "Apr" case 5 => "May" case 6 => "Jun"
    case 7 => "Jul" case 8 => "Aug" case 9 => "Sep" case 10 => "Oct" case 11 => "Nov" case 12 => "Dec"
    case _ => ""
  }

  datatype Leaf =
    | TextLeaf(textKey: SearchKey, value: string)
    | HeaderLeaf(header: string, headerValue: string)
    | FlagLeaf(flagKey: BooleanKey)
    | DateLeaf(dateKey: DateKey, day: int, month: int, year: int)
    | NumberLeaf(numberKey: NumberKey, number: int)
    | SequenceLeaf(sequenceKey: SequenceKey, optimized: seq<Interval>)

  function Quote(s: string): string {
    "\"" + s + "\""
  }

  function DateText(day: int, month: int, year: int): string {
    Number(day) + "-" + MonthName(month) + "-" + Number(year)
  }

  function LeafCommand(leaf: Leaf): string {
    match leaf
    case TextLeaf(key, value) => SearchName(key) + (if key == All then "" else " " + Quote(value))
    case HeaderLeaf(header, value) => "HEADER" + " " + header + " " + Quote(value)
    case FlagLeaf(key) => BooleanName(key)
    case DateLeaf(key, day, month, year) => DateName(key) + " " + Quote(DateText(day, month, year))
    case NumberLeaf(key, number) => NumberName(key) + " " + Number(number)
    case SequenceLeaf(key, optimized) => (if key == Uid then "UID" else "") + " " + SetText(optimized)
  }

  // ---------------------------------------------------------------- Relations

  /** The subterms with single spaces between them */
  function Spaced(subterms: seq<Term>): string {
    if subterms == [] then ""
    else if |subterms| == 1 then subterms[0].Serialize()
    else subterms[0].Serialize() + " " + Spaced(subterms[1..])
  }

  /** OR takes two keys, so a longer list nests to the right. */
  function OrChain(subterms: seq<Term>): string {
    if subterms == [] then ""
    else if |subterms| == 1 then subterms[0].Serialize()
    else "(OR " + subterms[0].Serialize() + " " + OrChain(subterms[1..]) + ")"
  }

  function RelationTerm(relation: Relation, subterms: seq<Term>): Term {
    if |subterms| == 0 then NULL_TERM
    else if |subterms| == 1 then Plain(subterms[0].Serialize())
    else if relation == Or then Plain(OrChain(subterms))
    else Plain("(" + Spaced(subterms) + ")")
  }

  /** The openings of an OR chain, and as many closing parentheses */
  function Openings(subterms: seq<Term>): string {
    if subterms == [] then "" else "(OR " + subterms[0].Serialize() + " " + Openings(subterms[1..])
  }

  function Closings(n: nat): string {
    if n == 0 then "" else Closings(n - 1) + ")"
  }

  lemma {:induction false} OpeningsSnoc(subterms: seq<Term>, t: Term)
    ensures Openings(subterms + [t]) == Openings(subterms) + ("(OR " + t.Serialize() + " ")
  {
    if subterms == [] {
      assert (subterms + [t])[1..] == [];
      assert Openings([]) == "";
    } else {
      assert (subterms + [t])[1..] == subterms[1..] + [t];
      OpeningsSnoc(subterms[1..], t);
    }
  }

  lemma {:induction false} ChainParts(subterms: seq<Term>)
    requires subterms != []
    ensures var n := |subterms| - 1;
      OrChain(subterms) == Openings(subterms[..n]) + subterms[n].Serialize() + Closings(n)
  {
    var n := |subterms| - 1;
    if n == 0 {
      assert Openings(subterms[..0]) == "";
    } else {
      var rest := subterms[1..];
      ChainParts(rest);
      assert subterms[..n][1..] == rest[..n - 1] && subterms[n] == rest[n - 1];
      hide Term.Serialize;
      ChainGrouped("(OR " + subterms[0].Serialize() + " ", Openings(rest[..n - 1]), subterms[n].Serialize(),
                   Closings(n - 1));
    }
  }

  lemma ChainGrouped(first: string, openings: string, last: string, closings: string)
    ensures first + (openings + last + closings) + ")" == first + openings + last + (closings + ")")
  {
  }

  /** AND writes every subterm with a space after it; the last space is chopped off. */
  function Trailing(subterms: seq<Term>): string {
    if subterms == [] then "" else subterms[0].Serialize() + " " + Trailing(subterms[1..])
  }

  lemma {:induction false} TrailingSnoc(subterms: seq<Term>, t: Term)
    ensures Trailing(subterms + [t]) == Trailing(subterms) + (t.Serialize() + " ")
  {
    if subterms == [] {
      assert (subterms + [t])[1..] == [];
      assert Trailing([]) == "";
    } else {
      assert (subterms + [t])[1..] == subterms[1..] + [t];
      TrailingSnoc(subterms[1..], t);
    }
  }

  lemma {:induction false} TrailingSpaced(subterms: seq<Term>)
    requires subterms != []
    ensures Trailing(subterms) == Spaced(subterms) + " "
  {
    if |subterms| == 1 {
      assert subterms[1..] == [] && Trailing([]) == "";
    } else {
      TrailingSpaced(subterms[1..]);
    }
  }

  /** The constructor of a relation */
  method MakeRelation(relation: Relation, subterms: seq<Term>) returns (term: Term)
    ensures term == RelationTerm(relation, subterms)
  {
    var command := "";
    if |subterms| >= 2 {
      if relation == Or {
        var n := |subterms| - 1;
        for i := 0 to n
          invariant command == Openings(subterms[..i])
        {
          OpeningsSnoc(subterms[..i], subterms[i]);
          assert subterms[..i] + [subterms[i]] == subterms[..i + 1];
          command := command + ("(OR " + subterms[i].Serialize() + " ");
        }
        command := command + subterms[n].Serialize();
        ghost var openings := command;
        for i := 0 to n
          invariant command == openings + Closings(i)
        {
          command := command + ")";
        }
        ChainParts(subterms);
      } else {
        command := command + "(";
        for i := 0 to |subterms|
          invariant command == "(" + Trailing(subterms[..i])
        {
          TrailingSnoc(subterms[..i], subterms[i]);
          assert subterms[..i] + [subterms[i]] == subterms[..i + 1];
          command := command + (subterms[i].Serialize() + " ");
        }
        assert subterms[..|subterms|] == subterms;
        TrailingSpaced(subterms);
        command := command[..|command| - 1];
        command := command + ")";
      }
      term := Plain(command);
    } else if |subterms| == 1 {
      command := command + subterms[0].Serialize();
      term := Plain(command);
    } else {
      term := NULL_TERM;
    }
  }

  /** The constructor of a sequence key: it writes an optimised copy of the set. `sorted` is what the
      library sort makes of its intervals. */
  method MakeSequence(key: SequenceKey, ids: ImapSet, sorted: seq<Interval>) returns (term: Term)
    requires AllSane(ids.intervals) && multiset(sorted) == multiset(ids.intervals) && SortedByBegin(sorted)
    ensures exists optimized :: Canonical(optimized) && SameSet(optimized, ids.intervals)
                                && term == Plain(LeafCommand(SequenceLeaf(key, optimized)))
  {
    hide Canonical, SameSet, SetText, AllSane, SortedByBegin;
    var optimizedSet := new ImapSet();
    optimizedSet.intervals := ids.intervals;
    optimizedSet.Optimize(sorted);
    ghost var optimized := optimizedSet.intervals;
    var text := ToImapSequenceSet(optimizedSet.intervals);
    var command := if key == Uid then "UID" else "";
    command := command + (" " + text);
    term := Plain(command);
    assert Canonical(optimized) && term == Plain(LeafCommand(SequenceLeaf(key, optimized)));
  }

  // ---------------------------------------------------------------- Queries

  /** A query as a caller builds it */
  datatype Query = Query(form: Form, fuzzy: bool, negated: bool)
  datatype Form = Single(leaf: Leaf) | Related(relation: Relation, subs: seq<Query>)

  function Build(q: Query): Term
    decreases q, 0
  {
    var t := match q.form
      case Single(leaf) => Plain(LeafCommand(leaf))
      case Related(relation, subs) => RelationTerm(relation, BuildAll(subs));
    t.SetFuzzy(q.fuzzy).SetNegated(q.negated)
  }

  function BuildAll(qs: seq<Query>): (ts: seq<Term>)
    ensures |ts| == |qs|
    decreases qs, 1
  {
    if qs == [] then [] else [Build(qs[0])] + BuildAll(qs[1..])
  }

  /** What the query means: `holds` tells which keys a message satisfies, exactly or fuzzily. */
  function Means(q: Query, holds: (Leaf, bool) -> bool, fuzzy: bool): bool
    decreases q, 0
  {
    var f := fuzzy || q.fuzzy;
    var m := match q.form
      case Single(leaf) => holds(leaf, f)
      case Related(And, subs) => AllMean(subs, holds, f)
      case Related(Or, subs) => SomeMeans(subs, holds, f);
    if q.negated then !m else m
  }

  function AllMean(qs: seq<Query>, holds: (Leaf, bool) -> bool, fuzzy: bool): bool
    decreases qs, 1
  {
    qs == [] || (Means(qs[0], holds, fuzzy) && AllMean(qs[1..], holds, fuzzy))
  }

  function SomeMeans(qs: seq<Query>, holds: (Leaf, bool) -> bool, fuzzy: bool): bool
    decreases qs, 1
  {
    qs != [] && (Means(qs[0], holds, fuzzy) || SomeMeans(qs[1..], holds, fuzzy))
  }

  /** The search key that goes on the wire, without a charset */
  function TopLevel(term: string): string {
    if term == "" || term[0] != '(' then term
    else if |term| == 1 then "" else term[1..|term| - 1]
  }

  /** The arguments of the SEARCH command; no charset is named once the server accepted UTF-8. */
  function SearchArguments(charset: string, term: string, utf8: bool): string {
    (if charset != "" && !utf8 then "CHARSET " + charset else "") + TopLevel(term)
  }
}
