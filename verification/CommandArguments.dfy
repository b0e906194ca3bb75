/** What a server reads from the arguments of SELECT and of the commands that set metadata. */
module CommandArguments {
  import opened Bits
  import opened Decimals
  import opened FolderNameCodec
  import opened FolderNameDecoder
  import opened FolderNameRoundTrip
  import opened FolderNameText
  import ImapSets
  import ListReading
  import MailboxSelection
  import MetaData
  import QuotedStrings
  import SearchGrammar
  import StreamText
  import opened Unicode

  // ---------------------------------------------------------------- The mailbox name

  /** Text that a quoted string of section 9 of RFC 3501 can hold */
  predicate AllText(s: string, utf8: bool) {
    forall i :: 0 <= i < |s| ==> SearchGrammar.TextChar(s[i], utf8)
  }

  /** A quoted text is taken back as it was, whatever it contains. */
  lemma {:induction false} QuotedTaken(s: string, rest: string, utf8: bool)
    requires AllText(s, utf8)
    ensures SearchGrammar.TakeQuoted(Quoted(s) + ("\"" + rest), utf8) == Some((s, rest))
  {
    if s == "" {
      assert "" + ("\"" + rest) == "\"" + rest && ("\"" + rest)[1..] == rest;
    } else {
      var t := Quoted(s[1..]) + ("\"" + rest);
      assert SearchGrammar.TextChar(s[0], utf8) && AllText(s[1..], utf8);
      QuotedTaken(s[1..], rest, utf8);
      Associative(QuotedChar(s[0]), Quoted(s[1..]), "\"" + rest);
      CharTaken(s[0], t, utf8);
      assert [s[0]] + s[1..] == s;
    }
  }

  lemma CharTaken(c: char, t: string, utf8: bool)
    requires SearchGrammar.TextChar(c, utf8)
    ensures SearchGrammar.TakeQuoted(QuotedChar(c) + t, utf8)
         == SearchGrammar.Prepended(c, SearchGrammar.TakeQuoted(t, utf8))
  {
    var s := QuotedChar(c) + t;
    if c == '"' || c == '\\' {
      assert s[0] == '\\' && s[1] == c && s[2..] == t;
    } else {
      assert s[0] == c && s[1..] == t;
    }
  }

  lemma PrintableText(s: string, utf8: bool)
    requires Printable(s)
    ensures AllText(s, utf8)
  {
    forall i | 0 <= i < |s|
      ensures SearchGrammar.TextChar(s[i], utf8)
    {
      assert Direct(s[i]);
    }
  }

  /** The octets between the quotes, before quoting */
  function Wire(name: string, utf8: bool): string {
    if utf8 then name else Encoded(name)
  }

  /** A server that takes the quoted string, and decodes it unless UTF8=ACCEPT is enabled, gets the name:
      with UTF-8 always, otherwise if and only if the codec brings it back; also one with quotes. */
  lemma NameTaken(cps: seq<Scalar>, rest: string, utf8: bool)
    requires utf8 ==> AllText(Utf8All(cps), utf8)
    ensures var name := Utf8All(cps);
            var r := SearchGrammar.TakeQuoted(Quoted(Wire(name, utf8)) + ("\"" + rest), utf8);
            && r == Some((Wire(name, utf8), rest))
            && ((if utf8 then r.value.0 else Decoded(r.value.0)) == name <==> utf8 || SurviveFrom(cps, 0, false))
  {
    var name := Utf8All(cps);
    if !utf8 {
      EncodedPrintable(name, false, [], Idle);
      PrintableText(Encoded(name), utf8);
      UnquotedRoundTrip(cps);
    }
    QuotedTaken(Wire(name, utf8), rest, utf8);
    hide Quoted, Encoded, Decoded, SearchGrammar.TakeQuoted;
  }

  /** The arguments of SELECT and EXAMINE start with that name, and go on with the suffix. */
  lemma SelectNames(cps: seq<Scalar>, suffix: string, utf8: bool)
    requires utf8 ==> AllText(Utf8All(cps), utf8)
    ensures var name := Utf8All(cps);
            var args := MailboxSelection.Arguments(name, suffix, utf8);
            var r := SearchGrammar.TakeQuoted(args[1..], utf8);
            && args[0] == '"' && r.Some? && r.value.1 == suffix
            && ((if utf8 then r.value.0 else Decoded(r.value.0)) == name <==> utf8 || SurviveFrom(cps, 0, false))
  {
    hide *;
    NameTaken(cps, suffix, utf8);
    ArgumentsText(Utf8All(cps), suffix, utf8);
    AfterQuote(Quoted(Wire(Utf8All(cps), utf8)) + ("\"" + suffix));
  }

  lemma ArgumentsText(name: string, suffix: string, utf8: bool)
    ensures MailboxSelection.Arguments(name, suffix, utf8) == "\"" + (Quoted(Wire(name, utf8)) + ("\"" + suffix))
  {
    hide Quoted, Encoded;
    var quoted := Quoted(Wire(name, utf8));
    assert MailboxSelection.Arguments(name, suffix, utf8) == "\"" + quoted + "\"" + suffix;
  }

  lemma AfterQuote(t: string)
    ensures ("\"" + t)[0] == '"' && ("\"" + t)[1..] == t
  {
  }

  /** What follows the mailbox, and comes before the list: the entry, in the older command */
  function Between(job: MetaData.SetMetaDataJob): string {
    " " + if job.annotateMore then "\"" + job.entryName + "\" " else ""
  }

  /** The commands that set metadata start with the mailbox, then name the entry if there is one. */
  lemma OpeningNames(job: MetaData.SetMetaDataJob, cps: seq<Scalar>, rest: string)
    requires job.mailBox == Utf8All(cps) && (job.utf8Enabled ==> AllText(job.mailBox, true))
    ensures var r := SearchGrammar.TakeQuoted((job.Opening() + rest)[1..], job.utf8Enabled);
            && (job.Opening() + rest)[0] == '"' && r.Some? && r.value.1 == Between(job) + rest
            && ((if job.utf8Enabled then r.value.0 else Decoded(r.value.0)) == job.mailBox
                <==> job.utf8Enabled || SurviveFrom(cps, 0, false))
  {
    hide *;
    NameTaken(cps, Between(job) + rest, job.utf8Enabled);
    OpeningText(job, rest);
    AfterQuote(Quoted(Wire(job.mailBox, job.utf8Enabled)) + ("\"" + (Between(job) + rest)));
  }

  lemma OpeningText(job: MetaData.SetMetaDataJob, rest: string)
    ensures job.Opening() + rest
         == "\"" + (Quoted(Wire(job.mailBox, job.utf8Enabled)) + ("\"" + (Between(job) + rest)))
  {
    hide Quoted, Encoded;
    var quoted := Quoted(Wire(job.mailBox, job.utf8Enabled));
    var entry := if job.annotateMore then "\"" + job.entryName + "\" " else "";
    assert job.annotateMore ==> MetaData.QuotedKey(job.entryName) + " " == entry;
    assert job.Opening() == "\"" + quoted + "\" " + entry;
    OpeningParts(quoted, entry, rest);
  }

  lemma OpeningParts(quoted: string, entry: string, rest: string)
    ensures ("\"" + quoted + "\" " + entry) + rest == "\"" + (quoted + ("\"" + ((" " + entry) + rest)))
  {
  }

  // ---------------------------------------------------------------- CONDSTORE and QRESYNC

  /** The parameters of QRESYNC: UID validity, modification sequence, and the known ids if there are any */
  function Known(job: MailboxSelection.SelectJob): seq<string> {
    [Number(job.lastUidvalidity), Number(job.lastModseq)]
    + if job.knownUids == [] then [] else [ImapSets.SetText(job.knownUids)]
  }

  /** The parameter list that a suffix is; nothing without one */
  function Parameter(suffix: string): StreamText.Read<seq<string>>
    requires suffix != ""
  {
    StreamText.ListText(suffix[1..])
  }

  lemma Condstore(job: MailboxSelection.SelectJob)
    ensures job.Suffix() == "" <==> !job.condstoreEnabled
    ensures job.condstoreEnabled && job.lastUidvalidity == -1 && job.lastModseq == 0 ==>
      job.Suffix() != "" && job.Suffix()[0] == ' ' && Parameter(job.Suffix()) == StreamText.Ok(["CONDSTORE"], "")
  {
    OneWord();
    hide StreamText.ListText;
    assert "(" + "CONDSTORE" + ")" + "" == " (CONDSTORE)"[1..];
  }

  lemma OneWord()
    ensures StreamText.ListText("(" + "CONDSTORE" + ")" + "") == StreamText.Ok(["CONDSTORE"], "")
  {
    var items := [ListReading.Atom("CONDSTORE")];
    LettersAtom("CONDSTORE");
    hide StreamText.ListText, ListReading.AtomText;
    assert items[0] == ListReading.Atom("CONDSTORE") && items[1..] == [];
    ListReading.ListReadBack(items, "");
    assert ListReading.Values(items) == ["CONDSTORE"] + ListReading.Values([]) == ["CONDSTORE"];
  }

  lemma LettersAtom(s: string)
    requires s == "CONDSTORE" || s == "QRESYNC"
    ensures ListReading.AtomText(s)
  {
    ListReading.NoPair(s, '\\', '\\');
  }

  function KnownItems(job: MailboxSelection.SelectJob): seq<ListReading.Item> {
    [ListReading.Atom(Number(job.lastUidvalidity)), ListReading.Atom(Number(job.lastModseq))]
    + if job.knownUids == [] then [] else [ListReading.Atom(ImapSets.SetText(job.knownUids))]
  }

  /** What is known goes out in the order that QRESYNC has: UID validity, modification sequence, ids. */
  lemma Qresync(job: MailboxSelection.SelectJob)
    requires job.condstoreEnabled && !(job.lastUidvalidity == -1 && job.lastModseq == 0)
    requires job.knownUids != [] ==> ImapSets.SetText(job.knownUids) != ""
    ensures job.Suffix() != "" && job.Suffix()[0] == ' '
    ensures var r := Parameter(job.Suffix());
            && r.Ok? && r.rest == "" && |r.value| == 2 && r.value[0] == "QRESYNC"
            && StreamText.ListText(r.value[1]) == StreamText.Ok(Known(job), "")
  {
    var items := KnownItems(job);
    var text := ListReading.PrintItems(items);
    var outer := [ListReading.Atom("QRESYNC"), ListReading.Sublist([ListReading.Plain(text)])];
    KnownRead(job);
    ListReading.ListReadBack(items, "");
    OuterRead(text);
    ListReading.ListReadBack(outer, "");
    SuffixText(job);
    hide *;
    assert ("(" + text + ")") + "" == "(" + text + ")";
  }

  lemma KnownRead(job: MailboxSelection.SelectJob)
    requires job.knownUids != [] ==> ImapSets.SetText(job.knownUids) != ""
    ensures ListReading.AllReadable(KnownItems(job)) && ListReading.Values(KnownItems(job)) == Known(job)
    ensures ListReading.Ordinary(ListReading.PrintItems(KnownItems(job)))
  {
    var items := KnownItems(job);
    NumberSet(job.lastUidvalidity);
    NumberSet(job.lastModseq);
    SetSet(job.knownUids);
    SetAtom(Number(job.lastUidvalidity));
    SetAtom(Number(job.lastModseq));
    if job.knownUids != [] {
      SetAtom(ImapSets.SetText(job.knownUids));
    }
    hide Number, ImapSets.SetText, ListReading.AtomText;
    assert ListReading.Values([]) == [];
    forall i | 0 <= i < |items|
      ensures items[i].Atom? && AllSet(items[i].text) && ListReading.Readable(items[i])
    {
    }
    AtomsOrdinary(items);
    AtomsValues(items);
    assert |items| == |Known(job)| && forall i :: 0 <= i < |items| ==> items[i].text == Known(job)[i];
    Same(ListReading.Values(items), Known(job));
  }

  lemma Same(a: seq<string>, b: seq<string>)
    requires |a| == |b| && forall i :: 0 <= i < |a| ==> a[i] == b[i]
    ensures a == b
  {
  }

  lemma {:induction false} AtomsValues(items: seq<ListReading.Item>)
    requires forall i :: 0 <= i < |items| ==> items[i].Atom?
    ensures |ListReading.Values(items)| == |items|
    ensures forall i :: 0 <= i < |items| ==> ListReading.Values(items)[i] == items[i].text
  {
    if items != [] {
      AtomsValues(items[1..]);
      assert ListReading.Values(items) == [items[0].text] + ListReading.Values(items[1..]);
    }
  }

  lemma {:induction false} AtomsOrdinary(items: seq<ListReading.Item>)
    requires forall i :: 0 <= i < |items| ==> items[i].Atom? && AllSet(items[i].text)
    ensures ListReading.Ordinary(ListReading.PrintItems(items))
  {
    if items != [] {
      AtomsOrdinary(items[1..]);
      SetOrdinary(items[0].text);
    }
  }

  lemma SetOrdinary(s: string)
    requires AllSet(s)
    ensures ListReading.Ordinary(s)
  {
    forall i | 0 <= i < |s|
      ensures s[i] !in "()[]\""
    {
      assert SetChar(s[i]);
    }
  }

  lemma OuterRead(text: string)
    requires ListReading.Ordinary(text)
    ensures var outer := [ListReading.Atom("QRESYNC"), ListReading.Sublist([ListReading.Plain(text)])];
            && ListReading.AllReadable(outer) && ListReading.Values(outer) == ["QRESYNC", "(" + text + ")"]
            && ListReading.PrintItems(outer) == "QRESYNC" + " " + ("(" + text + ")")
  {
    var outer := [ListReading.Atom("QRESYNC"), ListReading.Sublist([ListReading.Plain(text)])];
    var pieces := [ListReading.Plain(text)];
    LettersAtom("QRESYNC");
    assert pieces[0] == ListReading.Plain(text) && pieces[1..] == [];
    assert ListReading.PiecesText([]) == "" && text + "" == text && ListReading.PiecesText(pieces) == text;
    assert outer[1..] == [outer[1]] && outer[1..][1..] == [] && ListReading.Values([]) == [];
    assert ListReading.Values([outer[1]]) == ["(" + text + ")"] + [];
  }

  lemma SuffixText(job: MailboxSelection.SelectJob)
    requires job.condstoreEnabled && !(job.lastUidvalidity == -1 && job.lastModseq == 0)
    ensures var text := ListReading.PrintItems(KnownItems(job));
            && job.Suffix() != "" && job.Suffix()[0] == ' '
            && job.Suffix()[1..] == "(" + ("QRESYNC" + " " + ("(" + text + ")")) + ")" + ""
  {
    var a, b := Number(job.lastUidvalidity), Number(job.lastModseq);
    var ids := ImapSets.SetText(job.knownUids);
    var items := KnownItems(job);
    hide Number, ImapSets.SetText, ListReading.PrintItems;
    if job.knownUids == [] {
      assert items == [ListReading.Atom(a), ListReading.Atom(b)];
      PrintedTwo(a, b);
      SuffixTwo(a, b);
      SuffixParts(a + " " + b);
    } else {
      assert items == [ListReading.Atom(a), ListReading.Atom(b), ListReading.Atom(ids)];
      PrintedThree(a, b, ids);
      SuffixThree(a, b, ids);
      SuffixParts(a + " " + (b + " " + ids));
    }
  }

  lemma SuffixTwo(a: string, b: string)
    ensures " (QRESYNC (" + a + " " + b + "" + "))" == " (QRESYNC (" + (a + " " + b) + "))"
  {
  }

  lemma SuffixThree(a: string, b: string, c: string)
    ensures " (QRESYNC (" + a + " " + b + (" " + c) + "))" == " (QRESYNC (" + (a + " " + (b + " " + c)) + "))"
  {
  }

  lemma PrintedTwo(a: string, b: string)
    ensures ListReading.PrintItems([ListReading.Atom(a), ListReading.Atom(b)]) == a + " " + b
  {
    assert [ListReading.Atom(a), ListReading.Atom(b)][1..] == [ListReading.Atom(b)];
  }

  lemma PrintedThree(a: string, b: string, c: string)
    ensures ListReading.PrintItems([ListReading.Atom(a), ListReading.Atom(b), ListReading.Atom(c)])
         == a + " " + (b + " " + c)
  {
    PrintedTwo(b, c);
    assert [ListReading.Atom(a), ListReading.Atom(b), ListReading.Atom(c)][1..]
        == [ListReading.Atom(b), ListReading.Atom(c)];
  }

  lemma SuffixParts(text: string)
    ensures (" (QRESYNC (" + text + "))")[0] == ' '
    ensures (" (QRESYNC (" + text + "))")[1..] == "(" + ("QRESYNC" + " " + ("(" + text + ")")) + ")" + ""
  {
  }

  predicate SetChar(c: char) {
    IsDigit(c) || c == '-' || c == ':' || c == ',' || c == '*'
  }

  predicate AllSet(s: string) {
    forall i :: 0 <= i < |s| ==> SetChar(s[i])
  }

  lemma NumberSet(n: int)
    ensures AllSet(Number(n)) && Number(n) != ""
  {
  }

  lemma IntervalSet(interval: ImapSets.Interval)
    ensures AllSet(interval.ToImapSequence())
  {
    NumberSet(interval.begin);
    NumberSet(interval.end);
    hide Number;
  }

  lemma {:induction false} SetSet(list: seq<ImapSets.Interval>)
    ensures AllSet(ImapSets.SetText(list))
  {
    if list != [] {
      IntervalSet(list[0]);
      SetSet(list[1..]);
      assert ImapSets.SequenceTexts(list)[1..] == ImapSets.SequenceTexts(list[1..]);
    }
  }

  lemma SetAtom(s: string)
    requires AllSet(s) && s != ""
    ensures ListReading.AtomText(s)
  {
    NoBackslashes(s);
    assert SetChar(s[0]);
    hide QuotedStrings.HasPair;
  }

  lemma {:induction false} NoBackslashes(s: string)
    requires AllSet(s)
    ensures !QuotedStrings.HasPair(s, '\\', '\\')
  {
    if |s| >= 2 {
      assert SetChar(s[0]);
      NoBackslashes(s[1..]);
    }
  }
}
