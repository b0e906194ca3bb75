/** Setting metadata: a list of keys and values in one line, or, when a value has line breaks, as
    literals that are sent one after the other. */
module MetaData {
  import opened Bits
  import opened Decimals
  import opened FolderNameCodec
  import opened ListReading
  import opened QuotedStrings
  import opened StreamText

  datatype Entry = Entry(key: string, value: string)

  /** What stands for a value: nothing is sent as NIL. */
  function Payload(value: string): string {
    if value == "" then "NIL" else value
  }

  // ---------------------------------------------------------------- The text of the entries

  function QuotedKey(key: string): string {
    "\"" + key + "\""
  }

  /** The key, and the size of the literal that follows */
  function Head(entry: Entry): string {
    QuotedKey(entry.key) + " {" + Decimal(|Payload(entry.value)|) + "}"
  }

  function EntryText(entry: Entry, simple: bool): string {
    if simple then QuotedKey(entry.key) + " " + if entry.value == "" then "NIL" else QuotedKey(entry.value)
    else Head(entry) + "\r\n" + Payload(entry.value)
  }

  /** All entries as one text, joined by spaces */
  function EntriesText(entries: seq<Entry>, simple: bool): string {
    if entries == [] then ""
    else if |entries| == 1 then EntryText(entries[0], simple)
    else EntryText(entries[0], simple) + " " + EntriesText(entries[1..], simple)
  }

  /** The entries before position `n`, each followed by a space */
  function TextBefore(entries: seq<Entry>, n: nat, simple: bool): string
    requires n <= |entries|
  {
    if n == 0 then "" else TextBefore(entries, n - 1, simple) + EntryText(entries[n - 1], simple) + " "
  }

  lemma {:induction false} TextFrom(entries: seq<Entry>, n: nat, simple: bool)
    requires n < |entries|
    ensures TextBefore(entries, n, simple) + EntriesText(entries[n..], simple) == EntriesText(entries, simple)
  {
    hide EntryText, EntriesText;
    if n == 0 {
      assert entries[0..] == entries;
      assert "" + EntriesText(entries, simple) == EntriesText(entries, simple);
    } else {
      var before, rest := TextBefore(entries, n - 1, simple), EntriesText(entries[n..], simple);
      TextFrom(entries, n - 1, simple);
      TextCons(entries, n, simple);
      Regroup(before, EntryText(entries[n - 1], simple), rest);
    }
  }

  lemma TextCons(entries: seq<Entry>, n: nat, simple: bool)
    requires 0 < n < |entries|
    ensures EntriesText(entries[n - 1..], simple)
            == EntryText(entries[n - 1], simple) + " " + EntriesText(entries[n..], simple)
  {
    hide EntryText;
    assert entries[n - 1..][0] == entries[n - 1] && entries[n - 1..][1..] == entries[n..];
  }

  lemma Regroup(before: string, entry: string, rest: string)
    ensures before + entry + " " + rest == before + (entry + " " + rest)
  {
  }

  lemma TextLast(entries: seq<Entry>, simple: bool)
    requires entries != []
    ensures var n := |entries| - 1;
            TextBefore(entries, n, simple) + EntryText(entries[n], simple) == EntriesText(entries, simple)
  {
    TextFrom(entries, |entries| - 1, simple);
    assert entries[|entries| - 1..] == [entries[|entries| - 1]];
  }

  // ---------------------------------------------------------------- The text is a list

  /** The list that the entries are meant to be */
  function ListItems(entries: seq<Entry>, simple: bool): seq<Item> {
    if entries == [] then []
    else [Raw(entries[0].key), ValueItem(entries[0].value, simple)] + ListItems(entries[1..], simple)
  }

  function ValueItem(value: string, simple: bool): Item {
    if !simple then Literal(Payload(value))
    else if value == "" then Atom("NIL")
    else Raw(value)
  }

  /** What the server is to read: keys and values in turn */
  function KeysAndValues(entries: seq<Entry>): seq<string> {
    if entries == [] then []
    else [entries[0].key, Payload(entries[0].value)] + KeysAndValues(entries[1..])
  }

  /** Keys, and values that are quoted, can do without backslashes before their characters. */
  predicate Sendable(entries: seq<Entry>, simple: bool) {
    forall i :: 0 <= i < |entries| ==> Intact(entries[i].key) && (simple ==> Intact(entries[i].value))
  }

  /** Literals have sizes of 31 bits. */
  predicate Sized(entries: seq<Entry>, simple: bool) {
    forall i :: 0 <= i < |entries| ==> simple || |entries[i].value| <= 0x7FFF_FFFF
  }

  lemma EntryIsPair(entry: Entry, simple: bool)
    ensures Print(Raw(entry.key)) + " " + Print(ValueItem(entry.value, simple)) == EntryText(entry, simple)
  {
    hide Quoted;
    if !simple {
      Reframe(QuotedKey(entry.key), "{" + Decimal(|Payload(entry.value)|) + "}", Payload(entry.value));
    }
  }

  lemma EntryValues(entry: Entry, simple: bool)
    requires simple || |entry.value| <= 0x7FFF_FFFF
    ensures Value(Raw(entry.key)) == entry.key && Value(ValueItem(entry.value, simple)) == Payload(entry.value)
    ensures var item := ValueItem(entry.value, simple);
            Fit(item) && !item.Section? && (Readable(item) <==> !simple || Intact(entry.value))
    ensures Fit(Raw(entry.key)) && (Readable(Raw(entry.key)) <==> Intact(entry.key))
  {
    NilReadable();
    hide Intact;
  }

  lemma NilReadable()
    ensures Readable(Atom("NIL")) && Intact("")
  {
    NoPair("NIL", '\\', '\\');
  }

  lemma Reframe(key: string, size: string, value: string)
    ensures (key + " " + size) + "\r\n" + value == key + " " + (size + "\r\n" + value)
  {
  }

  lemma PrintPair(a: Item, b: Item, rest: seq<Item>)
    ensures PrintItems([a, b] + rest) == Print(a) + " " + Print(b) + (if rest == [] then "" else " " + PrintItems(rest))
  {
    hide Print;
    var all := [a, b] + rest;
    assert all[1..] == [b] + rest && ([b] + rest)[1..] == rest && all[0] == a && ([b] + rest)[0] == b;
    if rest == [] {
      assert Print(a) + " " + Print(b) + "" == Print(a) + " " + Print(b);
    } else {
      Associative(Print(a) + " ", Print(b), " " + PrintItems(rest));
      Associative(Print(b), " ", PrintItems(rest));
    }
  }

  lemma {:induction false} EntriesAreList(entries: seq<Entry>, simple: bool)
    requires Sized(entries, simple)
    ensures PrintItems(ListItems(entries, simple)) == EntriesText(entries, simple)
    ensures AllFit(ListItems(entries, simple)) && Values(ListItems(entries, simple)) == KeysAndValues(entries)
    ensures AllReadable(ListItems(entries, simple)) <==> Sendable(entries, simple)
  {
    hide EntryText, ValueItem, Readable, Print, AllReadable, AllFit, Fit, Values, PrintItems, Value, Intact,
         Sendable;
    if entries != [] {
      var rest := ListItems(entries[1..], simple);
      EntriesAreList(entries[1..], simple);
      EntryIsPair(entries[0], simple);
      EntryValues(entries[0], simple);
      FirstSendable(entries, simple);
      PrintPair(Raw(entries[0].key), ValueItem(entries[0].value, simple), rest);
      PairFirst(Raw(entries[0].key), ValueItem(entries[0].value, simple), rest);
      assert |entries| > 1 <==> rest != [];
      assert EntryText(entries[0], simple) + "" == EntryText(entries[0], simple);
    } else {
      NoItems(simple);
    }
  }

  lemma FirstSendable(entries: seq<Entry>, simple: bool)
    requires entries != []
    ensures Sendable(entries, simple) <==>
            Intact(entries[0].key) && (simple ==> Intact(entries[0].value)) && Sendable(entries[1..], simple)
  {
    hide Intact;
    assert entries == [entries[0]] + entries[1..];
  }

  lemma NoItems(simple: bool)
    ensures Sendable([], simple) && KeysAndValues([]) == []
    ensures PrintItems([]) == "" && AllReadable([]) && AllFit([]) && Values([]) == []
  {
  }

  lemma PairFirst(a: Item, b: Item, rest: seq<Item>)
    ensures var all := [a, b] + rest;
            && (AllReadable(all) <==> Readable(a) && Readable(b) && AllReadable(rest))
            && (AllFit(rest) && Fit(a) && Fit(b) ==> AllFit(all))
            && (!a.Section? && !b.Section? ==> Values(all) == [Value(a), Value(b)] + Values(rest))
  {
    hide Readable, Value;
    var all := [a, b] + rest;
    assert all[1..] == [b] + rest && ([b] + rest)[1..] == rest;
    FirstReadable(all);
    FirstReadable([b] + rest);
    assert [Value(a)] + ([Value(b)] + Values(rest)) == [Value(a), Value(b)] + Values(rest);
  }

  /** The text that is sent for the entries is read as their keys and values, in their order, if and
      only if all keys, and in one line all values, are intact without backslashes. */
  lemma EntriesReadBackExactly(entries: seq<Entry>, simple: bool, rest: string)
    requires Sized(entries, simple)
    ensures ListText("(" + EntriesText(entries, simple) + ")" + rest) == Ok(KeysAndValues(entries), rest)
            <==> Sendable(entries, simple)
  {
    EntriesAreList(entries, simple);
    ListReadBackExactly(ListItems(entries, simple), rest);
  }

  /** As literals, a value that is to be removed and the value NIL are sent alike: only what the server
      is to read decides the text. */
  lemma {:induction false} SameText(a: seq<Entry>, b: seq<Entry>)
    requires KeysAndValues(a) == KeysAndValues(b)
    ensures EntriesText(a, false) == EntriesText(b, false)
    decreases |a|
  {
    KeysAndValuesLength(a);
    KeysAndValuesLength(b);
    if a != [] {
      FirstRead(a);
      FirstRead(b);
      SameText(a[1..], b[1..]);
    }
  }

  lemma {:induction false} KeysAndValuesLength(entries: seq<Entry>)
    ensures |KeysAndValues(entries)| == 2 * |entries|
  {
    if entries != [] {
      KeysAndValuesLength(entries[1..]);
    }
  }

  lemma FirstRead(entries: seq<Entry>)
    requires entries != []
    ensures var all := KeysAndValues(entries);
            && |all| >= 2 && all[0] == entries[0].key && all[1] == Payload(entries[0].value)
            && all[2..] == KeysAndValues(entries[1..])
  {
  }

  /** As literals, lists of entries with intact keys are told apart if and only if they differ in more
      than the removals that set NIL. */
  lemma ToldApart(a: seq<Entry>, b: seq<Entry>)
    requires Sized(a, false) && Sized(b, false) && Sendable(a, false) && Sendable(b, false)
    ensures EntriesText(a, false) == EntriesText(b, false) <==> KeysAndValues(a) == KeysAndValues(b)
  {
    EntriesReadBackExactly(a, false, "");
    EntriesReadBackExactly(b, false, "");
    if KeysAndValues(a) == KeysAndValues(b) {
      SameText(a, b);
    }
    hide EntriesText, KeysAndValues, ListText, Sized, Sendable;
  }

  /** In one line the removal has no quotes. */
  lemma RemovalOrNil(key: string)
    ensures EntriesText([Entry(key, "")], false) == EntriesText([Entry(key, "NIL")], false)
    ensures EntriesText([Entry(key, "")], true) != EntriesText([Entry(key, "NIL")], true)
  {
    var removal, setting := [Entry(key, "")], [Entry(key, "NIL")];
    var line, other := EntriesText(removal, true), EntriesText(setting, true);
    assert line == QuotedKey(key) + " " + "NIL" && other == QuotedKey(key) + " " + QuotedKey("NIL");
    assert |line| + 2 == |other|;
    assert KeysAndValues(removal[1..]) == [] == KeysAndValues(setting[1..]);
    SameText(removal, setting);
  }

  // ---------------------------------------------------------------- One continuation after the other

  /** What has been sent of the list, when the server asks for the value at position `n` */
  function SentUpTo(entries: seq<Entry>, n: nat): string
    requires n < |entries|
  {
    TextBefore(entries, n, false) + Head(entries[n]) + "\r\n"
  }

  lemma ValueSent(entries: seq<Entry>, n: nat)
    requires n + 1 < |entries|
    ensures SentUpTo(entries, n) + (Payload(entries[n].value) + (" " + Head(entries[n + 1])) + "\r\n")
            == SentUpTo(entries, n + 1)
  {
    hide Head, Payload;
    ValueAndHead(TextBefore(entries, n, false), Head(entries[n]), Payload(entries[n].value), Head(entries[n + 1]));
  }

  lemma ValueAndHead(before: string, head: string, value: string, next: string)
    ensures (before + head + "\r\n") + (value + (" " + next) + "\r\n")
            == before + (head + "\r\n" + value) + " " + next + "\r\n"
  {
  }

  lemma LastValueSent(entries: seq<Entry>)
    requires entries != []
    ensures SentUpTo(entries, |entries| - 1) + (Payload(entries[|entries| - 1].value) + ")" + "\r\n")
            == EntriesText(entries, false) + ")" + "\r\n"
  {
    TextLast(entries, false);
    hide Head, Payload, EntriesText;
    var n := |entries| - 1;
    ValueAndEnd(TextBefore(entries, n, false), Head(entries[n]), Payload(entries[n].value));
  }

  lemma ValueAndEnd(before: string, head: string, value: string)
    ensures (before + head + "\r\n") + (value + ")" + "\r\n") == before + (head + "\r\n" + value) + ")" + "\r\n"
  {
  }

  lemma FirstSent(opening: string, entries: seq<Entry>)
    requires entries != []
    ensures (opening + "(" + Head(entries[0])) + "\r\n" == opening + "(" + SentUpTo(entries, 0)
  {
    hide Head;
    assert "" + Head(entries[0]) == Head(entries[0]);
  }

  lemma SizedHead(entry: Entry)
    ensures "\"" + entry.key + "\"" + (" {" + Number(if |entry.value| == 0 then 3 else |entry.value|) + "}")
            == Head(entry)
  {
    Associative(QuotedKey(entry.key), " {" + Decimal(|Payload(entry.value)|), "}");
    Associative(QuotedKey(entry.key), " {", Decimal(|Payload(entry.value)|));
  }

  lemma SimpleStep(entries: seq<Entry>, n: nat)
    requires n < |entries|
    ensures ("(" + TextBefore(entries, n, true)) + EntryText(entries[n], true) + " "
            == "(" + TextBefore(entries, n + 1, true)
  {
    hide EntryText;
  }

  lemma SimpleClose(entries: seq<Entry>)
    requires entries != []
    ensures var list := "(" + TextBefore(entries, |entries|, true);
            list[..|list| - 1] + ")" == "(" + EntriesText(entries, true) + ")"
  {
    TextLast(entries, true);
    hide EntryText, EntriesText;
    var list := "(" + TextBefore(entries, |entries|, true);
    assert list == ("(" + EntriesText(entries, true)) + " ";
  }

  predicate Multiline(value: string) {
    '\r' in value || '\n' in value
  }

  /** What is sent in one line has no line breaks, if the keys have none. */
  lemma {:induction false} OneLine(entries: seq<Entry>)
    requires forall i :: 0 <= i < |entries| ==> Unbroken(entries[i].key) && !Multiline(entries[i].value)
    ensures Unbroken(EntriesText(entries, true))
  {
    if entries != [] {
      OneLine(entries[1..]);
    }
  }

  predicate Unbroken(s: string) {
    forall i :: 0 <= i < |s| ==> s[i] != '\r' && s[i] != '\n'
  }

  /** A job whose values all fit in one line sends them so, and only then in the newer command. */
  lemma SimpleExactly(job: SetMetaDataJob)
    ensures !job.annotateMore ==>
      (job.Simple() <==> forall i :: 0 <= i < |job.entries| ==> Unbroken(job.entries[i].value))
    ensures job.annotateMore ==> job.Simple()
  {
  }

  class SetMetaDataJob {
    const mailBox: string
    const utf8Enabled: bool
    /** Speaks ANNOTATEMORE, with an entry name, rather than METADATA */
    const annotateMore: bool
    const entryName: string
    /** In the order of their keys */
    const entries: seq<Entry>
    var entriesIt: nat
    /** What went to the server after the tag and the command */
    var written: string

    constructor (mailBox: string, utf8Enabled: bool, annotateMore: bool, entryName: string, entries: seq<Entry>)
      ensures this.mailBox == mailBox && this.utf8Enabled == utf8Enabled && this.annotateMore == annotateMore
      ensures this.entryName == entryName && this.entries == entries && entriesIt == 0 && written == ""
    {
      this.mailBox, this.utf8Enabled, this.annotateMore := mailBox, utf8Enabled, annotateMore;
      this.entryName, this.entries, entriesIt, written := entryName, entries, 0, "";
    }

    /** What comes before the list */
    function Opening(): string {
      "\"" + Quoted(if utf8Enabled then mailBox else Encoded(mailBox)) + "\" "
      + if annotateMore then QuotedKey(entryName) + " " else ""
    }

    predicate Simple() {
      annotateMore || forall i :: 0 <= i < |entries| ==> !Multiline(entries[i].value)
    }

    /** In literal mode the server asks for the value at `entriesIt`, or has the whole list. */
    ghost predicate Sending()
      reads this
    {
      && !Simple() && entriesIt <= |entries|
      && if entriesIt < |entries| then written == Opening() + "(" + SentUpTo(entries, entriesIt)
         else written == Opening() + "(" + (EntriesText(entries, false) + ")" + "\r\n")
    }

    method SendData(data: string)
      modifies this`written
      ensures written == old(written) + (data + "\r\n")
    {
      written := written + (data + "\r\n");
    }

    method Parameters() returns (parameters: string)
      ensures parameters == Opening()
    {
      var name := EncodeImapFolderName(mailBox, utf8Enabled);
      parameters := "\"" + name + "\" ";
      if annotateMore {
        parameters := parameters + (QuotedKey(entryName) + " ");
      } else {
        assert parameters + "" == parameters;
      }
    }

    method IsSimple() returns (bSimpleData: bool)
      ensures bSimpleData == Simple()
    {
      bSimpleData := true;
      if !annotateMore {
        var it := 0;
        while it < |entries|
          invariant 0 <= it <= |entries| && bSimpleData
          invariant forall i :: 0 <= i < it ==> !Multiline(entries[i].value)
        {
          if Multiline(entries[it].value) {
            return false;
          }
          it := it + 1;
        }
      }
    }

    /** All entries in one line; the space after the last one gives way to the parenthesis. */
    method SimpleList() returns (list: string)
      requires entries != []
      modifies this`entriesIt
      ensures list == "(" + EntriesText(entries, true) + ")" && entriesIt == |entries|
    {
      hide Payload, EntriesText;
      list := "(";
      entriesIt := 0;
      while entriesIt < |entries|
        invariant 0 <= entriesIt <= |entries| && list == "(" + TextBefore(entries, entriesIt, true)
      {
        var entry := entries[entriesIt];
        var text := QuotedKey(entry.key) + " ";
        text := text + (if entry.value == "" then "NIL" else QuotedKey(entry.value));
        SimpleStep(entries, entriesIt);
        list := list + text + " ";
        entriesIt := entriesIt + 1;
      }
      SimpleClose(entries);
      list := list[..|list| - 1] + ")";
    }

    method SizedKey(it: nat) returns (head: string)
      requires it < |entries|
      ensures head == Head(entries[it])
    {
      head := "\"" + entries[it].key + "\"";
      var size := |entries[it].value|;
      head := head + (" {" + Number(if size == 0 then 3 else size) + "}");
      SizedHead(entries[it]);
    }

    /** Without entries there is no list: a parenthesis replaces the one that opened it. */
    method DoStart()
      requires written == "" && entriesIt == 0
      modifies this
      ensures !Simple() ==> Sending() && entriesIt == 0
      ensures Simple() ==> entriesIt == |entries|
      ensures Simple() ==>
        written == Opening() + (if entries == [] then "))" else "(" + EntriesText(entries, true) + ")") + "\r\n"
    {
      var parameters := Parameters();
      var bSimpleData := IsSimple();
      if bSimpleData {
        var list := ")";
        if entries != [] {
          list := SimpleList();
        }
        parameters := parameters + list;
      } else {
        assert entries != [];
        var head := SizedKey(0);
        parameters := parameters + "(" + head;
        FirstSent(Opening(), entries);
      }
      if entries == [] {
        parameters := parameters + ")";
      }
      SendData(parameters);
    }

    /** The server is ready for the next literal. */
    method Continue()
      requires Sending() && entriesIt < |entries|
      modifies this
      ensures Sending() && entriesIt == old(entriesIt) + 1
    {
      hide SentUpTo, EntriesText, Head, TextBefore, SetMetaDataJob.Opening, SetMetaDataJob.Simple;
      ghost var opening, before := Opening() + "(", SentUpTo(entries, entriesIt);
      var content := "";
      if entries[entriesIt].value == "" {
        content := content + "NIL";
      } else {
        content := content + entries[entriesIt].value;
      }
      assert content == Payload(entries[entriesIt].value);
      entriesIt := entriesIt + 1;
      if entriesIt == |entries| {
        LastValueSent(entries);
        content := content + ")";
      } else {
        ValueSent(entries, entriesIt - 1);
        var head := SizedKey(entriesIt);
        content := content + (" " + head);
      }
      Associative(opening, before, content + "\r\n");
      SendData(content);
    }
  }

  /** The whole exchange in literal mode: after one continuation for each entry the server holds a list,
      and reads from it what was to be set, if and only if the keys are intact. */
  method Exchange(job: SetMetaDataJob)
    requires job.written == "" && job.entriesIt == 0 && !job.Simple()
    modifies job
    ensures job.written == job.Opening() + ("(" + EntriesText(job.entries, false) + ")" + "\r\n")
    ensures Sized(job.entries, false) ==>
      (ListText(job.written[|job.Opening()|..]) == Ok(KeysAndValues(job.entries), "\r\n")
       <==> Sendable(job.entries, false))
  {
    job.DoStart();
    while job.entriesIt < |job.entries|
      invariant job.Sending()
      decreases |job.entries| - job.entriesIt
    {
      job.Continue();
    }
    hide EntriesText, SetMetaDataJob.Opening, SetMetaDataJob.Simple, ListText, Sendable, Sized;
    var opening, list := job.Opening(), "(" + EntriesText(job.entries, false) + ")" + "\r\n";
    Framing(opening, EntriesText(job.entries, false));
    assert job.written[|opening|..] == list;
    if Sized(job.entries, false) {
      EntriesReadBackExactly(job.entries, false, "\r\n");
    }
  }

  lemma Framing(opening: string, text: string)
    ensures opening + "(" + (text + ")" + "\r\n") == opening + ("(" + text + ")" + "\r\n")
  {
  }
}
