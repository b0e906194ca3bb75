/** A mailbox and its own STATUS response: LIST decodes the name, STATUS takes it as it came. */
module StatusPairing {
  import opened Decimals
  import opened FolderNameCodec
  import opened FolderNameDecoder
  import opened FolderNameText
  import opened Jobs
  import opened ListAggregation
  import opened Texts

  // ---------------------------------------------------------------- Names as they came

  lemma {:induction false} DecodedPrefix(a: string, b: string)
    requires Without(a, '&')
    ensures Decoded(a + b) == a + Decoded(b)
  {
    if a == "" {
      assert "" + b == b && "" + Decoded(b) == Decoded(b);
    } else {
      assert (a + b)[1..] == a[1..] + b;
      DecodedPrefix(a[1..], b);
      assert [a[0]] + (a[1..] + Decoded(b)) == a + Decoded(b);
    }
  }

  /** The name is INBOX, or starts with it and the separator, in any case of letters. */
  predicate IsInbox(name: string, separator: char) {
    && |name| >= 5 && ToUpper(name[..5]) == "INBOX" && Without(name[..5], separator)
    && (|name| == 5 || name[5] == separator)
  }

  /** INBOX is shown in capital letters, and what follows it unchanged; any other name as it is. */
  lemma Converted(d: Descriptor)
    ensures ConvertInboxName(d)
         == d.(name := if IsInbox(d.name, d.separator) then "INBOX" + d.name[5..] else d.name)
  {
    var parts := Split(d.name, d.separator);
    FirstPiece(d.name, d.separator);
    FirstWithout(d.name, d.separator);
    if ToUpper(parts[0]) == "INBOX" {
      assert d.name[..5] == parts[0];
      assert "INBOX" + "" == "INBOX";
    } else if IsInbox(d.name, d.separator) {
      FirstEnds(d.name, d.separator);
    }
  }

  lemma {:induction false} FirstWithout(s: string, sep: char)
    ensures Without(Split(s, sep)[0], sep)
  {
    if s != "" {
      FirstWithout(s[1..], sep);
    }
  }

  lemma FirstEnds(s: string, sep: char)
    requires |s| >= 5 && Without(s[..5], sep) && (|s| == 5 || s[5] == sep)
    ensures Split(s, sep)[0] == s[..5]
  {
    if |s| == 5 {
      SplitPiece(s, sep, "");
      assert s[..5] == s;
    } else {
      SplitPiece(s[..5], sep, s[6..]);
      assert s == s[..5] + [sep] + s[6..];
    }
  }

  lemma {:induction false} FirstPiece(s: string, sep: char)
    ensures var parts := Split(s, sep);
            s == parts[0] + if |parts| == 1 then "" else [sep] + Join(parts[1..], sep)
  {
    var parts := Split(s, sep);
    if s != "" {
      var rest := Split(s[1..], sep);
      FirstPiece(s[1..], sep);
      Rejoined(rest, sep);
      assert s == [s[0]] + s[1..];
      if s[0] == sep {
        assert parts[1..] == rest && "" + ([sep] + s[1..]) == s;
      } else {
        assert parts[1..] == rest[1..];
      }
    }
  }

  lemma Rejoined(parts: seq<string>, sep: char)
    requires parts != []
    ensures Join(parts, sep) == parts[0] + if |parts| == 1 then "" else [sep] + Join(parts[1..], sep)
  {
  }

  lemma InboxPlain(s: string)
    requires ToUpper(s) == "INBOX"
    ensures Without(s, '&')
  {
    forall i | 0 <= i < |s|
      ensures s[i] != '&'
    {
      assert Upper(s[i]) == ToUpper(s)[i];
    }
  }

  // ---------------------------------------------------------------- The pair of responses

  /** A name without quotes comes in as many parts as it has words. */
  function ListResponse(command: string, flags: seq<string>, separator: string, parts: seq<string>): Content {
    [Str("*"), Str(command), List(flags), Str(separator)] + Strings(parts)
  }

  function Strings(texts: seq<string>): (parts: Content)
    ensures |parts| == |texts|
  {
    if texts == [] then [] else [Str(texts[0])] + Strings(texts[1..])
  }

  /** Items of a status: names and numbers in turn */
  function Flattened(status: Status): seq<string> {
    if status == [] then [] else [status[0].0, Number(status[0].1)] + Flattened(status[1..])
  }

  function StatusResponse(wire: string, status: Status): Content {
    [Str("*"), Str("STATUS"), Str(wire), List(Flattened(status))]
  }

  function SeparatorOf(separator: string): char {
    if separator == "" then '/' else separator[0]
  }

  /** What the LIST response is said to be about */
  function NameOf(separator: string, wire: string, utf8Enabled: bool): string {
    var read := if utf8Enabled then wire else Decoded(wire);
    if IsInbox(read, SeparatorOf(separator)) then "INBOX" + read[5..] else read
  }

  // ---------------------------------------------------------------- Numbers, words and letters

  /** Numbers have 64 bits. */
  predicate Sized(status: Status) {
    forall i :: 0 <= i < |status| ==> INT64_MIN <= status[i].1 <= INT64_MAX
  }

  /** The names and numbers of a status are read as they were sent, in their order. */
  lemma {:induction false} StatusRead(status: Status)
    requires Sized(status)
    ensures StatusPairs(Flattened(status)) == status
  {
    if status != [] {
      var (name, value) := status[0];
      var rest := Flattened(status[1..]);
      StatusRead(status[1..]);
      NumberRoundTrip(value);
      assert ([name, Number(value)] + rest)[2..] == rest;
      assert [status[0]] + status[1..] == status;
    }
  }

  /** Words of a name are put together with single spaces. */
  lemma {:induction false} WordsJoined(texts: seq<string>)
    ensures SpacedName(Strings(texts)) == Join(texts, ' ')
  {
    if texts != [] {
      WordsJoined(texts[1..]);
      assert Strings(texts)[1..] == Strings(texts[1..]);
      assert [' '] == " ";
    }
  }

  /** Capitals are put in small letters, and nothing else is changed. */
  lemma LowerLetters(i: nat, c: char)
    requires i < 26
    ensures Lower(CAPITALS[i]) == SMALL[i] && Upper(SMALL[i]) == CAPITALS[i]
    ensures c !in CAPITALS ==> Lower(c) == c
    ensures c !in SMALL ==> Upper(c) == c
  {
    Capitals(i);
    Small(i);
    if 'A' <= c <= 'Z' {
      Capitals(c as nat - 'A' as nat);
      assert CAPITALS[c as nat - 'A' as nat] == c;
    }
    if 'a' <= c <= 'z' {
      Small(c as nat - 'a' as nat);
      assert SMALL[c as nat - 'a' as nat] == c;
    }
  }

  lemma {:induction false} LowerAllAt(flags: Flags, i: nat, k: nat)
    requires i < |flags| && k < |flags[i]|
    ensures |LowerAll(flags)| == |flags| && |LowerAll(flags)[i]| == |flags[i]|
    ensures LowerAll(flags)[i][k] == Lower(flags[i][k])
  {
    LowerAllCount(flags);
    if i > 0 {
      LowerAllAt(flags[1..], i - 1, k);
    }
  }

  lemma {:induction false} LowerAllCount(flags: Flags)
    ensures |LowerAll(flags)| == |flags|
  {
    if flags != [] {
      LowerAllCount(flags[1..]);
    }
  }

  /** A mailbox cannot be selected if and only if one of its flags is \NoSelect, in any case of letters. */
  lemma {:induction false} NoSelectSpelled(flags: Flags)
    ensures NoSelect(LowerAll(flags)) <==> exists i :: 0 <= i < |flags| && ToUpper(flags[i]) == "\\NOSELECT"
  {
    if flags != [] {
      NoSelectSpelled(flags[1..]);
      OneSpelled(flags[0]);
      assert LowerAll(flags) == [ToLower(flags[0])] + LowerAll(flags[1..]);
      assert flags == [flags[0]] + flags[1..];
      hide ToUpper, ToLower, LowerAll;
      if exists i :: 0 <= i < |flags[1..]| && ToUpper(flags[1..][i]) == "\\NOSELECT" {
        var i :| 0 <= i < |flags[1..]| && ToUpper(flags[1..][i]) == "\\NOSELECT";
        assert flags[i + 1] == flags[1..][i];
      }
      if exists i :: 0 <= i < |flags| && ToUpper(flags[i]) == "\\NOSELECT" {
        var i :| 0 <= i < |flags| && ToUpper(flags[i]) == "\\NOSELECT";
        assert i > 0 ==> flags[1..][i - 1] == flags[i];
      }
    }
  }

  lemma OneSpelled(flag: string)
    ensures ToLower(flag) == "\\noselect" <==> ToUpper(flag) == "\\NOSELECT"
  {
    SameSpelling(flag, "\\noselect", "\\NOSELECT");
  }

  lemma SameSpelling(s: string, small: string, capital: string)
    requires |small| == |capital|
    requires forall i :: 0 <= i < |small| ==> Upper(small[i]) == capital[i] && Lower(capital[i]) == small[i]
    requires forall i :: 0 <= i < |small| ==> Upper(capital[i]) == capital[i] && Lower(small[i]) == small[i]
    ensures ToLower(s) == small <==> ToUpper(s) == capital
  {
    if ToLower(s) == small {
      forall i | 0 <= i < |s|
        ensures ToUpper(s)[i] == capital[i]
      {
        assert Lower(s[i]) == ToLower(s)[i];
      }
      assert ToUpper(s) == capital;
    }
    if ToUpper(s) == capital {
      forall i | 0 <= i < |s|
        ensures ToLower(s)[i] == small[i]
      {
        assert Upper(s[i]) == ToUpper(s)[i];
      }
      assert ToLower(s) == small;
    }
  }

  // ---------------------------------------------------------------- Which status is matched

  predicate StartsInbox(s: string) {
    |s| >= 5 && ToUpper(s[..5]) == "INBOX"
  }

  lemma InboxItself(rest: string)
    ensures StartsInbox("INBOX" + rest) && ("INBOX" + rest)[..5] == "INBOX" && ("INBOX" + rest)[5..] == rest
  {
    assert ("INBOX" + rest)[..5] == "INBOX";
  }

  /** Decoding leaves the first five letters of INBOX alone. */
  lemma InboxRead(wire: string)
    requires StartsInbox(wire)
    ensures |Decoded(wire)| >= 5 && Decoded(wire)[..5] == wire[..5]
  {
    InboxPlain(wire[..5]);
    DecodedPrefix(wire[..5], wire[5..]);
    assert wire[..5] + wire[5..] == wire;
  }

  /** The STATUS response with the name that the LIST response had is taken for that mailbox if and only
      if decoding leaves the name alone, or was not done. */
  lemma SameName(separator: string, wire: string, utf8Enabled: bool)
    ensures Matches(wire, NameOf(separator, wire, utf8Enabled)) <==> utf8Enabled || Decoded(wire) == wire
  {
    hide Decoded;
    var read := if utf8Enabled then wire else Decoded(wire);
    var name := NameOf(separator, wire, utf8Enabled);
    if |read| >= 5 {
      InboxItself(read[5..]);
      assert read == read[..5] + read[5..];
    }
    if StartsInbox(wire) {
      InboxRead(wire);
      assert wire == wire[..5] + wire[5..];
      assert name[5..] == read[5..];
    }
  }

  /** What is reported of a mailbox after its LIST and its own STATUS response */
  lemma OwnStatus(command: string, flags: seq<string>, separator: string, parts: seq<string>, status: Status,
                  utf8Enabled: bool)
    requires parts != [] && Sized(status)
    ensures var wire := Join(parts, ' ');
            Report([Interpret(ListResponse(command, flags, separator, parts), command, utf8Enabled),
                    Interpret(StatusResponse(wire, status), command, utf8Enabled)])
            == [Item(Descriptor(NameOf(separator, wire, utf8Enabled), SeparatorOf(separator)),
                     LowerAll(flags),
                     if Selectable(flags) && (utf8Enabled || Decoded(wire) == wire) then Some(status) else None)]
  {
    var wire := Join(parts, ' ');
    var list := Interpret(ListResponse(command, flags, separator, parts), command, utf8Enabled);
    var event := Interpret(StatusResponse(wire, status), command, utf8Enabled);
    SameName(separator, wire, utf8Enabled);
    ListRead(command, flags, separator, parts, utf8Enabled);
    StatusRead(status);
    NoSelectSpelled(flags);
    hide Interpret, Matches, NameOf, Decoded, ListResponse, NoSelect, ToUpper;
    assert [list, event][1..] == [event] && [event][1..] == [];
    assert StatusAfter(list.descriptor, []) == None && Report([]) == [] && Report([event]) == [];
  }

  /** None of the flags is \NoSelect. */
  predicate Selectable(flags: Flags) {
    !exists i :: 0 <= i < |flags| && ToUpper(flags[i]) == "\\NOSELECT"
  }

  lemma ListRead(command: string, flags: seq<string>, separator: string, parts: seq<string>, utf8Enabled: bool)
    requires parts != []
    ensures Interpret(ListResponse(command, flags, separator, parts), command, utf8Enabled)
         == Listed(Descriptor(NameOf(separator, Join(parts, ' '), utf8Enabled), SeparatorOf(separator)),
                   LowerAll(flags))
  {
    hide LowerAll, Decoded, ConvertInboxName, IsInbox;
    var list := ListResponse(command, flags, separator, parts);
    var read := if utf8Enabled then Join(parts, ' ') else Decoded(Join(parts, ' '));
    assert list[4..] == Strings(parts) && list[1] == Str(command);
    assert list[2] == List(flags) && list[3] == Str(separator);
    WordsJoined(parts);
    Converted(Descriptor(read, SeparatorOf(separator)));
  }

  // ---------------------------------------------------------------- Names that were encoded

  /** Printable ASCII without the ampersand */
  predicate Plain(name: string) {
    Printable(name) && Without(name, '&')
  }

  lemma {:induction false} EncodedLonger(name: string)
    requires Printable(name)
    ensures |Encoded(name)| >= |name| && (|Encoded(name)| == |name| <==> Without(name, '&'))
    ensures Without(name, '&') ==> Encoded(name) == name
  {
    if name != "" {
      assert Direct(name[0]);
      var rest := name[1..];
      assert Printable(rest) && name == [name[0]] + rest;
      EncodedLonger(rest);
      EncodedStep(name);
      assert Without(name, '&') <==> name[0] != '&' && Without(rest, '&');
    }
  }

  lemma EncodedStep(name: string)
    requires name != "" && Direct(name[0])
    ensures Encoded(name) == [name[0]] + (if name[0] == '&' then "-" else "") + Encoded(name[1..])
  {
    assert "" + [name[0]] == [name[0]];
  }

  lemma EncodedSame(name: string)
    ensures Encoded(name) == name <==> Plain(name)
  {
    EncodedPrintable(name, false, [], Idle);
    if Printable(name) {
      EncodedLonger(name);
    }
  }

  /** Without UTF8=ACCEPT, a mailbox gets its own status if and only if its name is printable ASCII
      without an ampersand, whenever the codec brings the name back at all. */
  lemma EncodedNameMatched(separator: string, name: string)
    requires Decoded(Encoded(name)) == name
    ensures Matches(Encoded(name), NameOf(separator, Encoded(name), false)) <==> Plain(name)
  {
    SameName(separator, Encoded(name), false);
    EncodedSame(name);
  }

  /** The mailbox named by a single ampersand never gets its own status. */
  lemma AmpersandUnmatched()
    ensures Decoded("&-") == "&" && !Matches("&-", NameOf("/", "&-", false))
  {
    assert "&-"[2..] == "" && "&" + "" == "&" && Decoded("") == "";
    SameName("/", "&-", false);
  }
}
