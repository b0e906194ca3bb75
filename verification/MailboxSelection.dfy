/** The SELECT job: the arguments that it writes, and the mailbox that the session reads from them. */
module MailboxSelection {
  import opened Bits
  import opened Decimals
  import opened FolderNameCodec
  import opened FolderNameDecoder
  import opened FolderNameRoundTrip
  import opened FolderNameText
  import opened ImapSets
  import opened Jobs
  import opened SessionLog
  import opened Sessions
  import opened Texts
  import opened Unicode

  /** The quoted, encoded name and what follows it */
  function Arguments(mailBox: string, suffix: string, utf8Enabled: bool): string {
    "\"" + Quoted(if utf8Enabled then mailBox else Encoded(mailBox)) + "\"" + suffix
  }

  // ---------------------------------------------------------------- The name between the quotes

  lemma {:induction false} BeforeFirstQuote(s: string, t: string)
    requires Without(s, '"')
    ensures BeforeQuote(s + "\"" + t) == s
  {
    var all := s + "\"" + t;
    assert all[|s|] == '"';
    if s != "" {
      assert all[1..] == s[1..] + "\"" + t;
      BeforeFirstQuote(s[1..], t);
    }
  }

  lemma {:induction false} BeforeQuoteWithout(s: string)
    ensures Without(BeforeQuote(s), '"')
  {
    if s != "" {
      BeforeQuoteWithout(s[1..]);
    }
  }

  lemma {:induction false} QuotedWithout(s: string)
    requires Without(s, '"')
    ensures Without(Quoted(s), '"')
  {
    if s != "" {
      QuotedWithout(s[1..]);
    }
  }

  lemma {:induction false} QuotedLonger(s: string)
    ensures |Quoted(s)| >= |s|
    ensures |Quoted(s)| == |s| ==> Unquoted(s)
  {
    if s != "" {
      QuotedLonger(s[1..]);
      assert forall i :: 0 < i < |s| ==> s[i] == s[1..][i - 1];
    }
  }

  /** With UTF8=ACCEPT the session reads the name of the job if and only if it needs no backslash. */
  lemma NameInUtf8(name: string, suffix: string)
    ensures MailboxIn(Arguments(name, suffix, true), true) == name <==> Unquoted(name)
  {
    var args := Arguments(name, suffix, true);
    assert args[1..] == Quoted(name) + "\"" + suffix;
    BeforeQuoteWithout(args[1..]);
    if Without(name, '"') {
      QuotedWithout(name);
      BeforeFirstQuote(Quoted(name), suffix);
      QuotedLonger(name);
      if Unquoted(name) {
        QuotedUnquoted(name);
      }
    }
  }

  lemma WithoutConcat(a: string, b: string, c: char)
    requires Without(a, c) && Without(b, c)
    ensures Without(a + b, c)
  {
  }

  lemma RunTextWithout(bits: seq<bool>)
    ensures Without("&" + RunText(bits), '"')
  {
    EmitUnquoted(bits);
  }

  lemma {:induction false} ModifiedWithout(cps: seq<Scalar>)
    requires 0x22 !in cps
    ensures Without(Modified(cps), '"')
    decreases |cps|
  {
    if cps == [] {
    } else if IsDirect(cps[0]) {
      ModifiedWithout(cps[1..]);
      WithoutConcat(DirectText(cps[0]), Modified(cps[1..]), '"');
    } else {
      hide RunText, UnitBits, RunUnits, AfterUnits;
      RunTextWithout(UnitBits(RunUnits(cps)));
      AfterUnitsWithout(cps);
      ModifiedWithout(AfterUnits(cps));
      WithoutConcat("&" + RunText(UnitBits(RunUnits(cps))), Modified(AfterUnits(cps)), '"');
    }
  }

  lemma {:induction false} AfterUnitsWithout(cps: seq<Scalar>)
    requires 0x22 !in cps
    ensures 0x22 !in AfterUnits(cps)
  {
    if cps != [] && !IsDirect(cps[0]) {
      AfterUnitsWithout(cps[1..]);
    }
  }

  /** Without double quotes, the name is cut out as it was sent. */
  lemma NameWithoutQuote(cps: seq<Scalar>, suffix: string)
    requires 0x22 !in cps
    ensures MailboxIn(Arguments(Utf8All(cps), suffix, false), false) == Utf8All(cps) <==> RoundTrips(cps)
  {
    hide Decoded, Quoted, RoundTrips, BeforeQuote;
    var text := Encoded(Utf8All(cps));
    EncodedIsModified(cps);
    ModifiedWithout(cps);
    QuotedWithout(text);
    assert Arguments(Utf8All(cps), suffix, false)[1..] == Quoted(text) + "\"" + suffix;
    BeforeFirstQuote(Quoted(text), suffix);
    RoundTripExactly(cps);
  }

  lemma {:induction false} ModifiedAround(before: seq<Scalar>, rest: seq<Scalar>)
    ensures Modified(before + ([0x22] + rest)) == Modified(before) + ("\"" + Modified(rest))
    decreases |before|
  {
    var tail := [0x22] + rest;
    if before == [] {
      assert before + tail == tail && tail[1..] == rest;
      assert "" + ("\"" + Modified(rest)) == "\"" + Modified(rest);
    } else {
      var all := before + tail;
      assert all[0] == before[0] && all[1..] == before[1..] + tail;
      if IsDirect(before[0]) {
        ModifiedAround(before[1..], rest);
        Associative(DirectText(before[0]), Modified(before[1..]), "\"" + Modified(rest));
      } else {
        RunAround(before, rest);
        ModifiedAround(AfterUnits(before), rest);
        Associative("&" + RunText(UnitBits(RunUnits(before))), Modified(AfterUnits(before)), "\"" + Modified(rest));
      }
    }
  }

  lemma {:induction false} RunAround(before: seq<Scalar>, rest: seq<Scalar>)
    ensures RunUnits(before + ([0x22] + rest)) == RunUnits(before)
    ensures AfterUnits(before + ([0x22] + rest)) == AfterUnits(before) + ([0x22] + rest)
  {
    var tail := [0x22] + rest;
    if before == [] {
      assert before + tail == tail;
    } else {
      assert (before + tail)[1..] == before[1..] + tail;
      RunAround(before[1..], rest);
    }
  }

  lemma {:induction false} Utf8Around(before: seq<Scalar>, rest: seq<Scalar>)
    ensures Utf8All(before + ([0x22] + rest)) == Utf8All(before) + ("\"" + Utf8All(rest))
  {
    var tail := [0x22] + rest;
    if before == [] {
      assert before + tail == tail && tail[1..] == rest;
      assert "" + ("\"" + Utf8All(rest)) == "\"" + Utf8All(rest);
    } else {
      assert (before + tail)[1..] == before[1..] + tail;
      Utf8Around(before[1..], rest);
      Associative(Utf8(before[0]), Utf8All(before[1..]), "\"" + Utf8All(rest));
    }
  }

  /** A name with a double quote is cut at the backslash before it, and never comes back. */
  lemma NameWithQuote(before: seq<Scalar>, rest: seq<Scalar>, suffix: string)
    requires 0x22 !in before
    ensures var cps := before + ([0x22] + rest);
            MailboxIn(Arguments(Utf8All(cps), suffix, false), false) != Utf8All(cps)
  {
    var cps := before + ([0x22] + rest);
    var sent := Quoted(Modified(before)) + "\\";
    EncodedIsModified(cps);
    ModifiedAround(before, rest);
    ModifiedWithout(before);
    QuotedWithout(Modified(before));
    QuotedConcat(Modified(before), "\"" + Modified(rest));
    QuotedConcat("\"", Modified(rest));
    QuoteSplit(Quoted(Modified(before)), Quoted(Modified(rest)), suffix);
    BeforeFirstQuote(sent, Quoted(Modified(rest)) + "\"" + suffix);
    DecodedModified(before, "\\", true);
    OneBackslash();
    ReceivedExactly(before, 0, 0, "\\", "\"" + Utf8All(rest), true);
    Utf8Around(before, rest);
    hide Decoded, Quoted, BeforeQuote, Modified, Received, Utf8All, Encoded;
  }

  lemma OneBackslash()
    ensures Decoded("\\") == "\\" && Quoted("\"") == "\\\""
  {
    assert "\\"[1..] == "" && "\""[1..] == "";
  }

  lemma QuoteSplit(before: string, rest: string, suffix: string)
    ensures ("\"" + (before + ("\\\"" + rest)) + "\"" + suffix)[1..] == (before + "\\") + "\"" + (rest + "\"" + suffix)
  {
  }

  lemma {:induction false} FirstQuote(cps: seq<Scalar>) returns (n: nat)
    requires 0x22 in cps
    ensures n < |cps| && cps[n] == 0x22 && 0x22 !in cps[..n]
  {
    n := 0;
    if cps[0] != 0x22 {
      var m := FirstQuote(cps[1..]);
      n := m + 1;
      assert cps[..n] == [cps[0]] + cps[1..][..m];
    }
  }

  /** Without UTF8=ACCEPT the session reads the name of the job if and only if the codec brings it back. */
  lemma NameInUtf7(cps: seq<Scalar>, suffix: string)
    ensures MailboxIn(Arguments(Utf8All(cps), suffix, false), false) == Utf8All(cps) <==> RoundTrips(cps)
  {
    if 0x22 in cps {
      var n := FirstQuote(cps);
      assert cps == cps[..n] + ([0x22] + cps[n + 1..]);
      NameWithQuote(cps[..n], cps[n + 1..], suffix);
      assert !Survives(cps[n], Before(cps, n, 0), true);
    } else {
      NameWithoutQuote(cps, suffix);
    }
  }

  // ---------------------------------------------------------------- The job

  /** What a response does to the log of a session whose last SELECT has no reply yet */
  lemma AfterReply(log: seq<Entry>, k: nat, content: Content)
    requires Causal(log) && Greeted(log) && Outstanding(log, Select) == Some(k) && Window(log)
    ensures var next := log + Recorded(log, content);
            if Tagged(content) == TagOf(k) && Code(content) != "BYE" then
              OpenMailbox(next)
              == if LoggedIn(log) && Code(content) == "OK" then Some(LatestMailbox(log)) else None
            else Outstanding(next, Select) == Some(k) && LatestMailbox(next) == LatestMailbox(log)
  {
    hide Phase, Mailbox, Greeted, LatestMailbox;
    assert log + [] == log;
    ResolveRecent(k, Sends(log));
    OpenOnlyLoggedIn(log);
    match Resolve(Tagged(content), Sends(log))
    case None =>
    case Some(j) =>
      ReplyStep(log, j, Code(content) == "OK");
      Snoc(log, SessionLog.Reply(j, Code(content) == "OK"));
  }

  lemma OnlyTag(content: Content, k: nat)
    ensures Answers(content, [TagOf(k)]) <==> Tagged(content) == TagOf(k)
    ensures Tagged(content) == TagOf(k) ==> Tagged(content) != ""
  {
  }

  lemma MailboxOpened(s: Session)
    requires s.Tracks()
    ensures s.currentMailBox == match OpenMailbox(s.log) case Some(m) => m case None => ""
  {
  }

  /** The code of the reply is there, and it is not OK. */
  predicate Refuses(content: Content) {
    |content| >= 2 && Code(content) != "OK"
  }

  class SelectJob {
    const job: Job
    const mailBox: string
    const readOnly: bool
    const condstoreEnabled: bool
    const lastUidvalidity: int
    const lastModseq: nat
    const knownUids: seq<Interval>

    constructor (job: Job, mailBox: string, readOnly: bool, condstoreEnabled: bool,
                 lastUidvalidity: int, lastModseq: nat, knownUids: seq<Interval>)
      ensures this.job == job && this.mailBox == mailBox && this.readOnly == readOnly
      ensures this.condstoreEnabled == condstoreEnabled && this.lastUidvalidity == lastUidvalidity
      ensures this.lastModseq == lastModseq && this.knownUids == knownUids
    {
      this.job, this.mailBox, this.readOnly := job, mailBox, readOnly;
      this.condstoreEnabled, this.lastUidvalidity := condstoreEnabled, lastUidvalidity;
      this.lastModseq, this.knownUids := lastModseq, knownUids;
    }

    /** What asks for CONDSTORE or QRESYNC */
    function Suffix(): string {
      if !condstoreEnabled then ""
      else if lastUidvalidity == -1 && lastModseq == 0 then " (CONDSTORE)"
      else " (QRESYNC (" + Number(lastUidvalidity) + " " + Number(lastModseq)
           + (if knownUids == [] then "" else " " + SetText(knownUids)) + "))"
    }

    method Parameters(utf8Enabled: bool) returns (params: string)
      ensures params == Arguments(mailBox, Suffix(), utf8Enabled)
    {
      var name := EncodeImapFolderName(mailBox, utf8Enabled);
      params := "\"" + name + "\"";
      ghost var quoted := params;
      var suffix := "";
      if condstoreEnabled {
        if lastUidvalidity == -1 && lastModseq == 0 {
          suffix := " (CONDSTORE)";
        } else {
          suffix := " (QRESYNC (" + Number(lastUidvalidity) + " " + Number(lastModseq);
          if knownUids != [] {
            var ids := ToImapSequenceSet(knownUids);
            suffix := suffix + (" " + ids);
          } else {
            assert suffix + "" == suffix;
          }
          suffix := suffix + "))";
        }
      }
      params := params + suffix;
    }

    /** The session will take the mailbox that it read from the arguments for selected, when the server agrees. */
    ghost predicate Selecting(s: Session, utf8Enabled: bool)
      reads s, s.added, job
    {
      && s.Valid() && !s.lost && s.isSocketConnected && s.currentJob == job && !job.failed
      && (exists k :: Outstanding(s.log, Select) == Some(k) && job.tags == [TagOf(k)])
      && LatestMailbox(s.log) == MailboxIn(Arguments(mailBox, Suffix(), utf8Enabled), utf8Enabled)
    }

    /** The mailbox name survives the way into the arguments and out of them. */
    ghost predicate Legible(utf8Enabled: bool) {
      MailboxIn(Arguments(mailBox, Suffix(), utf8Enabled), utf8Enabled) == mailBox
    }

    lemma EmptyLegible(utf8Enabled: bool)
      ensures mailBox == "" ==> Legible(utf8Enabled)
    {
      if mailBox == "" {
        var args := Arguments(mailBox, Suffix(), utf8Enabled);
        assert Encoded("") == "" && Quoted("") == "" && Decoded("") == "";
        assert args[1] == '"' && args[1..][0] == '"';
      }
    }

    method DoStart(s: Session)
      requires s.Connection() && !s.lost && s.isSocketConnected && s.state != Disconnected
      requires s.Ledger(0) && s.currentJob == job && Session.Fresh(job) && s.mine == [] && s.jobRunning
      modifies s, job
      ensures Selecting(s, old(s.utf8Enabled))
      ensures s.wire == old(s.wire) + [Payload(TagOf(Sends(old(s.log))), if readOnly then "EXAMINE" else "SELECT",
                                               Arguments(mailBox, Suffix(), old(s.utf8Enabled)))]
    {
      hide Session.Tracks, Arguments, SelectJob.Suffix, MailboxIn, SessionLog.Pending, AllSent, OnlySends, Phase,
           Mailbox, LatestMailbox, Outstanding, Greeted, Causal, Sends, TagOf, Payload;
      s.Tracked();
      var params := Parameters(s.utf8Enabled);
      PendingEmpty(s.log);
      SendStep(s.log, Select, MailboxIn(params, s.utf8Enabled));
      s.SendForJob(Command(if readOnly then "EXAMINE" else "SELECT", params));
    }

    /** After the reply, what the job asserts holds, that it failed or the session has this mailbox
        selected, if and only if the server refused or, after login, accepted a name that was read as
        it was meant. A reply of a tag alone breaks it, unless the name is empty. */
    method HandleResponse(s: Session, content: Content, ghost utf8Enabled: bool)
      requires Selecting(s, utf8Enabled) && Window(s.log)
      modifies s, s.added
      ensures Answers(content, old(job.tags)) && Code(content) != "BYE" ==>
        s.Valid() &&
        (job.failed || s.currentMailBox == mailBox <==>
          mailBox == "" || Refuses(content) || (Code(content) == "OK" && LoggedIn(old(s.log)) && Legible(utf8Enabled)))
      ensures !Answers(content, old(job.tags)) || Code(content) == "BYE" ==> (Selecting(s, utf8Enabled) <==> s.Valid())
      ensures s.Valid() <==> Tagged(content) != "" || Code(content) == "BYE" || old(s.Ignores(content))
    {
      hide Session.Tracks, SessionLog.Pending, AllSent, OnlySends, Phase, Mailbox, LatestMailbox, Outstanding, Greeted,
           Causal, Sends, TagOf, OpenMailbox, LoggedIn, Replied, AllAnswered, Utf8Accepted, Window,
           NextState, Session.Next, Session.Ignores, Tagged, Answers, Recorded, MailboxIn, Arguments, SelectJob.Suffix;
      s.Tracked();
      EmptyLegible(utf8Enabled);
      ghost var before := s.log;
      ghost var k :| Outstanding(before, Select) == Some(k) && job.tags == [TagOf(k)];
      AfterReply(before, k, content);
      OnlyTag(content, k);
      assert Fails(content, [TagOf(k)]) <==> Answers(content, [TagOf(k)]) && Refuses(content);
      var close := s.ResponseReceived(content);
      OnlySendsPhase(before + Recorded(before, content), s.log);
      if s.Valid() {
        MailboxOpened(s);
      }
    }
  }
}
