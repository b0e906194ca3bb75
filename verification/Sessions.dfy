/** The session: its protocol state, and the queue of jobs that share the connection. */
module Sessions {
  import opened Decimals
  import opened FolderNameDecoder
  import opened Jobs
  import opened SessionLog
  import opened Texts

  datatype Command = Command(name: string, args: string)

  /** A job in the queue, with the commands that it sends when it starts */
  datatype Queued = Queued(job: Job, commands: seq<Command>)

  function KindOf(command: string): Kind {
    if command == "LOGIN" || command == "AUTHENTICATE" then Auth
    else if command == "SELECT" || command == "EXAMINE" then Select
    else if command == "CLOSE" then Close
    else Plain
  }

  /** What comes before the first double quote; nothing when there is none */
  function BeforeQuote(s: string): string {
    if s == "" || s[0] == '"' || '"' !in s then "" else [s[0]] + BeforeQuote(s[1..])
  }

  /** The mailbox named by the arguments of SELECT: between the first two characters that delimit it. */
  function MailboxIn(args: string, utf8Enabled: bool): string {
    var name := BeforeQuote(if args == "" then "" else args[1..]);
    if utf8Enabled then name else Decoded(name)
  }

  function SentBy(command: string, args: string, utf8Enabled: bool): Entry {
    Sent(KindOf(command), if KindOf(command) == Select then MailboxIn(args, utf8Enabled) else "")
  }

  /** What goes on the wire for a command, before its line break */
  function Payload(tag: string, command: string, args: string): string {
    tag + " " + command + (if args == "" then "" else " " + args)
  }

  /** The payloads of several commands, the first of which has this index */
  function Payloads(first: nat, commands: seq<Command>): seq<string> {
    if commands == [] then []
    else Payloads(first, commands[..|commands| - 1])
         + [Payload(TagOf(first + |commands| - 1), commands[|commands| - 1].name, commands[|commands| - 1].args)]
  }

  function Tagged(content: Content): string {
    if |content| >= 1 then content[0].ToString() else ""
  }

  function Code(content: Content): string {
    if |content| >= 2 then content[1].ToString() else ""
  }

  /** What a response adds to the log of a connection */
  function Recorded(log: seq<Entry>, content: Content): seq<Entry> {
    if Code(content) == "BYE" then []
    else if !Greeted(log) then Greets(Code(content))
    else Replied(log, Tagged(content), Code(content))
  }

  function Greets(code: string): seq<Entry> {
    if code == "OK" || code == "PREAUTH" then [Greeting(code == "PREAUTH")] else []
  }

  /** A reply to the command that the tag names */
  function Replied(log: seq<Entry>, tag: string, code: string): seq<Entry> {
    match Resolve(tag, Sends(log))
    case Some(k) => [Reply(k, code == "OK")]
    case None => []
  }

  function NextState(state: State, ok: bool, tag: string, authTag: string, selectTag: string, closeTag: string): State {
    match state
    case Disconnected => Disconnected
    case NotAuthenticated => if ok && tag == authTag then Authenticated else NotAuthenticated
    case Authenticated => if ok && tag == selectTag then Selected else Authenticated
    case Selected => if (ok && tag == closeTag) || (!ok && tag == selectTag) then Authenticated else Selected
  }

  predicate Utf8Accepted(content: Content) {
    Tagged(content) == "*" && Code(content) == "ENABLED"
    && exists i :: 2 <= i < |content| && Accepts(content[i])
  }

  predicate Accepts(part: Part) {
    ToUpper(part.ToString()) == "UTF8=ACCEPT"
  }

  /** The tags that a job waits for, when it sends one more command */
  lemma PendingSent(before: seq<Entry>, log: seq<Entry>, mine: seq<nat>)
    requires Causal(before) && AllSent(before, mine)
    requires |log| == |before| + 1 && before <= log && Last(log).Sent?
    ensures Pending(log, mine + [Sends(before)]) == Pending(before, mine) + [TagOf(Sends(before))]
    ensures AllSent(log, mine + [Sends(before)])
  {
    assert log == before + [Last(log)];
    Snoc(before, Last(log));
    PendingOthers(before, Last(log), mine);
    if Answered(log, Sends(before)) {
      AnsweredSent(before, Sends(before));
    }
    PendingSend(log, mine, Sends(before));
  }

  lemma OnlySendsChain(a: seq<Entry>, b: seq<Entry>, c: seq<Entry>)
    requires OnlySends(a, b) && OnlySends(b, c)
    ensures OnlySends(a, c)
  {
  }

  lemma OnlySendsNone(a: seq<Entry>)
    ensures OnlySends(a, a)
  {
  }

  lemma PendingEmpty(log: seq<Entry>)
    ensures Pending(log, []) == [] && AllSent(log, [])
  {
  }

  /** The response refuses one of the commands with these tags. */
  predicate Fails(content: Content, tags: seq<string>) {
    Answers(content, tags) && |content| >= 2 && Code(content) != "OK"
  }

  function NextMailbox(state: State, ok: bool, tag: string, selectTag: string, closeTag: string,
                       current: string, upcoming: string): string {
    match state
    case Disconnected => current
    case NotAuthenticated => current
    case Authenticated => if ok && tag == selectTag then upcoming else current
    case Selected =>
      if (ok && tag == closeTag) || (!ok && tag == selectTag) then ""
      else if ok && tag == selectTag then upcoming else current
  }

  function Cleared(kept: string, tag: string): string {
    if tag == kept then "" else kept
  }

  /** Comparing the tags leads to the state and the mailbox that the log leads to. */
  lemma ReplyFollowed(log: seq<Entry>, tag: string, code: string)
    requires Causal(log) && Greeted(log) && Window(log) && tag != ""
    ensures var next := log + Replied(log, tag, code);
            var a, s := TagText(Outstanding(log, Auth)), TagText(Outstanding(log, Select));
            var c := TagText(Outstanding(log, Close));
            && Causal(next) && Greeted(next) && Sends(next) == Sends(log) && LatestMailbox(next) == LatestMailbox(log)
            && Phase(next) == NextState(Phase(log), code == "OK", tag, a, s, c)
            && Mailbox(next) == NextMailbox(Phase(log), code == "OK", tag, s, c, Mailbox(log), LatestMailbox(log))
            && TagText(Outstanding(next, Auth)) == Cleared(a, tag)
            && TagText(Outstanding(next, Select)) == Cleared(s, tag)
            && TagText(Outstanding(next, Close)) == Cleared(c, tag)
  {
    TagMeans(log, Auth, tag);
    TagMeans(log, Select, tag);
    TagMeans(log, Close, tag);
    match Resolve(tag, Sends(log))
    case Some(k) =>
      hide Phase, Mailbox, LatestMailbox, Outstanding, Greeted, Causal, Sends;
      ReplyStep(log, k, code == "OK");
      ReplyPhase(log, k, code == "OK");
    case None =>
      hide Phase, Mailbox, LatestMailbox, Outstanding, Greeted, Causal, Sends;
      assert log + [] == log;
  }

  predicate AllAnswered(log: seq<Entry>, mine: seq<nat>) {
    forall i :: 0 <= i < |mine| ==> Answered(log, mine[i])
  }

  lemma AllAnsweredKeeps(a: seq<Entry>, b: seq<Entry>, mine: seq<nat>)
    requires OnlySends(a, b)
    ensures AllAnswered(b, mine) <==> AllAnswered(a, mine)
  {
    forall i | 0 <= i < |mine|
      ensures Answered(b, mine[i]) <==> Answered(a, mine[i])
    {
      OnlySendsAnswers(a, b, mine[i]);
    }
  }

  lemma {:induction false} RemovedAbsent(tags: seq<string>, tag: string)
    requires tag !in tags
    ensures Removed(tags, tag) == tags
  {
    if tags != [] {
      RemovedAbsent(tags[1..], tag);
    }
  }

  /** What a job waits for after a response, and when that is nothing */
  lemma PendingReplied(log: seq<Entry>, mine: seq<nat>, tag: string, code: string)
    requires Causal(log) && Window(log) && AllSent(log, mine) && tag != ""
    ensures var next, tags := log + Replied(log, tag, code), Pending(log, mine);
            && Pending(next, mine) == (if tag in tags then Removed(tags, tag) else tags)
            && AllSent(next, mine) && (Pending(next, mine) == [] <==> AllAnswered(next, mine))
  {
    var next := log + Replied(log, tag, code);
    PendingNone(next, mine);
    match Resolve(tag, Sends(log))
    case Some(k) =>
      ReplyStep(log, k, code == "OK");
      PendingReply(log, mine, k, code == "OK");
      if tag !in Pending(log, mine) {
        RemovedAbsent(Pending(log, mine), tag);
      }
    case None =>
      assert next == log;
      PendingStranger(log, mine, tag);
  }

  lemma Welcome(preauth: bool)
    ensures var log := [] + [Greeting(preauth)];
            && Greeted(log) && Causal(log) && Sends(log) == 0 && LatestMailbox(log) == "" && Mailbox(log) == ""
            && Phase(log) == (if preauth then Authenticated else NotAuthenticated)
    ensures forall kind: Kind ::
              TagText(Outstanding([] + [Greeting(preauth)], kind)) == "" == TagText(Outstanding([], kind))
    ensures Sends([]) == 0 && LatestMailbox([]) == "" && Mailbox([]) == "" && !Greeted([])
  {
    var log := [Greeting(preauth)];
    assert [] + [Greeting(preauth)] == log && Init(log) == [] && Last(log) == Greeting(preauth);
    assert OpenMailbox([]) == None && OpenMailbox(log) == None;
    assert !LoggedIn([]) && LoggedIn(log) == preauth;
  }

  lemma Greetings(code: string)
    ensures Greets(code) == if code == "OK" || code == "PREAUTH" then [Greeting(code == "PREAUTH")] else []
  {
  }

  lemma PayloadsNext(first: nat, commands: seq<Command>, i: nat)
    requires i < |commands|
    ensures Payloads(first, commands[..i + 1])
            == Payloads(first, commands[..i]) + [Payload(TagOf(first + i), commands[i].name, commands[i].args)]
  {
    assert commands[..i + 1][..i] == commands[..i];
  }

  lemma PayloadsNone(first: nat, commands: seq<Command>)
    ensures Payloads(first, commands[..0]) == [] && commands[..|commands|] == commands
  {
  }

  lemma Replies(log: seq<Entry>, mine: seq<nat>, tag: string, code: string)
    requires Causal(log) && Window(log) && AllSent(log, mine)
    ensures var next, tags := log + Replied(log, tag, code), Pending(log, mine);
            && Pending(next, mine) == (if tag in tags then Removed(tags, tag) else tags)
            && AllSent(next, mine) && (Pending(next, mine) == [] <==> AllAnswered(next, mine))
            && (tag == "" ==> tag !in tags)
  {
    hide Causal, Window, AllSent, Pending, AllAnswered, Replied;
    if tag != "" {
      PendingReplied(log, mine, tag, code);
    } else {
      BlankReplied(log, code);
      PendingNoBlank(log, mine);
      AllAnsweredNone(log, mine);
    }
  }

  lemma AllAnsweredNone(log: seq<Entry>, mine: seq<nat>)
    ensures Pending(log, mine) == [] <==> AllAnswered(log, mine)
  {
    PendingNone(log, mine);
  }

  /** The queue shortens from its front only. */
  ghost predicate Suffix(a: seq<Queued>, b: seq<Queued>) {
    |a| <= |b| && a == b[|b| - |a|..]
  }

  lemma SuffixSelf(a: seq<Queued>)
    ensures Suffix(a, a)
  {
  }

  lemma SuffixTail(a: seq<Queued>, b: seq<Queued>, c: seq<Queued>)
    requires c != [] && b == c[1..] && Suffix(a, b)
    ensures Suffix(a, c)
  {
  }

  lemma StillWaits(log: seq<Entry>, mine: seq<nat>)
    ensures Pending(log, mine) != [] ==> !AllAnswered(log, mine)
  {
    PendingNone(log, mine);
  }

  lemma Connected(log: seq<Entry>)
    ensures Phase(log) == Disconnected <==> !Greeted(log)
  {
  }

  lemma TagNext(count: nat)
    ensures TagText(Some(count)) == TagOf(count)
  {
  }

  lemma NextCount(count: nat)
    ensures (count % TAGS + 1) % TAGS == (count + 1) % TAGS
  {
  }

  /** A response whose first part is no text, so that it answers every kind that is not awaited, leaves
      the state and the mailbox alone. */
  predicate Ignored(state: State, ok: bool, authTag: string, selectTag: string, closeTag: string,
                    current: string, upcoming: string) {
    match state
    case Disconnected => true
    case NotAuthenticated => ok ==> authTag != ""
    case Authenticated => ok ==> selectTag != ""
    case Selected => if ok then closeTag != "" && (selectTag != "" || upcoming == current) else selectTag != ""
  }

  lemma BlankFirstPart(state: State, ok: bool, authTag: string, selectTag: string, closeTag: string,
                       current: string, upcoming: string)
    ensures Ignored(state, ok, authTag, selectTag, closeTag, current, upcoming) <==>
            NextState(state, ok, "", authTag, selectTag, closeTag) == state
            && NextMailbox(state, ok, "", selectTag, closeTag, current, upcoming) == current
  {
  }

  lemma BlankReplied(log: seq<Entry>, code: string)
    ensures Replied(log, "", code) == [] && log + Replied(log, "", code) == log
  {
  }

  lemma {:induction false} PendingNoBlank(log: seq<Entry>, mine: seq<nat>)
    ensures "" !in Pending(log, mine)
  {
    if mine != [] {
      PendingNoBlank(log, mine[1..]);
    }
  }

  class Session {
    var isSocketConnected: bool
    var state: State
    var jobRunning: bool
    var currentJob: Job?
    var queue: seq<Queued>
    var authTag: string
    var selectTag: string
    var closeTag: string
    var currentMailBox: string
    var upcomingMailBox: string
    var tagCount: nat
    var utf8Enabled: bool

    /** The payloads that were sent */
    var wire: seq<string>

    /** Everything sent and answered on this connection, and the commands of the running job */
    ghost var log: seq<Entry>
    ghost var mine: seq<nat>

    /** The jobs that were added and not destroyed, how many of them reported, and those that started */
    ghost var added: seq<Job>
    ghost var reported: nat
    ghost var started: seq<Job>
    ghost var lost: bool

    /** The fields of the protocol are what the log says. */
    ghost predicate Tracks()
      reads this`state, this`currentMailBox, this`upcomingMailBox, this`tagCount
      reads this`authTag, this`selectTag, this`closeTag, this`log
    {
      && state == Phase(log)
      && currentMailBox == Mailbox(log)
      && upcomingMailBox == LatestMailbox(log)
      && tagCount == Sends(log) % TAGS
      && authTag == TagText(Outstanding(log, Auth))
      && selectTag == TagText(Outstanding(log, Select))
      && closeTag == TagText(Outstanding(log, Close))
      && Causal(log) && (log == [] || Greeted(log))
    }

    /** Every added job reported, runs or waits, in this order; the running one emitted so many results. */
    ghost predicate Ledger(results: nat)
      reads this, added
    {
      && (forall i, j :: 0 <= i < j < |added| ==> added[i] != added[j])
      && |added| == reported + (if currentJob != null then 1 else 0) + |queue|
      && (forall i :: 0 <= i < reported ==> added[i].results == 1)
      && (currentJob != null ==> currentJob == added[reported] && currentJob.results == results)
      && (forall i :: 0 <= i < |queue| ==> queue[i].job == added[|added| - |queue| + i] && Fresh(queue[i].job))
      && (!lost ==> started == added[..|added| - |queue|])
    }

    static ghost predicate Fresh(job: Job)
      reads job
    {
      job.results == 0 && job.tags == [] && !job.failed
    }

    /** The running job waits for the replies to exactly those of its commands that have none. */
    ghost predicate Awaits()
      reads this, added
      requires currentJob != null && currentJob in added
    {
      currentJob.tags == Pending(log, mine) && AllSent(log, mine)
    }

    ghost predicate Connection()
      reads this`isSocketConnected, this`state, this`lost, this`currentMailBox, this`upcomingMailBox, this`tagCount
      reads this`authTag, this`selectTag, this`closeTag, this`log
    {
      if lost then !isSocketConnected && state == Disconnected
      else Tracks() && (state != Disconnected ==> isSocketConnected)
    }

    ghost predicate Valid()
      reads this, added
    {
      && Connection() && Ledger(0)
      && jobRunning == (currentJob != null)
      && (currentJob != null ==> Awaits() && currentJob.tags != [] && state != Disconnected)
      && (state != Disconnected && queue != [] ==> jobRunning)
    }

    constructor ()
      ensures Valid() && !isSocketConnected && log == [] && added == [] && !lost
    {
      isSocketConnected, state, jobRunning, currentJob, queue := false, Disconnected, false, null, [];
      authTag, selectTag, closeTag, currentMailBox, upcomingMailBox := "", "", "", "", "";
      tagCount, utf8Enabled, wire := 0, false, [];
      log, mine, added, reported, started, lost := [], [], [], 0, [], false;
    }

    /** What starting jobs leaves alone */
    twostate predicate Steady()
      reads this
    {
      && isSocketConnected == old(isSocketConnected) && state == old(state) && lost == old(lost)
      && currentMailBox == old(currentMailBox) && utf8Enabled == old(utf8Enabled)
      && added == old(added) && OnlySends(old(log), log) && old(reported) <= reported
      && old(wire) <= wire && Suffix(queue, old(queue))
    }

    method SendCommand(command: string, args: string) returns (tag: string)
      requires Tracks() && state != Disconnected
      modifies this`tagCount, this`authTag, this`selectTag, this`closeTag, this`upcomingMailBox, this`log, this`wire
      ensures Tracks() && tag == TagOf(Sends(old(log))) && Sends(log) == Sends(old(log)) + 1
      ensures wire == old(wire) + [Payload(tag, command, args)]
      ensures log == old(log) + [SentBy(command, args, utf8Enabled)]
      ensures authTag == if command in {"LOGIN", "AUTHENTICATE"} then tag else old(authTag)
      ensures selectTag == if command in {"SELECT", "EXAMINE"} then tag else old(selectTag)
      ensures closeTag == if command == "CLOSE" then tag else old(closeTag)
      ensures upcomingMailBox
           == if command in {"SELECT", "EXAMINE"} then MailboxIn(args, utf8Enabled) else old(upcomingMailBox)
    {
      hide Phase, Mailbox, LatestMailbox, Outstanding, Greeted, Causal, Sends, Decoded, BeforeQuote, TagText, Tag;
      Connected(log);
      NextCount(Sends(log));
      tagCount := (tagCount + 1) % TAGS;
      tag := Tag(tagCount);
      TagNext(Sends(log));
      var payload := tag + " " + command;
      if args != "" {
        payload := payload + (" " + args);
      } else {
        assert payload + "" == payload;
      }
      wire := wire + [payload];
      Remember(tag, command, args);
      ghost var mailbox := if KindOf(command) == Select then upcomingMailBox else "";
      SendStep(log, KindOf(command), mailbox);
      log := log + [Sent(KindOf(command), mailbox)];
    }

    /** Keeps the tag of a command that changes the state, and the mailbox that SELECT names. */
    method Remember(tag: string, command: string, args: string)
      modifies this`authTag, this`selectTag, this`closeTag, this`upcomingMailBox
      ensures authTag == if command in {"LOGIN", "AUTHENTICATE"} then tag else old(authTag)
      ensures selectTag == if command in {"SELECT", "EXAMINE"} then tag else old(selectTag)
      ensures closeTag == if command == "CLOSE" then tag else old(closeTag)
      ensures upcomingMailBox
           == if command in {"SELECT", "EXAMINE"} then MailboxIn(args, utf8Enabled) else old(upcomingMailBox)
    {
      hide Decoded, BeforeQuote;
      match KindOf(command) {
        case Auth =>
          authTag := tag;
        case Select =>
          selectTag := tag;
          upcomingMailBox := if args == "" then "" else args[1..];
          upcomingMailBox := BeforeQuote(upcomingMailBox);
          upcomingMailBox := DecodeImapFolderName(upcomingMailBox, utf8Enabled);
        case Close =>
          closeTag := tag;
        case Plain =>
      }
    }

    /** The running job sends a command, and waits for the reply to it. */
    method SendForJob(command: Command)
      requires currentJob != null && Connection() && Ledger(0) && Awaits() && state != Disconnected
      modifies this`tagCount, this`authTag, this`selectTag, this`closeTag, this`upcomingMailBox, this`log, this`wire
      modifies this`mine, currentJob`tags
      ensures Connection() && Ledger(0) && Awaits()
      ensures log == old(log) + [SentBy(command.name, command.args, utf8Enabled)] && OnlySends(old(log), log)
      ensures Sends(log) == Sends(old(log)) + 1
      ensures wire == old(wire) + [Payload(TagOf(Sends(old(log))), command.name, command.args)]
      ensures currentJob.tags == old(currentJob.tags) + [TagOf(Sends(old(log)))]
      ensures mine == old(mine) + [Sends(old(log))]
      ensures old(Valid()) ==> Valid()
    {
      hide Phase, Mailbox, LatestMailbox, Outstanding, Greeted, TagText, Tag, TagOf, Causal, Sends,
           Pending, AllSent, MailboxIn, KindOf, Session.Tracks;
      Tracked();
      ghost var before := log;
      var tag := SendCommand(command.name, command.args);
      PendingSent(before, log, mine);
      currentJob.tags := currentJob.tags + [tag];
      mine := mine + [Sends(before)];
    }

    /** The wire after the first waiting job has sent its commands */
    ghost function Upcoming(): seq<string>
      reads this
      requires queue != []
    {
      wire + Payloads(Sends(log), queue[0].commands)
    }

    /** The first waiting job is the current one from now on. */
    method Dequeue() returns (commands: seq<Command>)
      requires Ledger(0) && currentJob == null && queue != []
      modifies this`currentJob, this`queue, this`started, this`mine
      ensures Ledger(0) && currentJob == old(queue[0].job) && currentJob in added && Fresh(currentJob) && mine == []
      ensures commands == old(queue[0].commands) && queue == old(queue[1..])
    {
      var next := queue[0];
      currentJob := next.job;
      queue := queue[1..];
      started := started + [next.job];
      mine := [];
      commands := next.commands;
    }

    method DoStartNext()
      requires Connection() && Ledger(0) && jobRunning == (currentJob != null)
      requires isSocketConnected ==> state != Disconnected
      requires currentJob != null ==> Valid()
      modifies this, added
      ensures Valid() && Steady()
      ensures forall i :: 0 <= i < old(reported) ==> unchanged(added[i])
      ensures old(!jobRunning && isSocketConnected && queue != []) ==> old(Upcoming()) <= wire
      ensures (!isSocketConnected || old(jobRunning)) ==> unchanged(this) && forall j :: j in added ==> unchanged(j)
      decreases |queue|, 0
    {
      hide Tracks, Pending, AllSent, OnlySends, Payloads, Sends, Suffix;
      OnlySendsNone(log);
      SuffixSelf(queue);
      if queue == [] || jobRunning || !isSocketConnected {
        return;
      }
      jobRunning := true;
      var commands := Dequeue();
      ghost var rest := queue;
      DoStart(commands);
      SuffixTail(queue, rest, old(queue));
    }

    /** The job that is now running sends its commands; one that has none reports at once. */
    method DoStart(commands: seq<Command>)
      requires Connection() && Ledger(0) && jobRunning && isSocketConnected && state != Disconnected
      requires currentJob != null && Fresh(currentJob) && mine == []
      modifies this, added
      ensures Valid() && Steady() && old(wire) + Payloads(Sends(old(log)), commands) <= wire
      ensures forall i :: 0 <= i < old(reported) ==> unchanged(added[i])
      decreases |queue|, 2
    {
      hide Tracks, Pending, AllSent, OnlySends, Sends, Payloads, Suffix;
      SuffixSelf(queue);
      PayloadsNone(Sends(log), commands);
      SendAll(commands);
      if commands == [] {
        ghost var before := log;
        currentJob.EmitResult();
        JobDone();
        OnlySendsChain(old(log), before, log);
      }
    }

    method SendAll(commands: seq<Command>)
      requires Connection() && Ledger(0) && state != Disconnected && currentJob != null
      requires Fresh(currentJob) && mine == []
      modifies this`tagCount, this`authTag, this`selectTag, this`closeTag, this`upcomingMailBox, this`log, this`wire
      modifies this`mine, currentJob`tags
      ensures Connection() && Ledger(0) && Awaits() && |currentJob.tags| == |commands|
      ensures OnlySends(old(log), log) && wire == old(wire) + Payloads(Sends(old(log)), commands)
    {
      hide Tracks, Pending, AllSent, OnlySends, SentBy, Sends, TagOf, Payloads, Payload;
      OnlySendsNone(log);
      PendingEmpty(log);
      ghost var first := Sends(log);
      PayloadsNone(first, commands);
      var i := 0;
      while i < |commands|
        invariant 0 <= i <= |commands| && OnlySends(old(log), log)
        invariant Connection() && Ledger(0) && Awaits() && |currentJob.tags| == i
        invariant wire == old(wire) + Payloads(first, commands[..i]) && Sends(log) == first + i
      {
        ghost var before := log;
        PayloadsNext(first, commands, i);
        SendForJob(commands[i]);
        OnlySendsChain(old(log), before, log);
        i := i + 1;
      }
    }

    /** A job reported its result. */
    method JobDone()
      requires Connection() && Ledger(1) && currentJob != null
      requires isSocketConnected ==> state != Disconnected
      modifies this, added
      ensures Valid() && Steady() && old(reported) < reported
      ensures forall i :: 0 <= i <= old(reported) ==> unchanged(added[i])
      ensures !isSocketConnected ==>
        currentJob == null && queue == old(queue) && log == old(log) && reported == old(reported) + 1
        && forall j :: j in added ==> unchanged(j)
      decreases |queue|, 1
    {
      hide Tracks, Pending, AllSent, OnlySends, Payloads, Session.Upcoming, Suffix;
      jobRunning := false;
      currentJob := null;
      reported := reported + 1;
      DoStartNext();
    }

    method Enqueue(job: Job, commands: seq<Command>)
      requires Ledger(0) && Fresh(job) && job !in added
      modifies this`queue, this`added
      ensures Ledger(0) && queue == old(queue) + [Queued(job, commands)] && added == old(added) + [job]
    {
      queue := queue + [Queued(job, commands)];
      added := added + [job];
    }

    method AddJob(job: Job, commands: seq<Command>)
      requires Valid() && Fresh(job) && job !in added
      modifies this, added, job
      ensures Valid() && added == old(added) + [job]
      ensures OnlySends(old(log), log) && currentMailBox == old(currentMailBox) && state == old(state)
      ensures isSocketConnected == old(isSocketConnected) && lost == old(lost) && old(reported) <= reported
      ensures forall i :: 0 <= i < old(reported) ==> unchanged(added[i])
      ensures if old(jobRunning) || state == Disconnected
              then queue == old(queue) + [Queued(job, commands)] && wire == old(wire)
              else old(wire) + Payloads(Sends(old(log)), commands) <= wire
    {
      hide Tracks, Pending, AllSent, OnlySends, Payloads, Sends, Suffix;
      OnlySendsNone(log);
      Enqueue(job, commands);
      if state != Disconnected {
        DoStartNext();
      }
    }

    method SocketConnected()
      requires Valid() && !isSocketConnected && !lost
      modifies this`isSocketConnected
      ensures Valid() && isSocketConnected
    {
      isSocketConnected := true;
    }

    lemma Tracked()
      requires Tracks()
      ensures (state == Disconnected <==> !Greeted(log)) && Causal(log) && (log == [] || Greeted(log))
    {
    }

    lemma NoMailbox()
      requires Tracks()
      ensures state == Authenticated ==> currentMailBox == ""
    {
    }

    lemma Believes()
      requires Tracks()
      ensures state == Phase(log)
    {
    }

    /** The greeting of the server starts the protocol. */
    method Greet(preauth: bool)
      requires Connection() && !lost && isSocketConnected && state == Disconnected
      modifies this`state, this`log
      ensures Connection() && state == (if preauth then Authenticated else NotAuthenticated)
      ensures log == old(log) + [Greeting(preauth)] && old(log) == []
    {
      Tracked();
      Welcome(preauth);
      hide Phase, Mailbox, LatestMailbox, Outstanding, Greeted, Causal, Sends, TagText;
      state := if preauth then Authenticated else NotAuthenticated;
      log := log + [Greeting(preauth)];
    }

    /** The state after the reply with this tag, and the tags that are still awaited. With no text for a
        tag, the comparisons are the same, but the log says nothing. */
    method UpdateState(tag: string, code: string)
      requires Tracks() && state != Disconnected && Window(log)
      modifies this`state, this`currentMailBox, this`authTag, this`selectTag, this`closeTag, this`log
      ensures state == NextState(old(state), code == "OK", tag, old(authTag), old(selectTag), old(closeTag))
      ensures currentMailBox == NextMailbox(old(state), code == "OK", tag, old(selectTag), old(closeTag),
                                            old(currentMailBox), upcomingMailBox)
      ensures state != Disconnected && log == old(log) + Replied(old(log), tag, code)
      ensures Tracks() <==> tag != "" || old(Ignored(state, code == "OK", authTag, selectTag, closeTag,
                                                     currentMailBox, upcomingMailBox))
    {
      hide Phase, Mailbox, LatestMailbox, Outstanding, Greeted, Causal, Sends, TagText, Window, Replied;
      Connected(log);
      match state {
        case Disconnected =>
        case NotAuthenticated =>
          if code == "OK" && tag == authTag {
            state := Authenticated;
          }
        case Authenticated =>
          if code == "OK" && tag == selectTag {
            state := Selected;
            currentMailBox := upcomingMailBox;
          }
        case Selected =>
          if (code == "OK" && tag == closeTag) || (code != "OK" && tag == selectTag) {
            state := Authenticated;
            currentMailBox := "";
          } else if code == "OK" && tag == selectTag {
            currentMailBox := upcomingMailBox;
          }
      }
      assert state == NextState(old(state), code == "OK", tag, old(authTag), old(selectTag), old(closeTag));
      Forget(tag);
      hide NextState, NextMailbox, Cleared;
      if tag != "" {
        ReplyFollowed(log, tag, code);
      } else {
        BlankReplied(log, code);
        BlankFirstPart(old(state), code == "OK", old(authTag), old(selectTag), old(closeTag),
                       old(currentMailBox), upcomingMailBox);
        hide Ignored;
      }
      log := log + Replied(log, tag, code);
    }

    /** The response leaves the state and the mailbox alone, if its first part is no text. */
    predicate Ignores(content: Content)
      reads this
    {
      Ignored(state, Code(content) == "OK", authTag, selectTag, closeTag, currentMailBox, upcomingMailBox)
    }

    /** The state that comparing the tag with those awaited leads to */
    function Next(content: Content): State
      reads this
    {
      NextState(state, Code(content) == "OK", Tagged(content), authTag, selectTag, closeTag)
    }

    /** A tag that is answered is awaited no longer. */
    method Forget(tag: string)
      modifies this`authTag, this`selectTag, this`closeTag
      ensures authTag == Cleared(old(authTag), tag) && selectTag == Cleared(old(selectTag), tag)
      ensures closeTag == Cleared(old(closeTag), tag)
    {
      if tag == authTag {
        authTag := "";
      }
      if tag == selectTag {
        selectTag := "";
      }
      if tag == closeTag {
        closeTag := "";
      }
    }

    /** Remembers that the server accepted UTF8=ACCEPT. */
    method TrackEnabled(content: Content)
      modifies this`utf8Enabled
      ensures utf8Enabled == (old(utf8Enabled) || Utf8Accepted(content))
    {
      if Tagged(content) == "*" && Code(content) == "ENABLED" {
        var i := 2;
        while i < |content|
          invariant 2 <= i && |content| >= 2
          invariant utf8Enabled == (old(utf8Enabled) || exists k :: 2 <= k < i && k < |content| && Accepts(content[k]))
        {
          if Accepts(content[i]) {
            utf8Enabled := true;
          }
          i := i + 1;
        }
      }
    }

    /** The running job gets the response. */
    method Forward(ghost before: seq<Entry>, content: Content)
      requires Ledger(0) && jobRunning == (currentJob != null) && state != Disconnected
      requires isSocketConnected && !lost && (queue != [] ==> jobRunning)
      requires Tagged(content) == "" || Tracks()
      requires Causal(before) && Window(before)
      requires log == before + Replied(before, Tagged(content), Code(content))
      requires currentJob != null ==>
        currentJob.tags == Pending(before, mine) && AllSent(before, mine) && currentJob.tags != []
      modifies this, added
      ensures Steady() && (Valid() <==> Tagged(content) != "" || old(Tracks()))
      ensures forall i :: 0 <= i < old(reported) ==> unchanged(added[i])
      ensures old(currentJob) != null ==> (old(currentJob).results == 1 <==> AllAnswered(log, old(mine)))
      ensures old(currentJob) != null ==>
        old(currentJob).failed == (old(currentJob.failed) || Fails(content, old(currentJob.tags)))
      ensures old(currentJob) != null && !Answers(content, old(currentJob.tags)) ==>
        currentJob == old(currentJob) && currentJob.tags == old(currentJob.tags) && mine == old(mine) && log == old(log)
    {
      hide Tracks, Pending, AllSent, OnlySends, Window, Causal, Replied, Suffix;
      OnlySendsNone(log);
      SuffixSelf(queue);
      if currentJob != null {
        Replies(before, mine, Tagged(content), Code(content));
        ghost var job, commands := currentJob, mine;
        var handled := currentJob.HandleErrorReplies(content);
        if handled && currentJob.tags == [] {
          ghost var middle := log;
          JobDone();
          AllAnsweredKeeps(middle, log, commands);
        }
      }
    }

    /** The first response; anything but a greeting makes the session close the connection. */
    method FirstResponse(code: string) returns (close: bool)
      requires Valid() && isSocketConnected && !lost && state == Disconnected && code != "BYE"
      modifies this, added
      ensures Valid() && isSocketConnected && !lost && added == old(added) && utf8Enabled == old(utf8Enabled)
      ensures close <==> code !in ["OK", "PREAUTH"]
      ensures state == if code == "OK" then NotAuthenticated
                       else if code == "PREAUTH" then Authenticated else Disconnected
      ensures OnlySends(old(log) + Greets(code), log)
      ensures forall i :: 0 <= i < old(reported) ==> unchanged(added[i])
    {
      hide Pending, AllSent, OnlySends, Tracks, Greets, Phase, Greeted, Payloads, Session.Upcoming, Suffix;
      Tracked();
      Greetings(code);
      OnlySendsNone(log + Greets(code));
      close := false;
      if code == "OK" || code == "PREAUTH" {
        Greet(code == "PREAUTH");
        assert log == old(log) + Greets(code);
        DoStartNext();
      } else {
        assert log + [] == log;
        close := true;
      }
    }

    method ResponseReceived(content: Content) returns (close: bool)
      requires Valid() && isSocketConnected && !lost && Window(log)
      modifies this, added
      ensures Valid() <==> Tagged(content) != "" || Code(content) == "BYE" || old(Ignores(content))
      ensures old(state) != Disconnected && Code(content) != "BYE" ==> state == old(Next(content))
      ensures old(state) == Disconnected ==>
        state == if Code(content) == "OK" then NotAuthenticated
                 else if Code(content) == "PREAUTH" then Authenticated else Disconnected
      ensures isSocketConnected && !lost && added == old(added)
      ensures OnlySends(old(log) + Recorded(old(log), content), log)
      ensures close <==> old(state) == Disconnected && Code(content) !in ["OK", "PREAUTH", "BYE"]
      ensures forall i :: 0 <= i < old(reported) ==> unchanged(added[i])
      ensures old(currentJob) != null ==> (old(currentJob).results == 1 <==> AllAnswered(log, old(mine)))
      ensures old(currentJob) != null ==>
        old(currentJob).failed
        == (old(currentJob.failed) || (Code(content) != "BYE" && Fails(content, old(currentJob.tags))))
      ensures old(currentJob) != null && (Code(content) == "BYE" || !Answers(content, old(currentJob.tags))) ==>
        currentJob == old(currentJob) && currentJob.tags == old(currentJob.tags) && mine == old(mine)
        && log == old(log) + Recorded(old(log), content)
      ensures utf8Enabled == (old(utf8Enabled) || (old(state) != Disconnected && Utf8Accepted(content)))
    {
      hide Tracks, Phase, Pending, AllSent, OnlySends, Window, Causal, Replied, Greeted,
           NextState, AllAnswered, Greets, Tag, TagOf, Sends;
      close := false;
      var tag, code := Tagged(content), Code(content);
      Tracked();
      OnlySendsNone(log);
      StillWaits(log, mine);
      assert log + [] == log;
      if code == "BYE" {
        return;
      }
      if state == Disconnected {
        close := FirstResponse(code);
        return;
      }
      Reply(content);
    }

    /** A response on a greeted connection: the state first, then the job */
    method Reply(content: Content)
      requires Valid() && isSocketConnected && !lost && state != Disconnected && Window(log)
      modifies this, added
      ensures Valid() <==> Tagged(content) != "" || old(Ignores(content))
      ensures state == old(Next(content))
      ensures isSocketConnected && !lost && added == old(added)
      ensures OnlySends(old(log) + Replied(old(log), Tagged(content), Code(content)), log)
      ensures forall i :: 0 <= i < old(reported) ==> unchanged(added[i])
      ensures old(currentJob) != null ==> (old(currentJob).results == 1 <==> AllAnswered(log, old(mine)))
      ensures old(currentJob) != null ==>
        old(currentJob).failed == (old(currentJob.failed) || Fails(content, old(currentJob.tags)))
      ensures old(currentJob) != null && !Answers(content, old(currentJob.tags)) ==>
        currentJob == old(currentJob) && currentJob.tags == old(currentJob.tags) && mine == old(mine)
        && log == old(log) + Replied(old(log), Tagged(content), Code(content))
      ensures utf8Enabled == (old(utf8Enabled) || Utf8Accepted(content))
    {
      hide Tracks, Pending, AllSent, OnlySends, Window, Causal, Replied, NextState, AllAnswered,
           Tagged, Code, Utf8Accepted, Fails, Answers, Ignored, NextMailbox;
      Tracked();
      ghost var before := log;
      UpdateState(Tagged(content), Code(content));
      TrackEnabled(content);
      Forward(before, content);
    }

    /** The connection was lost while this job ran, or while it was the first to wait. */
    method FailCurrent()
      requires lost && Connection() && Ledger(0) && currentJob != null
      modifies this, added
      ensures Valid() && lost && !isSocketConnected && state == Disconnected
      ensures queue == old(queue) && currentJob == null && log == old(log)
      ensures added == old(added) && reported == old(reported) + 1
      ensures old(currentJob).failed && old(currentJob).results == 1
      ensures forall j :: j in added && j != old(currentJob) ==> unchanged(j)
    {
      hide Tracks, Pending, AllSent, OnlySends;
      currentJob.ConnectionLost();
      JobDone();
    }

    /** Fails the running job, or else the first waiting one, and destroys all the others that wait. */
    method ClearJobQueue() returns (ghost destroyed: seq<Job>)
      requires lost && !isSocketConnected && state == Disconnected
      requires Connection() && Ledger(0) && (jobRunning ==> currentJob != null)
      modifies this, added
      ensures Valid() && lost && !isSocketConnected && queue == [] && currentJob == null && log == old(log)
      ensures added == old(added[..reported]) + old(First()) && old(added) == added + destroyed
      ensures forall j :: j in old(First()) ==> j.failed && j.results == 1
      ensures forall j :: j in old(added) && j !in old(First()) ==> unchanged(j)
    {
      hide Connection, Pending, AllSent, OnlySends;
      if currentJob != null {
        FailCurrent();
      } else if queue != [] {
        currentJob := queue[0].job;
        queue := queue[1..];
        FailCurrent();
      }
      destroyed := DestroyWaiting();
    }

    /** The jobs that still wait are deleted, without a result. */
    method DestroyWaiting() returns (ghost destroyed: seq<Job>)
      requires Valid() && lost && currentJob == null
      modifies this`queue, this`added
      ensures Valid() && queue == [] && added == old(added[..reported]) && destroyed == old(added[reported..])
    {
      hide Tracks;
      queue := [];
      destroyed := added[reported..];
      added := added[..reported];
    }

    /** The job that a disconnect fails: the running one, or else the first in the queue */
    ghost function First(): seq<Job>
      reads this
    {
      if currentJob != null then [currentJob]
      else if queue != [] then [queue[0].job]
      else []
    }

    method SocketDisconnected() returns (ghost destroyed: seq<Job>)
      requires Valid()
      modifies this, added
      ensures Valid() && lost && state == Disconnected && !isSocketConnected && queue == [] && currentJob == null
      ensures added == old(added[..reported]) + old(First()) && old(added) == added + destroyed
      ensures forall j :: j in old(First()) ==> j.failed && j.results == 1
      ensures forall j :: j in old(added) && j !in old(First()) ==> unchanged(j)
    {
      if isSocketConnected {
        state := Disconnected;
      }
      isSocketConnected := false;
      lost := true;
      destroyed := ClearJobQueue();
    }

    /** Without a connection, an error fails the first job. With one, the session closes it, and nothing
        else changes; but between connection and greeting the first job leaves the queue without
        running, and exactly then the session is no longer in order. */
    method SocketError() returns (close: bool, ghost destroyed: seq<Job>)
      requires Valid()
      modifies this, added
      ensures Valid() <==> !(old(isSocketConnected) && old(state) == Disconnected && old(queue) != [])
      ensures close == old(isSocketConnected)
      ensures close && (old(state) != Disconnected || old(queue) == []) ==>
        unchanged(this) && forall j :: j in added ==> unchanged(j)
      ensures !close ==>
        && lost && queue == [] && currentJob == null
        && added == old(added[..reported]) + old(First()) && old(added) == added + destroyed
        && (forall j :: j in old(First()) ==> j.failed && j.results == 1)
        && (forall j :: j in old(added) && j !in old(First()) ==> unchanged(j))
    {
      hide Tracks, Pending, AllSent;
      destroyed := [];
      if currentJob == null && queue != [] {
        currentJob := queue[0].job;
        queue := queue[1..];
      }
      close := isSocketConnected;
      if !close {
        lost := true;
        destroyed := ClearJobQueue();
      }
    }
  }

  /** A refusal whose first part is a list, once nothing is awaited, makes the session believe that no
      mailbox is selected, against everything the server said. */
  method BlankRefusal(s: Session)
    requires s.Valid() && s.isSocketConnected && !s.lost && Window(s.log)
    requires s.state == Selected && s.selectTag == ""
    modifies s, s.added
    ensures s.state == Authenticated && Phase(s.log) == Selected
  {
    s.Believes();
    hide Pending, AllSent, OnlySends, Window, Causal, Replied, Utf8Accepted, Session.Tracks, Phase;
    var content := [List(["x"]), Str("NO")];
    assert Tagged(content) == "" && Code(content) == "NO";
    s.Tracked();
    BlankReplied(s.log, "NO");
    var close := s.ResponseReceived(content);
    OnlySendsPhase(old(s.log), s.log);
  }

  // ---------------------------------------------------------------- What goes over the wire

  /** The tag of the first command, a command with and without arguments, and the parts of a reply */
  lemma WireForms(args: string, more: Content)
    ensures TagOf(0) == "A000001"
    ensures Payload("A000001", "LOGIN", "u p") == "A000001 LOGIN u p"
    ensures Payload("A000002", "NOOP", "") == "A000002 NOOP"
    ensures var reply := [Str("A000001"), Str("OK")] + more;
            Tagged(reply) == "A000001" && Code(reply) == "OK" && Tagged([List([])]) == ""
  {
    assert Decimal(1) == "1";
    assert Padded("1") == Padded("01") == Padded("001") == Padded("0001") == Padded("00001") == "000001" by {
      assert "0" + "1" == "01" && "0" + "01" == "001" && "0" + "001" == "0001";
      assert "0" + "0001" == "00001" && "0" + "00001" == "000001";
    }
    assert "A" + "000001" == "A000001";
    assert "A000001" + " " + "LOGIN" + (" " + "u p") == "A000001 LOGIN u p";
    assert "A000002" + " " + "NOOP" + "" == "A000002 NOOP";
  }

  /** UTF8=ACCEPT is found among the capabilities that are enabled, in any case of letters. */
  lemma Utf8Enabled(before: Content, after: Content)
    ensures var start := [Str("*"), Str("ENABLED")];
            && Utf8Accepted(start + before + [Str("Utf8=Accept")] + after)
            && !Utf8Accepted(start + [Str("UTF8=ONLY")]) && !Utf8Accepted([Str("*"), Str("OK"), Str("UTF8=ACCEPT")])
  {
    var content := [Str("*"), Str("ENABLED")] + before + [Str("Utf8=Accept")] + after;
    AcceptedNames();
    assert content[0] == Str("*") && content[1] == Str("ENABLED") && content[2 + |before|] == Str("Utf8=Accept");
    var other := [Str("*"), Str("ENABLED")] + [Str("UTF8=ONLY")];
    assert |other| == 3 && other[2] == Str("UTF8=ONLY");
  }

  lemma AcceptedNames()
    ensures Accepts(Str("Utf8=Accept")) && Accepts(Str("UTF8=ACCEPT")) && !Accepts(Str("UTF8=ONLY"))
  {
    assert ToUpper("Utf8=Accept") == "UTF8=ACCEPT" && ToUpper("UTF8=ACCEPT") == "UTF8=ACCEPT";
    assert |ToUpper("UTF8=ONLY")| == 9;
  }

  // ---------------------------------------------------------------- Commands and their effect, by name

  /** One more command fits among those that tags tell apart. */
  predicate Roomy(log: seq<Entry>) {
    forall k: nat :: k < Sends(log) && !Answered(log, k) ==> Sends(log) < k + TAGS
  }

  lemma RoomFor(log: seq<Entry>, e: Entry)
    requires Roomy(log) && e.Sent?
    ensures Window(log + [e])
  {
    Snoc(log, e);
    forall k: nat | k < Sends(log + [e]) && !Answered(log + [e], k)
      ensures Sends(log + [e]) <= k + TAGS
    {
      assert Sends(log + [e]) == Sends(log) + 1;
      assert Answered(log + [e], k) <==> Answered(log, k);
    }
  }

  /** A command is sent, and the next reply is the one to it. */
  method Answer(s: Session, command: string, args: string, code: string)
    requires s.Tracks() && s.state != Disconnected && Roomy(s.log)
    modifies s
    ensures s.Tracks()
    ensures command in {"LOGIN", "AUTHENTICATE"} && code == "OK" && old(s.state) == NotAuthenticated ==>
      s.state == Authenticated
    ensures command in {"SELECT", "EXAMINE"} && old(s.state) in {Authenticated, Selected} ==>
      if code == "OK" then s.state == Selected && s.currentMailBox == MailboxIn(args, s.utf8Enabled)
      else s.state == Authenticated && s.currentMailBox == ""
    ensures command == "CLOSE" && code == "OK" && old(s.state) == Selected ==>
      s.state == Authenticated && s.currentMailBox == ""
    ensures old(s.state) == NotAuthenticated && (command !in {"LOGIN", "AUTHENTICATE"} || code != "OK") ==>
      s.state == NotAuthenticated && s.currentMailBox == old(s.currentMailBox)
    ensures command !in {"SELECT", "EXAMINE", "CLOSE"} && old(s.state) in {Authenticated, Selected} ==>
      s.state == old(s.state) && s.currentMailBox == old(s.currentMailBox)
    ensures command == "CLOSE" && old(s.state) != NotAuthenticated
            && (code != "OK" || old(s.state) == Authenticated) ==>
      s.state == old(s.state) && s.currentMailBox == old(s.currentMailBox)
  {
    hide Session.Tracks, Window, Roomy, Causal, Sends, Phase, Replied, MailboxIn, TagOf;
    ghost var before := s.log;
    NewTag(s);
    s.NoMailbox();
    var tag := s.SendCommand(command, args);
    RoomFor(before, s.log[|s.log| - 1]);
    s.UpdateState(tag, code);
  }

  /** The next tag is none of those awaited. */
  lemma NewTag(s: Session)
    requires s.Tracks() && Roomy(s.log)
    ensures var tag := TagOf(Sends(s.log)); tag != "" && tag != s.authTag && tag != s.selectTag && tag != s.closeTag
  {
    KindNewTag(s.log, Auth);
    KindNewTag(s.log, Select);
    KindNewTag(s.log, Close);
    hide Outstanding, Phase, Mailbox, LatestMailbox, Roomy, Causal, Tag;
    TagNext(Sends(s.log));
  }

  lemma KindNewTag(log: seq<Entry>, kind: Kind)
    requires Roomy(log)
    ensures TagText(Outstanding(log, kind)) != TagOf(Sends(log)) && TagOf(Sends(log)) != ""
  {
    if Outstanding(log, kind).Some? {
      var k, count := Outstanding(log, kind).value, Sends(log);
      assert !Answered(log, k) && k < count;
      Distinct(k + 1, count + 1);
      if TagOf(k) == TagOf(count) {
        TagInjective((k + 1) % TAGS, (count + 1) % TAGS);
      }
    }
  }
}
