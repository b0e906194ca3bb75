/** The IDLE job: collects EXISTS and RECENT counts and reports them on a timer, on a second count
    of the same kind, when both are known, and before its result. */
module IdleStats {
  import opened Bits
  import opened Decimals
  import opened Jobs

  /** A report; a count below zero stands for none */
  datatype Stats = Stats(messages: int, recent: int)

  datatype Event = Exists(count: int) | Recent(count: int) | Other | Continuation

  function Interpret(content: Content): Event {
    if content != [] && content[0].ToString() == "+" then Continuation
    else if |content| > 2 && content[2].ToString() == "EXISTS" then Exists(ToInt(content[1].ToString()))
    else if |content| > 2 && content[2].ToString() == "RECENT" then Recent(ToInt(content[1].ToString()))
    else Other
  }

  // ---------------------------------------------------------------- What should be reported

  /** The EXISTS counts the server sent, in order, without negative ones */
  function ExistsCounts(events: seq<Event>): seq<int> {
    if events == [] then []
    else (if events[0].Exists? && events[0].count >= 0 then [events[0].count] else []) + ExistsCounts(events[1..])
  }

  function RecentCounts(events: seq<Event>): seq<int> {
    if events == [] then []
    else (if events[0].Recent? && events[0].count >= 0 then [events[0].count] else []) + RecentCounts(events[1..])
  }

  function One(count: int): seq<int> {
    if count >= 0 then [count] else []
  }

  function ReportedMessages(reports: seq<Stats>): seq<int> {
    if reports == [] then [] else One(reports[0].messages) + ReportedMessages(reports[1..])
  }

  function ReportedRecent(reports: seq<Stats>): seq<int> {
    if reports == [] then [] else One(reports[0].recent) + ReportedRecent(reports[1..])
  }

  /** Every report tells at least one count. */
  predicate Telling(reports: seq<Stats>) {
    forall i :: 0 <= i < |reports| ==> reports[i].messages >= 0 || reports[i].recent >= 0
  }

  lemma {:induction false} CountsSnoc(events: seq<Event>, e: Event)
    ensures ExistsCounts(events + [e]) == ExistsCounts(events) + (if e.Exists? then One(e.count) else [])
    ensures RecentCounts(events + [e]) == RecentCounts(events) + (if e.Recent? then One(e.count) else [])
  {
    var all := events + [e];
    if events == [] {
      assert all[0] == e && all[1..] == [];
      assert ExistsCounts([]) == [] && RecentCounts([]) == [];
    } else {
      assert all[0] == events[0] && all[1..] == events[1..] + [e];
      CountsSnoc(events[1..], e);
      var x, y := if e.Exists? then One(e.count) else [], if e.Recent? then One(e.count) else [];
      Associative(if events[0].Exists? then One(events[0].count) else [], ExistsCounts(events[1..]), x);
      Associative(if events[0].Recent? then One(events[0].count) else [], RecentCounts(events[1..]), y);
    }
  }

  lemma {:induction false} ReportedSnoc(reports: seq<Stats>, r: Stats)
    ensures ReportedMessages(reports + [r]) == ReportedMessages(reports) + One(r.messages)
    ensures ReportedRecent(reports + [r]) == ReportedRecent(reports) + One(r.recent)
  {
    var all := reports + [r];
    if reports == [] {
      assert all[0] == r && all[1..] == [];
      assert ReportedMessages([]) == [] && ReportedRecent([]) == [];
    } else {
      assert all[0] == reports[0] && all[1..] == reports[1..] + [r];
      ReportedSnoc(reports[1..], r);
      Associative(One(reports[0].messages), ReportedMessages(reports[1..]), One(r.messages));
      Associative(One(reports[0].recent), ReportedRecent(reports[1..]), One(r.recent));
    }
  }

  lemma AddReport(reports: seq<Stats>, messages: int, recent: int)
    ensures var r := reports + [Stats(messages, recent)];
      && ReportedMessages(r) + One(-1) == ReportedMessages(reports) + One(messages)
      && ReportedRecent(r) + One(-1) == ReportedRecent(reports) + One(recent)
  {
    hide ReportedMessages, ReportedRecent;
    var r := reports + [Stats(messages, recent)];
    ReportedSnoc(reports, Stats(messages, recent));
    assert ReportedMessages(r) + [] == ReportedMessages(r);
    assert ReportedRecent(r) + [] == ReportedRecent(r);
  }

  // ---------------------------------------------------------------- The job

  class IdleJob {
    const job: Job
    var messageCount: int
    var recentCount: int
    var lastMessageCount: int
    var lastRecentCount: int
    var timerActive: bool
    ghost var events: seq<Event>
    ghost var reports: seq<Stats>

    /** What is reported and what is pending make up the counts received; the timer runs exactly while
        something is pending. */
    ghost predicate Valid()
      reads this
    {
      && ReportedMessages(reports) + One(messageCount) == ExistsCounts(events)
      && ReportedRecent(reports) + One(recentCount) == RecentCounts(events)
      && Telling(reports)
      && (timerActive <==> messageCount >= 0 || recentCount >= 0)
    }

    constructor (job: Job)
      ensures Valid() && this.job == job && events == [] && reports == []
    {
      this.job := job;
      messageCount, recentCount, lastMessageCount, lastRecentCount := -1, -1, -1, -1;
      timerActive := false;
      events, reports := [], [];
    }

    method EmitStats()
      requires Valid() && (messageCount >= 0 || recentCount >= 0)
      modifies this
      ensures Valid() && events == old(events) && !timerActive
      ensures messageCount == -1 && recentCount == -1
      ensures reports == old(reports) + [Stats(old(messageCount), old(recentCount))]
      ensures lastMessageCount == old(messageCount) && lastRecentCount == old(recentCount)
    {
      hide ReportedMessages, ReportedRecent, ExistsCounts, RecentCounts, One;
      timerActive := false;
      AddReport(reports, messageCount, recentCount);
      reports := reports + [Stats(messageCount, recentCount)];
      lastMessageCount := messageCount;
      lastRecentCount := recentCount;
      messageCount := -1;
      recentCount := -1;
    }

    /** The 200 ms timer fires. */
    method Tick()
      requires Valid() && timerActive
      modifies this
      ensures Valid() && events == old(events) && !timerActive && old(reports) <= reports
    {
      EmitStats();
    }

    method HandleResponse(content: Content)
      requires Valid() && |job.tags| == 1
      modifies this, job
      ensures Valid() && old(reports) <= reports
      ensures events == old(events) + (if Answers(content, old(job.tags)) then [] else [Interpret(content)])
      ensures Answers(content, old(job.tags)) ==> messageCount < 0 && recentCount < 0
      ensures job.tags == if Answers(content, old(job.tags)) then [] else old(job.tags)
    {
      if content != [] && |job.tags| == 1 && content[0].ToString() in job.tags
         && (messageCount >= 0 || recentCount >= 0) {
        EmitStats();
      }
      assert content != [] ==> job.tags[1..] == [];
      var handled := job.HandleErrorReplies(content);
      if !handled {
        HandleUntagged(Interpret(content));
      }
    }

    method HandleUntagged(e: Event)
      requires Valid()
      modifies this
      ensures Valid() && events == old(events) + [e] && old(reports) <= reports
    {
      CountsSnoc(events, e);
      if e.Continuation? {
        events := events + [e];
        return;
      }
      if e.Exists? {
        if messageCount >= 0 {
          EmitStats();
        }
        messageCount := e.count;
      } else if e.Recent? {
        if recentCount >= 0 {
          EmitStats();
        }
        recentCount := e.count;
      }
      events := events + [e];
      if messageCount >= 0 && recentCount >= 0 {
        EmitStats();
      } else if messageCount >= 0 || recentCount >= 0 {
        timerActive := true;
      }
    }
  }

  // ---------------------------------------------------------------- Whole runs

  datatype Step = Response(content: Content) | TimerTick

  function EventsOf(steps: seq<Step>): seq<Event> {
    if steps == [] then []
    else (if steps[0].TimerTick? then [] else [Interpret(steps[0].content)]) + EventsOf(steps[1..])
  }

  /** However the timer fires among the responses, a run that ends in its tagged reply reports every
      count received exactly once and in order. A tick without a running timer does nothing. */
  method Run(idle: IdleJob, steps: seq<Step>, reply: Content)
    requires idle.Valid() && idle.events == [] && |idle.job.tags| == 1 && Answers(reply, idle.job.tags)
    requires forall i :: 0 <= i < |steps| && steps[i].Response? ==> !Answers(steps[i].content, idle.job.tags)
    modifies idle, idle.job
    ensures ReportedMessages(idle.reports) == ExistsCounts(EventsOf(steps))
    ensures ReportedRecent(idle.reports) == RecentCounts(EventsOf(steps))
    ensures Telling(idle.reports)
  {
    assert steps[0..] == steps;
    for i := 0 to |steps|
      invariant idle.Valid() && idle.job.tags == old(idle.job.tags)
      invariant idle.events + EventsOf(steps[i..]) == EventsOf(steps)
    {
      ghost var before := idle.events;
      assert steps[i..][1..] == steps[i + 1..];
      if steps[i].Response? {
        idle.HandleResponse(steps[i].content);
        Associative(before, [Interpret(steps[i].content)], EventsOf(steps[i + 1..]));
      } else {
        assert [] + EventsOf(steps[i + 1..]) == EventsOf(steps[i + 1..]);
        if idle.timerActive {
          idle.Tick();
        }
      }
    }
    ghost var all := idle.events;
    assert steps[|steps|..] == [] && all + [] == all;
    idle.HandleResponse(reply);
    assert idle.events == all + [] == all;
    assert ReportedMessages(idle.reports) + [] == ReportedMessages(idle.reports);
    assert ReportedRecent(idle.reports) + [] == ReportedRecent(idle.reports);
  }

  // ---------------------------------------------------------------- What the server says

  /** A line from the server: a count, the continuation, or anything else that has a number and a name */
  datatype Line =
    | MessagesLine(count: int)
    | RecentLine(count: int)
    | ContinuationLine(text: string)
    | OtherLine(text: string, name: string)

  function LineContent(line: Line): Content {
    match line
    case MessagesLine(count) => [Str("*"), Str(Number(count)), Str("EXISTS")]
    case RecentLine(count) => [Str("*"), Str(Number(count)), Str("RECENT")]
    case ContinuationLine(text) => [Str("+"), Str(text)]
    case OtherLine(text, name) => [Str("*"), Str(text), Str(name)]
  }

  predicate Proper(line: Line) {
    line.OtherLine? ==> line.name != "EXISTS" && line.name != "RECENT"
  }

  /** A count of 31 bits is understood; any other number is taken for 0. */
  function Heard(count: int): int {
    if -0x8000_0000 <= count <= 0x7FFF_FFFF then count else 0
  }

  lemma NumberHeard(count: int)
    ensures ToInt(Number(count)) == Heard(count)
  {
    if INT64_MIN <= count <= INT64_MAX {
      NumberRoundTrip(count);
    } else {
      DecimalValue(if count < 0 then -count else count);
      assert count < 0 ==> Number(count)[1..] == Decimal(-count);
      assert count >= 0 ==> IsDigit(Number(count)[0]);
      assert ToLongLong(Number(count)) == None;
    }
  }

  /** What a line is to the job */
  lemma LineMeans(line: Line)
    requires Proper(line)
    ensures Interpret(LineContent(line)) ==
              match line
              case MessagesLine(count) => Exists(Heard(count))
              case RecentLine(count) => Recent(Heard(count))
              case ContinuationLine(_) => Continuation
              case OtherLine(_, _) => Other
  {
    hide ToInt, Number, Heard;
    if line.MessagesLine? || line.RecentLine? {
      NumberHeard(line.count);
    }
  }

  /** A text that is no number counts as 0, and less than three parts count for nothing. */
  lemma NoCount(text: string, content: Content)
    requires ToLongLong(text) == None && |content| <= 2
    ensures Interpret([Str("*"), Str(text), Str("EXISTS")]) == Exists(0)
    ensures Interpret([Str("*"), Str(text), Str("RECENT")]) == Recent(0)
    ensures Interpret(content).Other? || Interpret(content).Continuation?
  {
  }

  /** A line, or the timer */
  datatype LineStep = Said(line: Line) | Fired

  function StepsOf(steps: seq<LineStep>): (r: seq<Step>)
    ensures |r| == |steps|
    ensures forall i :: 0 <= i < |r| ==>
              r[i] == if steps[i].Said? then Response(LineContent(steps[i].line)) else TimerTick
  {
    if steps == [] then []
    else [if steps[0].Said? then Response(LineContent(steps[0].line)) else TimerTick] + StepsOf(steps[1..])
  }

  /** The message counts that the server named, in order; negative ones are none */
  function MessageCounts(steps: seq<LineStep>): seq<int> {
    if steps == [] then []
    else
      (if steps[0].Said? && steps[0].line.MessagesLine? then One(Heard(steps[0].line.count)) else [])
      + MessageCounts(steps[1..])
  }

  function RecentOnes(steps: seq<LineStep>): seq<int> {
    if steps == [] then []
    else
      (if steps[0].Said? && steps[0].line.RecentLine? then One(Heard(steps[0].line.count)) else [])
      + RecentOnes(steps[1..])
  }

  predicate AllProper(steps: seq<LineStep>) {
    forall i :: 0 <= i < |steps| && steps[i].Said? ==> Proper(steps[i].line)
  }

  lemma {:induction false} CountsHeard(steps: seq<LineStep>)
    requires AllProper(steps)
    ensures ExistsCounts(EventsOf(StepsOf(steps))) == MessageCounts(steps)
    ensures RecentCounts(EventsOf(StepsOf(steps))) == RecentOnes(steps)
  {
    if steps != [] {
      CountsHeard(steps[1..]);
      var rest := EventsOf(StepsOf(steps[1..]));
      FirstStep(steps);
      hide Interpret, StepsOf, LineContent, Heard;
      if steps[0].Said? {
        LineMeans(steps[0].line);
        var e := Interpret(LineContent(steps[0].line));
        assert ([e] + rest)[0] == e && ([e] + rest)[1..] == rest;
      } else {
        assert [] + rest == rest;
        assert [] + MessageCounts(steps[1..]) == MessageCounts(steps[1..]);
        assert [] + RecentOnes(steps[1..]) == RecentOnes(steps[1..]);
      }
    }
  }

  lemma FirstStep(steps: seq<LineStep>)
    requires steps != []
    ensures EventsOf(StepsOf(steps))
         == (if steps[0].Said? then [Interpret(LineContent(steps[0].line))] else []) + EventsOf(StepsOf(steps[1..]))
  {
    hide Interpret, LineContent;
    assert StepsOf(steps)[1..] == StepsOf(steps[1..]);
  }

  /** However the timer fires among the lines of the server, every count that it names is reported once,
      in order, the messages as messages and the recent ones as recent, before the result. */
  method RunLines(idle: IdleJob, steps: seq<LineStep>, tag: string, code: string)
    requires idle.Valid() && idle.events == [] && idle.job.tags == [tag] && tag != "*" && tag != "+"
    requires AllProper(steps)
    modifies idle, idle.job
    ensures ReportedMessages(idle.reports) == MessageCounts(steps)
    ensures ReportedRecent(idle.reports) == RecentOnes(steps)
    ensures Telling(idle.reports)
  {
    CountsHeard(steps);
    forall i | 0 <= i < |steps| && steps[i].Said?
      ensures !Answers(LineContent(steps[i].line), [tag])
    {
    }
    Run(idle, StepsOf(steps), [Str(tag), Str(code)]);
  }
}
