/** The LIST job: pairs LIST with STATUS responses and reports mailboxes in batches on timer ticks. */
module ListAggregation {
  import opened Bits
  import opened Decimals
  import opened Texts
  import opened Jobs
  import FolderNameDecoder

  datatype Descriptor = Descriptor(name: string, separator: char)
  type Flags = seq<string>
  type Status = seq<(string, int)>

  /** What is reported of one mailbox */
  datatype Item = Item(descriptor: Descriptor, flags: Flags, status: Option<Status>)

  /** What a response means to the job */
  datatype Event =
    | Listed(descriptor: Descriptor, flags: Flags)
    | StatusOf(mailbox: string, status: Status)
    | Other

  // ---------------------------------------------------------------- Reading a response

  function LowerAll(flags: Flags): Flags {
    if flags == [] then [] else [ToLower(flags[0])] + LowerAll(flags[1..])
  }

  function SpacedName(parts: seq<Part>): string {
    if parts == [] then "" else if |parts| == 1 then parts[0].ToString()
    else parts[0].ToString() + " " + SpacedName(parts[1..])
  }

  function NumberOrZero(s: string): int {
    if ToLongLong(s).Some? then ToLongLong(s).value else 0
  }

  function StatusPairs(items: seq<string>): Status {
    if |items| < 2 then [] else [(items[0], NumberOrZero(items[1]))] + StatusPairs(items[2..])
  }

  /** INBOX is written in upper case, whatever the server says. */
  function ConvertInboxName(d: Descriptor): Descriptor {
    var parts := Split(d.name, d.separator);
    if ToUpper(parts[0]) == "INBOX" then
      d.(name := "INBOX" + (if |parts| == 1 then "" else [d.separator] + Join(parts[1..], d.separator)))
    else d
  }

  function Interpret(content: Content, command: string, utf8Enabled: bool): Event {
    if |content| >= 5 && content[1].ToString() == command then
      var separator := content[3].ToString();
      var name := SpacedName(content[4..]);
      Listed(ConvertInboxName(Descriptor(if utf8Enabled then name else FolderNameDecoder.Decoded(name),
                                         if separator == "" then '/' else separator[0])),
             LowerAll(content[2].ToList()))
    else if |content| >= 4 && content[1].ToString() == "STATUS" then
      StatusOf(content[2].ToString(), StatusPairs(content[3].ToList()))
    else Other
  }

  lemma {:induction false} LowerAllSnoc(flags: Flags, flag: string)
    ensures LowerAll(flags + [flag]) == LowerAll(flags) + [ToLower(flag)]
  {
    if flags == [] {
      assert (flags + [flag])[1..] == [];
    } else {
      assert (flags + [flag])[1..] == flags[1..] + [flag];
      LowerAllSnoc(flags[1..], flag);
    }
  }

  lemma {:induction false} SpacedNameSnoc(parts: seq<Part>, part: Part)
    requires parts != []
    ensures SpacedName(parts + [part]) == SpacedName(parts) + " " + part.ToString()
  {
    assert (parts + [part])[1..] == parts[1..] + [part];
    if |parts| > 1 {
      var head, tail := parts[0].ToString() + " ", SpacedName(parts[1..]);
      SpacedNameSnoc(parts[1..], part);
      Associative(head, tail + " ", part.ToString());
      Associative(head, tail, " ");
    }
  }

  lemma {:induction false} StatusPairsSnoc(items: seq<string>, name: string, value: string)
    requires |items| % 2 == 0
    ensures StatusPairs(items + [name, value]) == StatusPairs(items) + [(name, NumberOrZero(value))]
  {
    var all := items + [name, value];
    if items == [] {
      assert all[2..] == [] && StatusPairs([]) == [];
    } else {
      assert all[2..] == items[2..] + [name, value];
      StatusPairsSnoc(items[2..], name, value);
    }
  }

  lemma LowerNext(flags: Flags, it: nat)
    requires it < |flags| && |LowerAll(flags[..it])| == it
    ensures var now := LowerAll(flags[..it]) + flags[it..];
            && now[it] == flags[it] && |LowerAll(flags[..it + 1])| == it + 1
            && now[it := ToLower(flags[it])] == LowerAll(flags[..it + 1]) + flags[it + 1..]
  {
    LowerAllSnoc(flags[..it], flags[it]);
    assert flags[..it] + [flags[it]] == flags[..it + 1];
  }

  /** The flags of a LIST response, put in lower case in place */
  method LowerFlags(flags0: Flags) returns (flags: Flags)
    ensures flags == LowerAll(flags0)
  {
    flags := flags0;
    var it := 0;
    while it != |flags|
      invariant 0 <= it <= |flags| == |flags0|
      invariant flags == LowerAll(flags0[..it]) + flags0[it..] && |LowerAll(flags0[..it])| == it
      decreases |flags| - it
    {
      LowerNext(flags0, it);
      flags := flags[it := ToLower(flags[it])];
      it := it + 1;
    }
    assert flags0[..it] == flags0;
  }

  /** The name of a LIST response: the parts from the fifth on, with single spaces between them */
  method ReadName(content: Content) returns (fullName: string)
    requires |content| >= 5
    ensures fullName == SpacedName(content[4..])
  {
    fullName := "";
    var i := 4;
    while i < |content|
      invariant 4 <= i <= |content|
      invariant fullName == if i == 4 then "" else SpacedName(content[4..i]) + " "
    {
      if i > 4 {
        SpacedNameSnoc(content[4..i], content[i]);
        assert content[4..i] + [content[i]] == content[4..i + 1];
      }
      fullName := fullName + content[i].ToString() + " ";
      i := i + 1;
    }
    assert content[4..i] == content[4..];
    fullName := fullName[..|fullName| - 1];
  }

  /** The name and value pairs of a STATUS response */
  method ReadStatus(items: seq<string>) returns (status: Status)
    ensures status == StatusPairs(items)
  {
    status := [];
    var i := 0;
    while i + 1 < |items|
      invariant 0 <= i <= |items| && i % 2 == 0 && status == StatusPairs(items[..i])
    {
      StatusPairsSnoc(items[..i], items[i], items[i + 1]);
      assert items[..i] + [items[i], items[i + 1]] == items[..i + 2];
      status := status + [(items[i], NumberOrZero(items[i + 1]))];
      i := i + 2;
    }
    OddStatus(items, i);
  }

  lemma {:induction false} OddStatus(items: seq<string>, i: nat)
    requires i % 2 == 0 && i <= |items| <= i + 1
    ensures StatusPairs(items) == StatusPairs(items[..i])
  {
    if i >= 2 {
      OddStatus(items[2..], i - 2);
      assert items[2..][..i - 2] == items[..i][2..];
    }
  }

  method ReadResponse(content: Content, command: string, utf8Enabled: bool) returns (e: Event)
    ensures e == Interpret(content, command, utf8Enabled)
  {
    if |content| >= 5 && content[1].ToString() == command {
      var flags := LowerFlags(content[2].ToList());
      var separator := content[3].ToString();
      if separator == "" {
        separator := "/";
      }
      var fullName := ReadName(content);
      fullName := FolderNameDecoder.DecodeImapFolderName(fullName, utf8Enabled);
      e := Listed(ConvertInboxName(Descriptor(fullName, separator[0])), flags);
    } else if |content| >= 4 && content[1].ToString() == "STATUS" {
      var status := ReadStatus(content[3].ToList());
      e := StatusOf(content[2].ToString(), status);
    } else {
      e := Other;
    }
  }

  predicate StartsWithInbox(mailbox: string, name: string) {
    |mailbox| >= 5 && ToUpper(mailbox[..5]) == "INBOX" && |name| >= 5 && name[..5] == "INBOX"
  }

  /** The STATUS response is about the mailbox of that name. */
  predicate Matches(mailbox: string, name: string) {
    if StartsWithInbox(mailbox, name) then mailbox[5..] == name[5..] else name == mailbox
  }

  predicate NoSelect(flags: Flags) {
    "\\noselect" in flags
  }

  // ---------------------------------------------------------------- What should be reported

  /** The status that belongs to a LIST response, given the events after it: that of the first
      STATUS response that matches, before the next LIST */
  function StatusAfter(d: Descriptor, later: seq<Event>): Option<Status> {
    if later == [] || later[0].Listed? then None
    else if later[0].StatusOf? && Matches(later[0].mailbox, d.name) then Some(later[0].status)
    else StatusAfter(d, later[1..])
  }

  /** Every LIST response once, in order, with its status */
  function Report(events: seq<Event>): seq<Item> {
    if events == [] then []
    else if events[0].Listed? then
      var Listed(d, flags) := events[0];
      [Item(d, flags, if NoSelect(flags) then None else StatusAfter(d, events[1..]))] + Report(events[1..])
    else Report(events[1..])
  }

  /** The descriptor still waiting for its status, if any */
  function Waiting(events: seq<Event>): Option<Descriptor> {
    if events == [] then None
    else
      var last, before := events[|events| - 1], events[..|events| - 1];
      match last
      case Listed(d, flags) => if NoSelect(flags) then None else Some(d)
      case StatusOf(mailbox, _) =>
        (match Waiting(before)
         case Some(d) => if Matches(mailbox, d.name) then None else Some(d)
         case None => None)
      case Other => Waiting(before)
  }

  function WithLastStatus(items: seq<Item>, status: Status): seq<Item>
    requires items != []
  {
    items[..|items| - 1] + [items[|items| - 1].(status := Some(status))]
  }

  /** How one more event changes the report */
  function Extended(items: seq<Item>, waiting: Option<Descriptor>, e: Event): seq<Item> {
    match e
    case Listed(d, flags) => items + [Item(d, flags, None)]
    case StatusOf(mailbox, status) =>
      if waiting.Some? && Matches(mailbox, waiting.value.name) && items != [] then WithLastStatus(items, status)
      else items
    case Other => items
  }

  /** No LIST response among the events */
  predicate NoList(events: seq<Event>) {
    forall i :: 0 <= i < |events| ==> !events[i].Listed?
  }

  lemma {:induction false} NoListReport(events: seq<Event>)
    requires NoList(events)
    ensures Report(events) == [] && Waiting(events) == None
    decreases |events|
  {
    if events != [] {
      NoListReport(events[1..]);
      NoListReport(events[..|events| - 1]);
    }
  }

  lemma {:induction false} StatusAfterSnoc(d: Descriptor, later: seq<Event>, e: Event)
    ensures StatusAfter(d, later + [e]) ==
      if StatusAfter(d, later).Some? || !NoList(later) then StatusAfter(d, later)
      else if e.StatusOf? && Matches(e.mailbox, d.name) then Some(e.status) else None
  {
    var all := later + [e];
    if later == [] {
      assert all[0] == e && all[1..] == [];
    } else {
      StatusAfterSnoc(d, later[1..], e);
      assert all[0] == later[0] && all[1..] == later[1..] + [e];
      assert NoList(later) <==> !later[0].Listed? && NoList(later[1..]) by {
        assert later == [later[0]] + later[1..];
      }
    }
  }

  /** Which LIST response waits, seen from the first event */
  lemma {:induction false} WaitingCons(x: Event, rest: seq<Event>)
    ensures Waiting([x] + rest) ==
      if !NoList(rest) then Waiting(rest)
      else if x.Listed? && !NoSelect(x.flags) && StatusAfter(x.descriptor, rest) == None then Some(x.descriptor)
      else None
    decreases |rest|
  {
    var all := [x] + rest;
    if rest == [] {
      assert all[|all| - 1] == x && all[..|all| - 1] == [];
      assert Waiting([]) == None;
    } else {
      var init, last := rest[..|rest| - 1], rest[|rest| - 1];
      assert rest == init + [last];
      assert all[|all| - 1] == last && all[..|all| - 1] == [x] + init;
      WaitingCons(x, init);
      assert NoList(rest) <==> NoList(init) && !last.Listed?;
      if NoList(rest) {
        NoListReport(rest);
        if x.Listed? {
          StatusAfterSnoc(x.descriptor, init, last);
        }
      }
    }
  }

  lemma ExtendedCons(i: Item, items: seq<Item>, waiting: Option<Descriptor>, e: Event)
    requires waiting.Some? ==> items != []
    ensures Extended([i] + items, waiting, e) == [i] + Extended(items, waiting, e)
  {
    if e.Listed? {
      Associative([i], items, [Item(e.descriptor, e.flags, None)]);
    } else if e.StatusOf? && waiting.Some? && Matches(e.mailbox, waiting.value.name) {
      var n := |items| - 1;
      assert ([i] + items)[..n + 1] == [i] + items[..n];
      Associative([i], items[..n], [items[n].(status := Some(e.status))]);
    }
  }

  /** The waiting LIST response is the last of the report, without a status. */
  ghost predicate WaitsLast(events: seq<Event>) {
    Waiting(events).Some? ==>
      Report(events) != [] && Report(events)[|Report(events)| - 1].descriptor == Waiting(events).value
      && Report(events)[|Report(events)| - 1].status == None
  }

  lemma {:induction false} WaitingIsLast(events: seq<Event>)
    ensures WaitsLast(events)
  {
    if events != [] {
      var x, rest := events[0], events[1..];
      WaitingIsLast(rest);
      WaitingCons(x, rest);
      assert events == [x] + rest;
      if NoList(rest) {
        NoListReport(rest);
      }
    }
  }

  /** How the report grows with one more event */
  lemma {:induction false} ReportSnoc(events: seq<Event>, e: Event)
    ensures Report(events + [e]) == Extended(Report(events), Waiting(events), e)
  {
    var all := events + [e];
    if events == [] {
      assert all[0] == e && all[1..] == [];
      assert Report([]) == [];
    } else {
      var x, rest := events[0], events[1..];
      assert all[0] == x && all[1..] == rest + [e] && events == [x] + rest;
      ReportSnoc(rest, e);
      WaitingCons(x, rest);
      WaitingIsLast(rest);
      if NoList(rest) {
        NoListReport(rest);
      }
      if x.Listed? {
        StatusAfterSnoc(x.descriptor, rest, e);
        ExtendedCons(Report(events)[0], Report(rest), Waiting(rest), e);
      }
    }
  }

  // ---------------------------------------------------------------- The job

  function Items(descriptors: seq<Descriptor>, flags: seq<Flags>, status: seq<Option<Status>>): (r: seq<Item>)
    requires |descriptors| == |flags| == |status|
    ensures |r| == |descriptors|
    ensures forall i :: 0 <= i < |r| ==> r[i] == Item(descriptors[i], flags[i], status[i])
  {
    seq(|descriptors|, i requires 0 <= i < |descriptors| => Item(descriptors[i], flags[i], status[i]))
  }

  /** A list resized, with None in new places */
  function Resized(status: seq<Option<Status>>, n: nat): (r: seq<Option<Status>>)
    requires |status| <= n
    ensures |r| == n
  {
    status + seq(n - |status|, _ => None)
  }

  predicate Distinct(tags: seq<string>) {
    forall i, j :: 0 <= i < j < |tags| ==> tags[i] != tags[j]
  }

  /** The pending lists fit the events so far: what is emitted and what is pending make up the
      report, and a status is missing exactly for the descriptor that waits. */
  ghost predicate Consistent(events: seq<Event>, emitted: seq<Item>,
                             descriptors: seq<Descriptor>, flags: seq<Flags>, status: seq<Option<Status>>) {
    && |flags| == |descriptors|
    && (|status| == |descriptors| || |status| == |descriptors| - 1)
    && emitted + Items(descriptors, flags, Resized(status, |descriptors|)) == Report(events)
    && Waiting(events) == if |status| < |descriptors| then Some(descriptors[|descriptors| - 1]) else None
  }

  lemma AddListed(events: seq<Event>, emitted: seq<Item>, descriptors: seq<Descriptor>, flags: seq<Flags>,
                  status: seq<Option<Status>>, e: Event)
    requires Consistent(events, emitted, descriptors, flags, status) && e.Listed?
    ensures |status| <= |descriptors| && (|status| == |descriptors| ==> Resized(status, |descriptors|) == status)
    ensures var padded := Resized(status, |descriptors|);
      Consistent(events + [e], emitted, descriptors + [e.descriptor], flags + [e.flags],
                 if NoSelect(e.flags) then padded + [None] else padded)
  {
    var n := |descriptors|;
    var padded := Resized(status, n);
    var padded' := if NoSelect(e.flags) then padded + [None] else padded;
    assert padded + [None] == Resized(padded', n + 1);
    assert Items(descriptors + [e.descriptor], flags + [e.flags], padded + [None])
        == Items(descriptors, flags, padded) + [Item(e.descriptor, e.flags, None)];
    Associative(emitted, Items(descriptors, flags, padded), [Item(e.descriptor, e.flags, None)]);
    ReportSnoc(events, e);
    assert (events + [e])[..|events|] == events;
  }

  lemma AddStatus(events: seq<Event>, emitted: seq<Item>, descriptors: seq<Descriptor>, flags: seq<Flags>,
                  status: seq<Option<Status>>, e: Event)
    requires Consistent(events, emitted, descriptors, flags, status) && e.StatusOf?
    ensures Consistent(events + [e], emitted, descriptors, flags,
              if |status| < |descriptors| && Matches(e.mailbox, descriptors[|descriptors| - 1].name)
              then status + [Some(e.status)] else status)
  {
    ReportSnoc(events, e);
    assert (events + [e])[..|events|] == events;
    var n := |descriptors|;
    if |status| < n && Matches(e.mailbox, descriptors[n - 1].name) {
      var items, items' := Items(descriptors, flags, Resized(status, n)),
                           Items(descriptors, flags, Resized(status + [Some(e.status)], n));
      assert items' == items[..n - 1] + [items[n - 1].(status := Some(e.status))];
      assert (emitted + items)[..|emitted| + n - 1] == emitted + items[..n - 1];
      Associative(emitted, items[..n - 1], [items[n - 1].(status := Some(e.status))]);
    }
  }

  lemma DistinctCons(tag: string, rest: seq<string>)
    ensures Distinct([tag] + rest) <==> tag !in rest && Distinct(rest)
  {
    var all := [tag] + rest;
    assert forall i :: 0 <= i < |rest| ==> rest[i] == all[i + 1];
    if tag !in rest && Distinct(rest) {
      forall i, j | 0 <= i < j < |all| ensures all[i] != all[j] {
        assert all[j] == rest[j - 1] && (i > 0 ==> all[i] == rest[i - 1]);
      }
    }
    if tag in rest {
      var j :| 0 <= j < |rest| && rest[j] == tag;
      assert all[0] == all[j + 1];
    }
    if Distinct(all) {
      forall i, j | 0 <= i < j < |rest| ensures rest[i] != rest[j] {
        assert all[i + 1] != all[j + 1];
      }
    }
  }

  lemma {:induction false} RemovedAll(tags: seq<string>, tag: string)
    requires Distinct(tags)
    ensures Distinct(Removed(tags, tag))
    ensures Removed(tags, tag) == [] && tags != [] ==> tags == [tag]
  {
    if tags != [] {
      assert tags == [tags[0]] + tags[1..];
      DistinctCons(tags[0], tags[1..]);
      RemovedAll(tags[1..], tag);
      DistinctCons(tags[0], Removed(tags[1..], tag));
    }
  }

  /** `emitted` collects what the status signal carries, over all its emissions, `received` what the
      signal without statuses carries. */
  class ListJob {
    const job: Job
    const command: string
    const utf8Enabled: bool
    var pendingDescriptors: seq<Descriptor>
    var pendingFlags: seq<Flags>
    var pendingStatus: seq<Option<Status>>
    ghost var events: seq<Event>
    ghost var emitted: seq<Item>
    ghost var received: seq<(Descriptor, Flags)>

    ghost predicate Valid()
      reads this, job
    {
      && Distinct(job.tags)
      && Consistent(events, emitted, pendingDescriptors, pendingFlags, pendingStatus)
      && received == Pairs(emitted)
    }

    constructor (job: Job, command: string, utf8Enabled: bool)
      requires Distinct(job.tags)
      ensures Valid() && this.job == job && this.command == command && this.utf8Enabled == utf8Enabled
      ensures events == [] && emitted == []
    {
      this.job, this.command, this.utf8Enabled := job, command, utf8Enabled;
      pendingDescriptors, pendingFlags, pendingStatus := [], [], [];
      events, emitted, received := [], [], [];
    }

    /** Report what is complete, or everything. Also what a timer tick does, with `finalEmit` false. */
    method EmitPendings(finalEmit: bool)
      requires Valid()
      modifies this
      ensures events == old(events) && old(emitted) <= emitted && received == Pairs(emitted)
      ensures if finalEmit then emitted == Report(events) else Valid()
    {
      if pendingDescriptors == [] {
        assert emitted + [] == emitted;
        return;
      }
      ghost var all := Items(pendingDescriptors, pendingFlags, Resized(pendingStatus, |pendingDescriptors|));
      assert |pendingStatus| == |pendingDescriptors| - 1 || |pendingStatus| == |pendingDescriptors|;
      if finalEmit {
        pendingStatus := Resized(pendingStatus, |pendingDescriptors|);
      }
      var n := |pendingStatus|;
      if n != |pendingDescriptors| {
        var readyDescriptors, readyFlags := pendingDescriptors[..n], pendingFlags[..n];
        Emit(readyDescriptors, readyFlags, pendingStatus);
        pendingDescriptors, pendingFlags, pendingStatus := pendingDescriptors[n..], pendingFlags[n..], [];
        assert Items(readyDescriptors, readyFlags, old(pendingStatus)) == all[..n];
        assert Items(pendingDescriptors, pendingFlags, Resized([], |pendingDescriptors|)) == all[n..];
        assert all == all[..n] + all[n..];
        Associative(old(emitted), all[..n], all[n..]);
      } else {
        Emit(pendingDescriptors, pendingFlags, pendingStatus);
        pendingDescriptors, pendingFlags, pendingStatus := [], [], [];
        assert emitted + [] == emitted;
      }
    }

    /** The timer */
    method Tick()
      requires Valid()
      modifies this
      ensures Valid() && events == old(events) && old(emitted) <= emitted
    {
      EmitPendings(false);
    }

    /** A response. The one that ends the job makes the report complete; every other one leaves the
        job consistent, whatever ticks came in between. */
    method HandleResponse(content: Content)
      requires Valid() && job.tags != []
      modifies this, job
      ensures events == old(events) + if Answers(content, old(job.tags)) then []
                                      else [Interpret(content, command, utf8Enabled)]
      ensures job.tags
           == if Answers(content, old(job.tags)) then Removed(old(job.tags), content[0].ToString()) else old(job.tags)
      ensures job.results == old(job.results) + (if Answers(content, old(job.tags)) && job.tags == [] then 1 else 0)
      ensures if job.tags == [] then emitted == Report(events) else Valid()
      ensures received == Pairs(emitted)
    {
      if content != [] && |job.tags| == 1 && content[0].ToString() in job.tags {
        EmitPendings(true);
      }
      if content != [] {
        RemovedAll(job.tags, content[0].ToString());
      }
      var handled := job.HandleErrorReplies(content);
      if !handled {
        var e := ReadResponse(content, command, utf8Enabled);
        HandleUntagged(e);
      }
    }

    method HandleUntagged(e: Event)
      requires Valid()
      modifies this
      ensures Valid() && events == old(events) + [e] && emitted == old(emitted)
    {
      if e.Listed? {
        AddListed(events, emitted, pendingDescriptors, pendingFlags, pendingStatus, e);
        if |pendingStatus| < |pendingDescriptors| {
          pendingStatus := Resized(pendingStatus, |pendingDescriptors|);
        }
        pendingDescriptors := pendingDescriptors + [e.descriptor];
        pendingFlags := pendingFlags + [e.flags];
        if NoSelect(e.flags) {
          pendingStatus := pendingStatus + [None];
        }
      } else if e.StatusOf? {
        AddStatus(events, emitted, pendingDescriptors, pendingFlags, pendingStatus, e);
        if pendingDescriptors != [] && |pendingDescriptors| - 1 == |pendingStatus| {
          var name := pendingDescriptors[|pendingDescriptors| - 1].name;
          var startsWithInbox := StartsWithInbox(e.mailbox, name);
          if !((startsWithInbox && e.mailbox[5..] != name[5..]) || (!startsWithInbox && name != e.mailbox)) {
            pendingStatus := pendingStatus + [Some(e.status)];
          }
        }
      } else {
        ReportSnoc(events, e);
      }
      events := events + [e];
    }

    /** The two signals */
    ghost method Emit(descriptors: seq<Descriptor>, flags: seq<Flags>, status: seq<Option<Status>>)
      requires |descriptors| == |flags| == |status| && received == Pairs(emitted)
      modifies this`emitted, this`received
      ensures emitted == old(emitted) + Items(descriptors, flags, status) && received == Pairs(emitted)
    {
      emitted := emitted + Items(descriptors, flags, status);
      received := received + seq(|descriptors|, i requires 0 <= i < |descriptors| => (descriptors[i], flags[i]));
    }
  }

  function Pairs(items: seq<Item>): seq<(Descriptor, Flags)> {
    seq(|items|, i requires 0 <= i < |items| => (items[i].descriptor, items[i].flags))
  }

  // ---------------------------------------------------------------- Whole runs

  datatype Step = Response(content: Content) | TimerTick

  predicate IsReply(tags: seq<string>, step: Step) {
    step.Response? && Answers(step.content, tags)
  }

  /** The tags that wait for a reply after a step */
  function NextTags(tags: seq<string>, step: Step): seq<string> {
    if IsReply(tags, step) then Removed(tags, step.content[0].ToString()) else tags
  }

  function StepEvents(tags: seq<string>, step: Step, command: string, utf8: bool): seq<Event> {
    if step.TimerTick? || IsReply(tags, step) then [] else [Interpret(step.content, command, utf8)]
  }

  function EventsOf(tags: seq<string>, steps: seq<Step>, command: string, utf8: bool): seq<Event>
    decreases |steps|
  {
    if steps == [] then []
    else StepEvents(tags, steps[0], command, utf8) + EventsOf(NextTags(tags, steps[0]), steps[1..], command, utf8)
  }

  function WithoutTicks(steps: seq<Step>): seq<Step> {
    if steps == [] then []
    else (if steps[0].TimerTick? then [] else [steps[0]]) + WithoutTicks(steps[1..])
  }

  /** The job is over with the last step, and not before. */
  ghost predicate EndsWithLast(tags: seq<string>, steps: seq<Step>)
    decreases |steps|
  {
    && steps != [] && tags != []
    && if |steps| == 1 then NextTags(tags, steps[0]) == [] else EndsWithLast(NextTags(tags, steps[0]), steps[1..])
  }

  /** Any run of the job reports, over all its signals, exactly what its responses say. */
  method Run(list: ListJob, steps: seq<Step>)
    requires list.Valid() && EndsWithLast(list.job.tags, steps)
    modifies list, list.job
    ensures list.emitted
         == Report(old(list.events) + EventsOf(old(list.job.tags), steps, list.command, list.utf8Enabled))
    ensures list.received == Pairs(list.emitted) && list.job.results == old(list.job.results) + 1
  {
    var i := 0;
    ghost var all := list.events + EventsOf(list.job.tags, steps, list.command, list.utf8Enabled);
    assert steps[0..] == steps;
    while i < |steps| - 1
      invariant 0 <= i < |steps|
      invariant list.Valid() && EndsWithLast(list.job.tags, steps[i..])
      invariant list.job.results == old(list.job.results)
      invariant list.events + EventsOf(list.job.tags, steps[i..], list.command, list.utf8Enabled) == all
    {
      assert steps[i..][1..] == steps[i + 1..];
      RunStep(list, steps[i], steps[i + 1..], all);
      i := i + 1;
    }
    assert steps[i..][1..] == [];
    RunStep(list, steps[i], [], all);
    assert list.events + [] == list.events;
  }

  method RunStep(list: ListJob, step: Step, ghost rest: seq<Step>, ghost all: seq<Event>)
    requires list.Valid() && list.job.tags != []
    requires list.events + (StepEvents(list.job.tags, step, list.command, list.utf8Enabled)
             + EventsOf(NextTags(list.job.tags, step), rest, list.command, list.utf8Enabled)) == all
    modifies list, list.job
    ensures list.job.tags == NextTags(old(list.job.tags), step)
    ensures list.events + EventsOf(list.job.tags, rest, list.command, list.utf8Enabled) == all
    ensures list.job.results == old(list.job.results) + (if list.job.tags == [] then 1 else 0)
    ensures if list.job.tags == [] then list.emitted == Report(list.events) else list.Valid()
    ensures list.received == Pairs(list.emitted)
  {
    Associative(list.events, StepEvents(list.job.tags, step, list.command, list.utf8Enabled),
                EventsOf(NextTags(list.job.tags, step), rest, list.command, list.utf8Enabled));
    if step.TimerTick? {
      list.Tick();
      assert old(list.events) + [] == list.events;
    } else {
      list.HandleResponse(step.content);
    }
  }

  /** Where the ticks fall makes no difference. */
  lemma {:induction false} TicksDoNotMatter(tags: seq<string>, steps: seq<Step>, command: string, utf8: bool)
    ensures EventsOf(tags, WithoutTicks(steps), command, utf8) == EventsOf(tags, steps, command, utf8)
    decreases |steps|
  {
    if steps != [] {
      var rest := WithoutTicks(steps[1..]);
      TicksDoNotMatter(NextTags(tags, steps[0]), steps[1..], command, utf8);
      if steps[0].TimerTick? {
        assert [] + rest == rest;
        assert [] + EventsOf(tags, steps[1..], command, utf8) == EventsOf(tags, steps[1..], command, utf8);
      } else {
        assert ([steps[0]] + rest)[1..] == rest;
      }
    }
  }
}
