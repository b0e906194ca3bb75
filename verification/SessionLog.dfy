/** The connection states of section 3 of RFC 3501, read off the log of one connection: what was
    sent, and which command each reply answers. */
module SessionLog {
  import opened Decimals
  import opened Jobs

  datatype State = Disconnected | NotAuthenticated | Authenticated | Selected

  datatype Kind = Auth | Select | Close | Plain

  datatype Entry =
    | Greeting(preauth: bool)
    | Sent(kind: Kind, mailbox: string)
    | Reply(index: nat, ok: bool)

  function Last(log: seq<Entry>): Entry
    requires log != []
  {
    log[|log| - 1]
  }

  function Init(log: seq<Entry>): seq<Entry>
    requires log != []
  {
    log[..|log| - 1]
  }

  /** How many commands were sent; the next one gets this index. */
  function Sends(log: seq<Entry>): nat {
    if log == [] then 0 else Sends(Init(log)) + (if Last(log).Sent? then 1 else 0)
  }

  /** The index of the last command of a kind */
  function Latest(log: seq<Entry>, kind: Kind): (k: Option<nat>)
    ensures k.Some? ==> k.value < Sends(log)
  {
    if log == [] then None
    else if Last(log).Sent? && Last(log).kind == kind then Some(Sends(Init(log)))
    else Latest(Init(log), kind)
  }

  /** The mailbox of the last SELECT or EXAMINE */
  function LatestMailbox(log: seq<Entry>): string {
    if log == [] then ""
    else if Last(log).Sent? && Last(log).kind == Select then Last(log).mailbox
    else LatestMailbox(Init(log))
  }

  predicate Answered(log: seq<Entry>, k: nat) {
    log != [] && ((Last(log).Reply? && Last(log).index == k) || Answered(Init(log), k))
  }

  /** The last command of the kind, if no reply to it came yet */
  function Outstanding(log: seq<Entry>, kind: Kind): Option<nat> {
    match Latest(log, kind)
    case Some(k) => if Answered(log, k) then None else Some(k)
    case None => None
  }

  predicate Greeted(log: seq<Entry>) {
    log != [] && (Last(log).Greeting? || Greeted(Init(log)))
  }

  /** The server greeted with PREAUTH, or accepted the last authentication command. */
  predicate LoggedIn(log: seq<Entry>) {
    log != [] &&
    ( LoggedIn(Init(log))
      || (Last(log).Greeting? && Last(log).preauth)
      || (Last(log).Reply? && Last(log).ok && Outstanding(Init(log), Auth) == Some(Last(log).index)) )
  }

  /** The mailbox that the last effective SELECT, EXAMINE or CLOSE left open. A reply is effective
      after login, when it is the first one to the last command of its kind; a refused CLOSE is not. */
  function OpenMailbox(log: seq<Entry>): Option<string> {
    if log == [] then None
    else if Last(log).Reply? && LoggedIn(Init(log)) && Outstanding(Init(log), Select) == Some(Last(log).index) then
      if Last(log).ok then Some(LatestMailbox(Init(log))) else None
    else if Last(log).Reply? && LoggedIn(Init(log)) && Last(log).ok
            && Outstanding(Init(log), Close) == Some(Last(log).index) then None
    else OpenMailbox(Init(log))
  }

  /** The state the log leads to */
  function Phase(log: seq<Entry>): State {
    if !Greeted(log) then Disconnected
    else if !LoggedIn(log) then NotAuthenticated
    else if OpenMailbox(log).Some? then Selected
    else Authenticated
  }

  /** The mailbox in use, empty in every other state */
  function Mailbox(log: seq<Entry>): string {
    match OpenMailbox(log) case Some(m) => m case None => ""
  }

  lemma Snoc(log: seq<Entry>, e: Entry)
    ensures Last(log + [e]) == e && Init(log + [e]) == log
  {
  }

  lemma {:induction false} OpenOnlyLoggedIn(log: seq<Entry>)
    ensures OpenMailbox(log).Some? ==> LoggedIn(log)
  {
    if log != [] {
      OpenOnlyLoggedIn(Init(log));
    }
  }

  // ---------------------------------------------------------------- Tags

  function Padded(s: string): string
    decreases 6 - |s|
  {
    if |s| >= 6 then s else Padded("0" + s)
  }

  const TAGS := 65536

  function Tag(count: nat): (tag: string)
    ensures tag != ""
  {
    "A" + Padded(Decimal(count))
  }

  /** The tag of the command with that index; the counter is 16 bits wide and counts before use. */
  function TagOf(k: nat): string {
    Tag((k + 1) % TAGS)
  }

  lemma {:induction false} PaddedValue(s: string)
    requires AllDigits(s)
    ensures AllDigits(Padded(s)) && DigitsValue(Padded(s)) == DigitsValue(s)
    decreases 6 - |s|
  {
    if |s| < 6 {
      LeadingZero(s);
      PaddedValue("0" + s);
    }
  }

  lemma {:induction false} LeadingZero(s: string)
    requires AllDigits(s)
    ensures AllDigits("0" + s) && DigitsValue("0" + s) == DigitsValue(s)
    decreases |s|
  {
    if s != "" {
      LeadingZero(s[..|s| - 1]);
      assert ("0" + s)[..|s|] == "0" + s[..|s| - 1];
    } else {
      assert "0" + s == "0" && "0"[..0] == "";
    }
  }

  lemma TagInjective(a: nat, b: nat)
    requires Tag(a) == Tag(b)
    ensures a == b
  {
    assert Tag(a)[1..] == Padded(Decimal(a)) && Tag(b)[1..] == Padded(Decimal(b));
    PaddedValue(Decimal(a));
    PaddedValue(Decimal(b));
    DecimalValue(a);
    DecimalValue(b);
  }

  /** The command a tag belongs to: the last one with that tag among the first `count` */
  function Resolve(tag: string, count: nat): (k: Option<nat>)
    ensures k.Some? ==> k.value < count && TagOf(k.value) == tag
  {
    if count == 0 then None
    else if TagOf(count - 1) == tag then Some(count - 1)
    else Resolve(tag, count - 1)
  }

  lemma Distinct(a: nat, b: nat)
    requires a < b < a + TAGS
    ensures a % TAGS != b % TAGS
  {
    assert a == TAGS * (a / TAGS) + a % TAGS && b == TAGS * (b / TAGS) + b % TAGS;
  }

  /** Among the last 65536 commands a tag is unique. */
  lemma {:induction false} ResolveRecent(k: nat, count: nat)
    requires k < count <= k + TAGS
    ensures Resolve(TagOf(k), count) == Some(k)
    decreases count
  {
    if k != count - 1 {
      Distinct(k + 1, count);
      if TagOf(count - 1) == TagOf(k) {
        TagInjective(count % TAGS, (k + 1) % TAGS);
      }
      ResolveRecent(k, count - 1);
    }
  }

  function TagText(index: Option<nat>): string {
    match index case Some(k) => TagOf(k) case None => ""
  }

  // ---------------------------------------------------------------- One step of the log

  /** Only commands that were sent get answered. */
  predicate Causal(log: seq<Entry>) {
    log != [] ==> Causal(Init(log)) && (Last(log).Reply? ==> Last(log).index < Sends(Init(log)))
  }

  lemma {:induction false} AnsweredSent(log: seq<Entry>, k: nat)
    requires Causal(log) && Answered(log, k)
    ensures k < Sends(log)
  {
    if !(Last(log).Reply? && Last(log).index == k) {
      AnsweredSent(Init(log), k);
    }
  }

  lemma SendStep(log: seq<Entry>, kind: Kind, mailbox: string)
    requires Causal(log)
    ensures var next := log + [Sent(kind, mailbox)];
            && Causal(next) && Sends(next) == Sends(log) + 1
            && (Greeted(next) <==> Greeted(log)) && Phase(next) == Phase(log) && Mailbox(next) == Mailbox(log)
            && Outstanding(next, kind) == Some(Sends(log))
            && (forall other: Kind :: other != kind ==> Outstanding(next, other) == Outstanding(log, other))
            && LatestMailbox(next) == if kind == Select then mailbox else LatestMailbox(log)
  {
    var next := log + [Sent(kind, mailbox)];
    Snoc(log, Sent(kind, mailbox));
    if Answered(next, Sends(log)) {
      AnsweredSent(log, Sends(log));
    }
  }

  lemma {:induction false} LatestKind(log: seq<Entry>, a: Kind, b: Kind)
    requires Latest(log, a).Some? && Latest(log, a) == Latest(log, b)
    ensures a == b
  {
    if !(Last(log).Sent? && (Last(log).kind == a || Last(log).kind == b)) {
      LatestKind(Init(log), a, b);
    }
  }

  lemma ReplyStep(log: seq<Entry>, k: nat, ok: bool)
    requires Causal(log) && k < Sends(log)
    ensures var next := log + [Reply(k, ok)];
            && Causal(next) && Sends(next) == Sends(log) && (Greeted(next) <==> Greeted(log))
            && LatestMailbox(next) == LatestMailbox(log)
            && forall kind: Kind :: Outstanding(next, kind)
                 == if Outstanding(log, kind) == Some(k) then None else Outstanding(log, kind)
  {
    Snoc(log, Reply(k, ok));
    forall kind: Kind
      ensures Latest(log + [Reply(k, ok)], kind) == Latest(log, kind)
    {
    }
  }

  /** What one reply does to the state and the mailbox */
  lemma ReplyPhase(log: seq<Entry>, k: nat, ok: bool)
    requires Greeted(log)
    ensures var next := log + [Reply(k, ok)];
            match Phase(log) {
              case Disconnected => false
              case NotAuthenticated =>
                Phase(next) == (if ok && Outstanding(log, Auth) == Some(k) then Authenticated else NotAuthenticated)
                && Mailbox(next) == Mailbox(log)
              case Authenticated =>
                if ok && Outstanding(log, Select) == Some(k)
                then Phase(next) == Selected && Mailbox(next) == LatestMailbox(log)
                else Phase(next) == Authenticated && Mailbox(next) == Mailbox(log)
              case Selected =>
                if (ok && Outstanding(log, Close) == Some(k)) || (!ok && Outstanding(log, Select) == Some(k))
                then Phase(next) == Authenticated && Mailbox(next) == ""
                else Phase(next) == Selected
                     && Mailbox(next)
                        == if ok && Outstanding(log, Select) == Some(k) then LatestMailbox(log) else Mailbox(log)
            }
  {
    Snoc(log, Reply(k, ok));
    OpenOnlyLoggedIn(log);
    if Outstanding(log, Close) == Outstanding(log, Select) == Some(k) {
      LatestKind(log, Close, Select);
    }
  }

  // ---------------------------------------------------------------- Tags and the commands they name

  /** Fewer than 65536 commands are sent between a command and its reply. */
  predicate Window(log: seq<Entry>) {
    forall k: nat :: k < Sends(log) && !Answered(log, k) ==> Sends(log) <= k + TAGS
  }

  /** Comparing a tag with the one kept for a kind of command tells whether the reply is to it. */
  lemma TagMeans(log: seq<Entry>, kind: Kind, tag: string)
    requires Window(log) && tag != ""
    ensures tag == TagText(Outstanding(log, kind)) <==>
            Resolve(tag, Sends(log)).Some? && Outstanding(log, kind) == Resolve(tag, Sends(log))
  {
    if Outstanding(log, kind).Some? {
      ResolveRecent(Outstanding(log, kind).value, Sends(log));
    }
  }

  /** The tags of those of the commands that have no reply yet */
  function Pending(log: seq<Entry>, mine: seq<nat>): seq<string> {
    if mine == [] then []
    else
      var rest := Pending(log, mine[1..]);
      if Answered(log, mine[0]) then rest else [TagOf(mine[0])] + rest
  }

  predicate AllSent(log: seq<Entry>, mine: seq<nat>) {
    forall i :: 0 <= i < |mine| ==> mine[i] < Sends(log)
  }

  lemma {:induction false} PendingNone(log: seq<Entry>, mine: seq<nat>)
    ensures Pending(log, mine) == [] <==> forall i :: 0 <= i < |mine| ==> Answered(log, mine[i])
  {
    if mine != [] {
      PendingNone(log, mine[1..]);
      assert forall i :: 0 < i < |mine| ==> mine[i] == mine[1..][i - 1];
      assert forall i :: 0 <= i < |mine| - 1 ==> mine[1..][i] == mine[i + 1];
    }
  }

  lemma {:induction false} PendingOthers(log: seq<Entry>, e: Entry, mine: seq<nat>)
    requires !e.Reply?
    ensures Pending(log + [e], mine) == Pending(log, mine)
  {
    Snoc(log, e);
    if mine != [] {
      PendingOthers(log, e, mine[1..]);
    }
  }

  lemma {:induction false} PendingSend(log: seq<Entry>, mine: seq<nat>, k: nat)
    requires !Answered(log, k)
    ensures Pending(log, mine + [k]) == Pending(log, mine) + [TagOf(k)]
  {
    if mine == [] {
      assert [] + [k] == [k];
    } else {
      PendingSend(log, mine[1..], k);
      assert (mine + [k])[1..] == mine[1..] + [k];
    }
  }

  lemma RemovedHead(t: string, rest: seq<string>, tag: string)
    ensures Removed([t] + rest, tag) == if t == tag then Removed(rest, tag) else [t] + Removed(rest, tag)
  {
    assert ([t] + rest)[1..] == rest;
  }

  lemma AnsweredReply(log: seq<Entry>, j: nat, k: nat, ok: bool)
    ensures Answered(log + [Reply(k, ok)], j) <==> j == k || Answered(log, j)
  {
    Snoc(log, Reply(k, ok));
  }

  /** A reply removes exactly its command from what a job waits for. */
  lemma {:induction false} PendingReply(log: seq<Entry>, mine: seq<nat>, k: nat, ok: bool)
    requires Window(log) && AllSent(log, mine) && k < Sends(log) && Resolve(TagOf(k), Sends(log)) == Some(k)
    ensures Pending(log + [Reply(k, ok)], mine) == Removed(Pending(log, mine), TagOf(k))
  {
    if mine != [] {
      PendingReply(log, mine[1..], k, ok);
      AnsweredReply(log, mine[0], k, ok);
      if !Answered(log, mine[0]) {
        ResolveRecent(mine[0], Sends(log));
        RemovedHead(TagOf(mine[0]), Pending(log, mine[1..]), TagOf(k));
      }
    }
  }

  lemma {:induction false} PendingStranger(log: seq<Entry>, mine: seq<nat>, tag: string)
    requires Window(log) && AllSent(log, mine) && Resolve(tag, Sends(log)).None?
    ensures tag !in Pending(log, mine)
  {
    if mine != [] {
      PendingStranger(log, mine[1..], tag);
      if !Answered(log, mine[0]) {
        ResolveRecent(mine[0], Sends(log));
      }
    }
  }

  /** Nothing but commands was added. */
  predicate OnlySends(a: seq<Entry>, b: seq<Entry>) {
    a <= b && forall i :: |a| <= i < |b| ==> b[i].Sent?
  }

  lemma {:induction false} OnlySendsAnswers(a: seq<Entry>, b: seq<Entry>, k: nat)
    requires OnlySends(a, b)
    ensures Answered(b, k) <==> Answered(a, k)
    decreases |b|
  {
    if a != b {
      assert Last(b).Sent? && OnlySends(a, Init(b));
      OnlySendsAnswers(a, Init(b), k);
    }
  }

  lemma {:induction false} OnlySendsPhase(a: seq<Entry>, b: seq<Entry>)
    requires OnlySends(a, b)
    ensures OpenMailbox(b) == OpenMailbox(a) && Phase(b) == Phase(a) && (LoggedIn(b) <==> LoggedIn(a))
    decreases |b|
  {
    if a != b {
      assert Last(b).Sent? && OnlySends(a, Init(b));
      OnlySendsPhase(a, Init(b));
    }
  }
}
