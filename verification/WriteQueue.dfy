/** The outbound queue of an ELK-M1 link as an interleaved step system
    (custom_components/elkm1/helpers/elk/connection.py, and the reply correlation of
    custom_components/elkm1/helpers/transport.py). Each stretch of the writer task between two
    awaits, and each call of another task, is one atomic step. */
module WriteQueue {
  import opened Bytes

  /** A queued command. `reply` is "" for one that expects none. `tag` numbers the accepted
      commands and is not in the source; it tells equal commands apart. */
  datatype Entry = Entry(tag: nat, msg: string, reply: string, priority: bool)

  /** Where the writer task is: about to run, waiting for the queue event, waiting for a
      reply, or gone. */
  datatype Task = Ready | OnQueue | OnReply | Ended

  /** What an observer of the transport sees, in order. */
  datatype Note = Wrote(e: Entry) | Heard(cmd: string) | Released(answered: bool)

  datatype Link = Link(
    queue: seq<Entry>,
    writer: bool,
    paused: bool,
    wake: bool,
    responded: bool,
    awaiting: Option<string>,
    task: Task,
    accepted: nat,
    written: seq<Entry>,
    dropped: seq<Entry>,
    log: seq<Note>)

  /** A stream that has just been opened, with nothing queued or awaited. */
  const OPENED := Link([], true, false, false, false, None, Ready, 0, [], [], [])

  datatype Event =
    | Send(msg: string, reply: string, priority: bool)
    | Pause
    | Resume
    | Frame(cmd: string)
    | RunTask
    | Timeout
    | Disconnect
    | CancelTasks
    | CloseWriter

  // ---- The writer task ----

  /** The loop of `_write_stream` from its head to the next await that blocks. */
  function Drain(l: Link): Link
    decreases |l.queue|, l.wake
  {
    if l.queue == [] && !l.wake then l.(task := OnQueue)
    else if !l.writer then l.(task := Ended)
    else if l.queue == [] then Drain(l.(wake := false))
    else
      var e := l.queue[0];
      var w := l.(wake := false, queue := l.queue[1..], written := l.written + [e], log := l.log + [Wrote(e)]);
      if e.reply == "" then Drain(w)
      else if l.responded then Drain(Release(w, true))
      else w.(awaiting := Some(e.reply), task := OnReply)
  }

  /** The end of `await_msg_response`. */
  function Release(l: Link, answered: bool): Link {
    l.(responded := false, awaiting := None, log := l.log + [Released(answered)])
  }

  predicate Runnable(l: Link) {
    match l.task
    case Ready => true
    case OnQueue => l.wake
    case OnReply => l.responded
    case Ended => false
  }

  /** One step; an event that cannot happen, or a send that is refused, changes nothing. */
  function Next(l: Link, ev: Event): Link {
    match ev
    case Send(msg, reply, priority) =>
      if l.paused || !l.writer then l
      else
        var e := Entry(l.accepted, msg, reply, priority);
        l.(queue := if priority then [e] + l.queue else l.queue + [e], wake := true, accepted := l.accepted + 1)
    case Pause => l.(queue := [], dropped := l.dropped + l.queue, paused := true)
    case Resume => l.(paused := false)
    case Frame(cmd) =>
      if l.awaiting == Some(cmd) then l.(responded := true, log := l.log + [Heard(cmd)]) else l
    case RunTask =>
      if !Runnable(l) then l
      else if l.task == OnReply then Drain(Release(l, true))
      else Drain(l)
    case Timeout => if l.task == OnReply then Drain(Release(l, false)) else l
    case Disconnect => l.(writer := false, task := Ended)
    case CancelTasks => l.(task := Ended)
    case CloseWriter => if l.task == Ended then l.(writer := false) else l
  }

  function Run(l: Link, events: seq<Event>): Link
    decreases |events|
  {
    if events == [] then l else Run(Next(l, events[0]), events[1..])
  }

  // ---- The object ----

  class Connection {
    var queue: seq<Entry>
    var writer: bool
    var paused: bool
    var wake: bool
    var responded: bool
    var awaiting: Option<string>
    var task: Task
    ghost var accepted: nat
    ghost var written: seq<Entry>
    ghost var dropped: seq<Entry>
    ghost var log: seq<Note>

    constructor ()
      ensures Value() == OPENED
    {
      queue, writer, paused, wake, responded, awaiting, task := [], true, false, false, false, None, Ready;
      accepted, written, dropped, log := 0, [], [], [];
    }

    ghost function Value(): Link
      reads this
    {
      Link(queue, writer, paused, wake, responded, awaiting, task, accepted, written, dropped, log)
    }

    /** `send` with `_send`; `ok` is false where the source raises. */
    method Send(tag: nat, msg: string, reply: string, priority: bool) returns (ok: bool)
      requires tag == accepted
      modifies this
      ensures Value() == Next(old(Value()), Event.Send(msg, reply, priority))
      ensures ok == (!old(paused) && old(writer))
    {
      if paused || !writer {
        return false;
      }
      var e := Entry(tag, msg, reply, priority);
      if priority {
        queue := [e] + queue;
      } else {
        queue := queue + [e];
      }
      wake := true;
      accepted := accepted + 1;
      return true;
    }

    method Pause()
      modifies this
      ensures Value() == Next(old(Value()), Event.Pause)
    {
      dropped := dropped + queue;
      queue := [];
      paused := true;
    }

    method Resume()
      modifies this
      ensures Value() == Next(old(Value()), Event.Resume)
    {
      paused := false;
    }

    /** The reader's correlation: only the awaited command releases the writer. */
    method Received(cmd: string)
      modifies this
      ensures Value() == Next(old(Value()), Frame(cmd))
    {
      if awaiting == Some(cmd) {
        responded := true;
        log := log + [Heard(cmd)];
      }
    }

    /** `disconnect` closes the writer and cancels the tasks in one step. */
    method Disconnect()
      modifies this
      ensures Value() == Next(old(Value()), Event.Disconnect)
    {
      writer := false;
      task := Ended;
    }

    /** The first half of `_async_close_transport`: the tasks are gone, the writer is still there and
        accepts commands. */
    method CancelTasks()
      modifies this
      ensures Value() == Next(old(Value()), Event.CancelTasks)
    {
      task := Ended;
    }

    /** The second half. */
    method CloseWriter()
      modifies this
      ensures Value() == Next(old(Value()), Event.CloseWriter)
    {
      if task == Ended {
        writer := false;
      }
    }

    method ReleaseReply(answered: bool)
      modifies this
      ensures Value() == Release(old(Value()), answered)
    {
      responded := false;
      awaiting := None;
      log := log + [Released(answered)];
    }

    /** `popleft` and `write_msg`. */
    method WriteHead() returns (e: Entry)
      requires queue != []
      modifies this
      ensures var l := old(Value());
              e == l.queue[0] && Value() ==
              l.(wake := false, queue := l.queue[1..], written := l.written + [e], log := l.log + [Wrote(e)])
    {
      wake := false;
      e := queue[0];
      queue := queue[1..];
      written := written + [e];
      log := log + [Wrote(e)];
    }

    /** `_write_stream` from its loop head until it blocks or ends. */
    method DrainQueue()
      modifies this
      ensures Value() == Drain(old(Value()))
    {
      while true
        invariant Drain(Value()) == Drain(old(Value()))
        decreases |queue|, wake
      {
        if queue == [] && !wake {
          task := OnQueue;
          return;
        }
        if !writer {
          task := Ended;
          return;
        }
        if queue == [] {
          wake := false;
          continue;
        }
        var e := WriteHead();
        if e.reply != "" {
          if !responded {
            awaiting := Some(e.reply);
            task := OnReply;
            return;
          }
          ReleaseReply(true);
        }
      }
    }

    /** The scheduler runs the writer task, if it can run. */
    method Resumed()
      modifies this
      ensures Value() == Next(old(Value()), RunTask)
    {
      if task == Ready || (task == OnQueue && wake) {
        DrainQueue();
      } else if task == OnReply && responded {
        ReleaseReply(true);
        DrainQueue();
      }
    }

    /** The wait for a reply times out. */
    method TimedOut()
      modifies this
      ensures Value() == Next(old(Value()), Event.Timeout)
    {
      if task == OnReply {
        ReleaseReply(false);
        DrainQueue();
      }
    }
  }

  // ---- Invariants ----

  function Tags(entries: seq<Entry>): (r: seq<nat>)
    ensures |r| == |entries|
    ensures forall i | 0 <= i < |r| :: r[i] == entries[i].tag
  {
    seq(|entries|, i requires 0 <= i < |entries| => entries[i].tag)
  }

  function Numbers(n: nat): (r: seq<nat>)
    ensures |r| == n
  {
    seq(n, i => i)
  }

  /** Every accepted command is exactly one of written, queued or dropped, exactly once. */
  predicate Conserved(l: Link) {
    multiset(Tags(l.written)) + multiset(Tags(l.queue)) + multiset(Tags(l.dropped)) == multiset(Numbers(l.accepted))
  }

  /** The flags of the writer task agree with each other. */
  predicate Coherent(l: Link) {
    && (l.responded ==> l.awaiting.Some?)
    && (l.task == OnReply ==> l.awaiting.Some?)
    && (l.awaiting.Some? ==> l.task == OnReply || l.task == Ended)
    && (l.task == OnQueue && l.queue != [] ==> l.wake)
    && (l.paused ==> l.queue == [])
    && (!l.writer ==> l.task == Ended)
  }

  /** Commands without priority stay in the order in which they were accepted. */
  predicate InOrder(entries: seq<Entry>, bound: nat) {
    && (forall i | 0 <= i < |entries| :: entries[i].tag < bound)
    && forall i, k | 0 <= i < k < |entries| && !entries[i].priority && !entries[k].priority ::
         entries[i].tag < entries[k].tag
  }

  predicate Ordered(l: Link) {
    InOrder(l.written + l.queue, l.accepted)
  }

  // The stop-and-wait protocol an observer should see.
  datatype Phase = Idle | Waiting(cmd: string, heard: bool)

  /** The observer's automaton: after a command that expects a reply nothing is written until
      the wait is released, and it is released as answered only if the reply was heard. None
      means the log breaks the protocol. */
  function Observe(p: Option<Phase>, n: Note): Option<Phase> {
    match p
    case None => None
    case Some(Idle) =>
      (match n
       case Wrote(e) => Some(if e.reply == "" then Idle else Waiting(e.reply, false))
       case Heard(_) => Some(Idle)
       case Released(_) => None)
    case Some(Waiting(cmd, heard)) =>
      (match n
       case Wrote(_) => None
       case Heard(c) => if c == cmd then Some(Waiting(cmd, true)) else None
       case Released(answered) => if answered && !heard then None else Some(Idle))
  }

  function Replay(log: seq<Note>): Option<Phase>
    decreases |log|
  {
    if log == [] then Some(Idle) else Observe(Replay(log[..|log| - 1]), log[|log| - 1])
  }

  function PhaseOf(l: Link): Phase {
    if l.awaiting.Some? then Waiting(l.awaiting.value, l.responded) else Idle
  }

  predicate FollowsProtocol(l: Link) {
    Replay(l.log) == Some(PhaseOf(l))
  }

  predicate Invariant(l: Link) {
    Conserved(l) && Coherent(l) && Ordered(l) && FollowsProtocol(l)
  }

  lemma ReplaySnoc(log: seq<Note>, n: Note)
    ensures Replay(log + [n]) == Observe(Replay(log), n)
  {
    assert (log + [n])[..|log|] == log;
  }

  lemma TagsConcat(a: seq<Entry>, b: seq<Entry>)
    ensures Tags(a + b) == Tags(a) + Tags(b)
  {}

  lemma MoveTag(a: seq<nat>, x: nat, b: seq<nat>)
    ensures multiset(a + [x]) + multiset(b) == multiset(a) + multiset([x] + b)
  {}

  lemma TagsOfHead(q: seq<Entry>)
    requires q != []
    ensures Tags(q) == [q[0].tag] + Tags(q[1..])
  {}

  lemma TagsOfLast(a: seq<Entry>, e: Entry)
    ensures Tags(a + [e]) == Tags(a) + [e.tag]
  {}

  /** Moving the head of the queue to the end of what was written. */
  lemma PopConserves(a: seq<Entry>, q: seq<Entry>)
    requires q != []
    ensures multiset(Tags(a + [q[0]])) + multiset(Tags(q[1..])) == multiset(Tags(a)) + multiset(Tags(q))
  {
    TagsOfHead(q);
    TagsOfLast(a, q[0]);
    MoveTag(Tags(a), q[0].tag, Tags(q[1..]));
  }

  lemma MoveHead(a: seq<Entry>, q: seq<Entry>)
    requires q != []
    ensures a + [q[0]] + q[1..] == a + q
  {}

  /** The part of the invariant that holds while the writer task runs: no reply is pending. */
  predicate Running(l: Link) {
    && Conserved(l) && Ordered(l) && FollowsProtocol(l)
    && l.awaiting.None? && !l.responded
    && (l.paused ==> l.queue == [])
    && l.writer
  }

  lemma WriteKeepsRunning(l: Link, e: Entry, w: Link)
    requires Running(l) && l.queue != [] && e == l.queue[0]
    requires w == l.(wake := false, queue := l.queue[1..], written := l.written + [e], log := l.log + [Wrote(e)])
    ensures Conserved(w) && Ordered(w) && !w.paused
    ensures Replay(w.log) == Some(if e.reply == "" then Idle else Waiting(e.reply, false))
  {
    PopConserves(l.written, l.queue);
    MoveHead(l.written, l.queue);
    ReplaySnoc(l.log, Wrote(e));
  }

  /** Draining keeps the invariant and never blocks on a non-empty queue: with an open transport
      it stops only with an empty queue and no pending wake-up, or to wait for a reply. */
  lemma {:induction false} DrainKeepsInvariant(l: Link)
    requires Running(l)
    ensures Invariant(Drain(l))
    ensures var d := Drain(l);
            && (d.task == OnQueue ==> d.queue == [] && !d.wake)
            && (d.task == OnQueue || d.task == OnReply)
    decreases |l.queue|, l.wake
  {
    if l.queue == [] && !l.wake {
    } else if l.queue == [] {
      DrainKeepsInvariant(l.(wake := false));
    } else {
      var e := l.queue[0];
      var w := l.(wake := false, queue := l.queue[1..], written := l.written + [e], log := l.log + [Wrote(e)]);
      WriteKeepsRunning(l, e, w);
      if e.reply == "" { DrainKeepsInvariant(w); }
    }
  }

  lemma ReleaseRuns(l: Link, answered: bool)
    requires Invariant(l) && l.task == OnReply && (answered ==> l.responded)
    ensures Running(Release(l, answered))
  {
    ReplaySnoc(l.log, Released(answered));
  }

  lemma NumbersSnoc(n: nat)
    ensures Numbers(n + 1) == Numbers(n) + [n]
  {}

  function Enqueued(q: seq<Entry>, e: Entry): seq<Entry> {
    if e.priority then [e] + q else q + [e]
  }

  lemma EnqueuedTags(q: seq<Entry>, e: Entry)
    ensures multiset(Tags(Enqueued(q, e))) == multiset(Tags(q)) + multiset([e.tag])
  {
    TagsConcat(q, [e]);
    TagsConcat([e], q);
    assert Tags([e]) == [e.tag];
  }

  /** Queueing the next accepted command, with the state it leads to. */
  predicate Sent(l: Link, e: Entry, n: Link) {
    && e.tag == l.accepted
    && n == l.(queue := Enqueued(l.queue, e), wake := true, accepted := l.accepted + 1)
  }

  lemma SendConserves(l: Link, e: Entry, n: Link)
    requires Conserved(l) && Sent(l, e, n)
    ensures Conserved(n)
  {
    NumbersSnoc(l.accepted);
    EnqueuedTags(l.queue, e);
  }

  lemma AppendKeepsOrder(s: seq<Entry>, e: Entry)
    requires InOrder(s, e.tag)
    ensures InOrder(s + [e], e.tag + 1)
  {}

  lemma InsertKeepsOrder(a: seq<Entry>, b: seq<Entry>, e: Entry)
    requires InOrder(a + b, e.tag) && e.priority
    ensures InOrder(a + [e] + b, e.tag + 1)
  {
    var old', now := a + b, a + [e] + b;
    forall i | 0 <= i < |now| ensures now[i].tag < e.tag + 1 {
      assert i < |a| ==> now[i] == old'[i];
      assert i > |a| ==> now[i] == old'[i - 1];
    }
    forall i, k | 0 <= i < k < |now| && !now[i].priority && !now[k].priority ensures now[i].tag < now[k].tag {
      var i', k' := if i < |a| then i else i - 1, if k < |a| then k else k - 1;
      assert now[i] == old'[i'] && now[k] == old'[k'];
    }
  }

  lemma SendKeepsOrder(l: Link, e: Entry, n: Link)
    requires Ordered(l) && Sent(l, e, n)
    ensures Ordered(n)
  {
    if e.priority {
      InsertKeepsOrder(l.written, l.queue, e);
      assert l.written + ([e] + l.queue) == l.written + [e] + l.queue;
    } else {
      AppendKeepsOrder(l.written + l.queue, e);
      assert l.written + (l.queue + [e]) == l.written + l.queue + [e];
    }
  }

  lemma SentKeepsInvariant(l: Link, e: Entry, n: Link)
    requires Invariant(l) && !l.paused && Sent(l, e, n)
    ensures Invariant(n)
  {
    SendConserves(l, e, n);
    SendKeepsOrder(l, e, n);
  }

  lemma SendKeepsInvariant(l: Link, msg: string, reply: string, priority: bool)
    requires Invariant(l)
    ensures Invariant(Next(l, Send(msg, reply, priority)))
  {
    if !l.paused && l.writer {
      SentKeepsInvariant(l, Entry(l.accepted, msg, reply, priority), Next(l, Send(msg, reply, priority)));
    }
  }

  lemma PauseKeepsInvariant(l: Link)
    requires Invariant(l)
    ensures Invariant(Next(l, Pause))
  {
    TagsConcat(l.dropped, l.queue);
    assert l.written + [] == l.written;
    var all := l.written + l.queue;
    assert forall i | 0 <= i < |l.written| :: l.written[i] == all[i];
  }

  lemma TaskKeepsInvariant(l: Link)
    requires Invariant(l)
    ensures Invariant(Next(l, RunTask))
  {
    if Runnable(l) {
      if l.task == OnReply {
        ReleaseRuns(l, true);
        DrainKeepsInvariant(Release(l, true));
      } else {
        DrainKeepsInvariant(l);
      }
    }
  }

  lemma TimeoutKeepsInvariant(l: Link)
    requires Invariant(l)
    ensures Invariant(Next(l, Timeout))
  {
    if l.task == OnReply {
      ReleaseRuns(l, false);
      DrainKeepsInvariant(Release(l, false));
    }
  }

  lemma StepKeepsInvariant(l: Link, ev: Event)
    requires Invariant(l)
    ensures Invariant(Next(l, ev))
  {
    match ev
    case Send(msg, reply, priority) => SendKeepsInvariant(l, msg, reply, priority);
    case Pause => PauseKeepsInvariant(l);
    case Resume =>
    case Frame(cmd) => ReplaySnoc(l.log, Heard(cmd));
    case RunTask => TaskKeepsInvariant(l);
    case Timeout => TimeoutKeepsInvariant(l);
    case Disconnect =>
    case CancelTasks =>
    case CloseWriter =>
  }

  /** Over every interleaving of sends, pauses, replies, timeouts and task steps from a freshly
      opened stream: accepted commands are conserved, ordinary commands keep their order, the
      flags stay coherent, and the transport sees a stop-and-wait protocol. */
  lemma {:induction false} EveryRunKeepsInvariant(l: Link, events: seq<Event>)
    requires Invariant(l)
    ensures Invariant(Run(l, events))
    decreases |events|
  {
    if events != [] {
      StepKeepsInvariant(l, events[0]);
      EveryRunKeepsInvariant(Next(l, events[0]), events[1..]);
    }
  }

  lemma OpenedInvariant()
    ensures Invariant(OPENED)
  {
    assert Numbers(0) == [];
  }

  /** The safety properties of any run, spelled out. */
  lemma WriteQueueSafety(events: seq<Event>)
    ensures var l := Run(OPENED, events);
            && multiset(Tags(l.written)) + multiset(Tags(l.queue)) + multiset(Tags(l.dropped)) ==
               multiset(Numbers(l.accepted))
            && InOrder(l.written + l.queue, l.accepted)
            && Replay(l.log).Some?
            && (l.responded ==> l.awaiting.Some?)
            && (l.task == OnQueue && l.queue != [] ==> Runnable(l))
  {
    OpenedInvariant();
    EveryRunKeepsInvariant(OPENED, events);
  }

  /** While the panel is paused, or while a reply is awaited and neither it nor a timeout has
      come, no step writes anything. */
  lemma SilentSteps(l: Link, ev: Event)
    requires Invariant(l)
    ensures l.paused && ev != Resume ==> Next(l, ev).written == l.written
    ensures l.task == OnReply && !l.responded && ev != Timeout ==> Next(l, ev).written == l.written
  {
    if l.paused && (ev == RunTask || ev == Timeout) {
      if l.task == OnReply {
        DrainEmpty(Release(l, ev == RunTask));
      } else {
        DrainEmpty(l);
      }
    }
  }

  lemma DrainEmpty(l: Link)
    requires l.queue == []
    ensures Drain(l).written == l.written
  {
    if l.wake && l.writer { assert Drain(l) == Drain(l.(wake := false)); }
  }

  /** A runnable writer with an open transport and commands queued writes at least one of them:
      no wake-up is lost. */
  lemma RunnableWriterProgresses(l: Link)
    requires Invariant(l) && l.writer && l.queue != [] && Runnable(l)
    ensures l.written + [l.queue[0]] <= Next(l, RunTask).written
  {
    if l.task == OnReply {
      DrainWrites(Release(l, true));
    } else {
      DrainWrites(l);
    }
  }

  lemma {:induction false} DrainExtends(l: Link)
    ensures l.written <= Drain(l).written
    decreases |l.queue|, l.wake
  {
    if (l.queue != [] || l.wake) && l.writer {
      if l.queue == [] {
        DrainExtends(l.(wake := false));
      } else {
        var e := l.queue[0];
        var w := l.(wake := false, queue := l.queue[1..], written := l.written + [e], log := l.log + [Wrote(e)]);
        if e.reply == "" {
          DrainExtends(w);
        } else if l.responded {
          DrainExtends(Release(w, true));
        }
      }
    }
  }

  lemma DrainWrites(l: Link)
    requires l.writer && l.queue != []
    ensures l.written + [l.queue[0]] <= Drain(l).written
  {
    var e := l.queue[0];
    var w := l.(wake := false, queue := l.queue[1..], written := l.written + [e], log := l.log + [Wrote(e)]);
    if e.reply == "" {
      DrainExtends(w);
    } else if l.responded {
      DrainExtends(Release(w, true));
    }
  }

  // ---- Across streams ----

  /** The supervisor opens a new stream on the same connection object, however the old one was
      closed; an observer of the new stream starts with an empty log. */
  function Reopened(l: Link): Link {
    Next(l, Disconnect).(writer := true, task := Ready, log := [])
  }

  function Writes(entries: seq<Entry>): (r: seq<Note>)
    ensures |r| == |entries|
  {
    seq(|entries|, i requires 0 <= i < |entries| => Wrote(entries[i]))
  }

  /** Commands that are written and not waited for. */
  predicate Plain(entries: seq<Entry>) {
    forall i | 0 <= i < |entries| :: entries[i].reply == ""
  }

  lemma {:induction false} DrainExtendsLog(l: Link)
    ensures l.log <= Drain(l).log
    decreases |l.queue|, l.wake
  {
    if (l.queue != [] || l.wake) && l.writer {
      if l.queue == [] {
        DrainExtendsLog(l.(wake := false));
      } else {
        var e := l.queue[0];
        var w := l.(wake := false, queue := l.queue[1..], written := l.written + [e], log := l.log + [Wrote(e)]);
        if e.reply == "" {
          DrainExtendsLog(w);
        } else if l.responded {
          DrainExtendsLog(Release(w, true));
        }
      }
    }
  }

  lemma DrainPlainHead(l: Link, w: Link)
    requires l.writer && l.queue != [] && l.queue[0].reply == ""
    requires w == l.(wake := false, queue := l.queue[1..], written := l.written + [l.queue[0]],
                     log := l.log + [Wrote(l.queue[0])])
    ensures Drain(l) == Drain(w)
  {}

  /** Draining up to the first command that expects a reply: without a response pending the
      task waits for that reply; with one pending the command is released at once. */
  lemma {:induction false} DrainToFirstWait(l: Link, plain: seq<Entry>, e: Entry, rest: seq<Entry>)
    requires l.writer && l.queue == plain + [e] + rest && Plain(plain) && e.reply != ""
    ensures !l.responded ==>
              Drain(l) == l.(wake := false, queue := rest, written := l.written + plain + [e],
                             log := l.log + Writes(plain + [e]), awaiting := Some(e.reply), task := OnReply)
    ensures l.responded ==> l.log + Writes(plain + [e]) + [Released(true)] <= Drain(l).log
    decreases |plain|
  {
    var w := l.(wake := false, queue := l.queue[1..], written := l.written + [l.queue[0]],
                log := l.log + [Wrote(l.queue[0])]);
    if plain == [] {
      assert l.queue[0] == e && l.queue[1..] == rest;
      assert Writes(plain + [e]) == [Wrote(e)] && plain + [e] == [e] && l.written + plain == l.written;
      if l.responded { DrainExtendsLog(Release(w, true)); }
    } else {
      assert l.queue[0] == plain[0] && l.queue[1..] == plain[1..] + [e] + rest;
      DrainPlainHead(l, w);
      DrainToFirstWait(w, plain[1..], e, rest);
      assert Writes(plain + [e]) == [Wrote(plain[0])] + Writes(plain[1..] + [e]);
      assert l.log + [Wrote(plain[0])] + Writes(plain[1..] + [e]) == l.log + Writes(plain + [e]);
      assert l.written + [plain[0]] + plain[1..] == l.written + plain;
    }
  }

  /** What a stale awaited command does to the new stream. If the old reply never comes, nothing:
      the first command that expects a reply is written and waited for as usual. If it comes
      before that command is written, or had come before the disconnect, the command is released
      as answered before any reply to it was heard. */
  lemma StaleReplyReleasesNextCommand(l: Link, plain: seq<Entry>, e: Entry, rest: seq<Entry>)
    requires Invariant(l) && l.awaiting.Some?
    requires l.queue == plain + [e] + rest && Plain(plain) && e.reply != ""
    ensures var anew, cmd := Reopened(l), l.awaiting.value;
            var silent, late := Next(anew, RunTask), Next(Next(anew, Frame(cmd)), RunTask);
            && (!l.responded ==>
                  silent.log == Writes(plain + [e]) && silent.queue == rest
                  && silent.task == OnReply && silent.awaiting == Some(e.reply) && !silent.responded)
            && (l.responded ==> Writes(plain + [e]) + [Released(true)] <= silent.log)
            && [Heard(cmd)] + Writes(plain + [e]) + [Released(true)] <= late.log
  {
    var anew := Reopened(l);
    DrainToFirstWait(anew, plain, e, rest);
    LogFromEmpty(Writes(plain + [e]));
    LateReplyReleases(anew, plain, e, rest, l.awaiting.value);
  }

  lemma LogFromEmpty(notes: seq<Note>)
    ensures [] + notes == notes
  {}

  lemma LateReplyReleases(anew: Link, plain: seq<Entry>, e: Entry, rest: seq<Entry>, cmd: string)
    requires anew.writer && anew.task == Ready && anew.log == [] && anew.awaiting == Some(cmd)
    requires anew.queue == plain + [e] + rest && Plain(plain) && e.reply != ""
    ensures [Heard(cmd)] + Writes(plain + [e]) + [Released(true)] <= Next(Next(anew, Frame(cmd)), RunTask).log
  {
    LogFromEmpty([Heard(cmd)]);
    DrainToFirstWait(Next(anew, Frame(cmd)), plain, e, rest);
  }

  lemma {:induction false} BrokenStaysBroken(log: seq<Note>, longer: seq<Note>)
    requires log <= longer && Replay(log).None?
    ensures Replay(longer).None?
    decreases |longer|
  {
    if log != longer {
      assert log <= longer[..|longer| - 1];
      BrokenStaysBroken(log, longer[..|longer| - 1]);
    }
  }

  /** A command written and released as answered with nothing heard in between. */
  lemma UnheardRelease(before: seq<Note>, e: Entry)
    requires Replay(before) == Some(Idle) && e.reply != ""
    ensures Replay(before + [Wrote(e)] + [Released(true)]).None?
  {
    ReplaySnoc(before, Wrote(e));
    ReplaySnoc(before + [Wrote(e)], Released(true));
  }

  /** The run that exposes a stale awaited command. */
  const EXPOSING_REPLY := "VN"

  function Exposing(cmd: string): seq<Event> {
    [Resume, Frame(cmd), Send("vn", EXPOSING_REPLY, true), RunTask]
  }

  lemma RunFirst(l: Link, ev: Event, rest: seq<Event>)
    ensures Run(l, [ev] + rest) == Run(Next(l, ev), rest)
  {
    assert ([ev] + rest)[1..] == rest;
  }

  lemma RunFour(l: Link, a: Event, b: Event, c: Event, d: Event)
    ensures Run(l, [a, b, c, d]) == Next(Next(Next(Next(l, a), b), c), d)
  {
    assert [a, b, c, d] == [a] + ([b] + ([c] + ([d] + [])));
    RunFirst(l, a, [b] + ([c] + ([d] + [])));
    RunFirst(Next(l, a), b, [c] + ([d] + []));
    RunFirst(Next(Next(l, a), b), c, [d] + []);
    RunFirst(Next(Next(Next(l, a), b), c), d, []);
  }

  lemma StaleIsExposed(l: Link)
    requires Invariant(l) && l.awaiting.Some?
    ensures Replay(Run(Reopened(l), Exposing(l.awaiting.value)).log).None?
  {
    var cmd := l.awaiting.value;
    var sent := Next(Next(Next(Reopened(l), Resume), Frame(cmd)), Send("vn", EXPOSING_REPLY, true));
    RunFour(Reopened(l), Resume, Frame(cmd), Send("vn", EXPOSING_REPLY, true), RunTask);
    ExposedOnceSent(l, sent, cmd);
  }

  lemma ExposedOnceSent(l: Link, sent: Link, cmd: string)
    requires l.awaiting == Some(cmd)
    requires sent == Next(Next(Next(Reopened(l), Resume), Frame(cmd)), Send("vn", EXPOSING_REPLY, true))
    ensures Replay(Next(sent, RunTask).log).None?
  {
    var e := Entry(l.accepted, "vn", EXPOSING_REPLY, true);
    LogFromEmpty([Heard(cmd)]);
    assert sent.queue == [] + [e] + l.queue && sent.log == [Heard(cmd)] && sent.task == Ready;
    DrainToFirstWait(sent, [], e, l.queue);
    assert Writes([] + [e]) == [Wrote(e)];
    ExposedLog(cmd, e, Drain(sent).log);
  }

  lemma ExposedLog(cmd: string, e: Entry, log: seq<Note>)
    requires e.reply != "" && [Heard(cmd)] + [Wrote(e)] + [Released(true)] <= log
    ensures Replay(log).None?
  {
    LogFromEmpty([Heard(cmd)]);
    ReplaySnoc([], Heard(cmd));
    UnheardRelease([Heard(cmd)], e);
    BrokenStaysBroken([Heard(cmd)] + [Wrote(e)] + [Released(true)], log);
  }

  /** A new stream follows the stop-and-wait protocol in every run if and only if no reply was
      awaited at the disconnect: cancelling the writer during the wait skips the lines that clear
      the awaited command. Commands are conserved and kept in order across streams either way. */
  lemma NewStreamFollowsProtocolIff(l: Link)
    requires Invariant(l)
    ensures Conserved(Reopened(l)) && Ordered(Reopened(l))
    ensures (forall events :: Replay(Run(Reopened(l), events).log).Some?) <==> l.awaiting.None?
  {
    if l.awaiting.None? {
      forall events ensures Replay(Run(Reopened(l), events).log).Some? {
        EveryRunKeepsInvariant(Reopened(l), events);
      }
    } else {
      StaleIsExposed(l);
    }
  }
}
