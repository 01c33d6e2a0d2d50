/** What the runs of the outbound queue do, told from the events alone
    (custom_components/elkm1/helpers/elk/connection.py): which sends are accepted, which command every
    entry is, where it stands, and what releases the writer. */
module WriteQueueRuns {
  import opened Bytes
  import opened WriteQueue

  // ---- Acceptance, from the events ----

  predicate PausedAfter(events: seq<Event>) {
    exists i | 0 <= i < |events| :: events[i] == Pause && Event.Resume !in events[i + 1..]
  }

  /** The writer goes with a disconnect, or in two halves with the tasks first. */
  predicate ClosedAfter(events: seq<Event>) {
    || Disconnect in events
    || exists i | 0 <= i < |events| :: events[i] == CloseWriter && CancelTasks in events[..i]
  }

  predicate AcceptedSend(events: seq<Event>, i: nat)
    requires i < |events|
  {
    events[i].Send? && !PausedAfter(events[..i]) && !ClosedAfter(events[..i])
  }

  /** How many sends are accepted. */
  function Accepts(events: seq<Event>): nat {
    if events == [] then 0
    else
      var n := |events| - 1;
      Accepts(events[..n]) + if AcceptedSend(events, n) then 1 else 0
  }

  /** The entry is the accepted send that its tag numbers, with that send's text, reply and
      priority. */
  predicate IsSend(e: Entry, events: seq<Event>) {
    exists i | 0 <= i < |events| ::
      AcceptedSend(events, i) && events[i] == Send(e.msg, e.reply, e.priority) && e.tag == Accepts(events[..i])
  }

  predicate Holds(l: Link, e: Entry) {
    e in l.written || e in l.queue || e in l.dropped
  }

  // ---- Steps ----

  lemma {:induction false} RunLast(l: Link, events: seq<Event>, ev: Event)
    ensures Run(l, events + [ev]) == Next(Run(l, events), ev)
    decreases |events|
  {
    if events == [] {
      assert [] + [ev] == [ev] && [ev][1..] == [];
    } else {
      assert (events + [ev])[1..] == events[1..] + [ev];
      RunLast(Next(l, events[0]), events[1..], ev);
    }
  }

  lemma RunButLast(events: seq<Event>)
    requires events != []
    ensures Run(OPENED, events) == Next(Run(OPENED, events[..|events| - 1]), events[|events| - 1])
  {
    assert events[..|events| - 1] + [events[|events| - 1]] == events;
    RunLast(OPENED, events[..|events| - 1], events[|events| - 1]);
  }

  lemma {:induction false} DrainKeepsFlags(l: Link)
    requires l.writer
    ensures var d := Drain(l); d.writer && d.task != Ended && d.paused == l.paused && d.accepted == l.accepted
    decreases |l.queue|, l.wake
  {
    if l.queue != [] || l.wake {
      if l.queue == [] {
        DrainKeepsFlags(l.(wake := false));
      } else {
        var e := l.queue[0];
        var w := l.(wake := false, queue := l.queue[1..], written := l.written + [e], log := l.log + [Wrote(e)]);
        if e.reply == "" {
          DrainKeepsFlags(w);
        } else if l.responded {
          DrainKeepsFlags(Release(w, true));
        }
      }
    }
  }

  /** The writer task moves entries from the front of the queue to the end of what was written. */
  lemma {:induction false} DrainMoves(l: Link)
    ensures Drain(l).written + Drain(l).queue == l.written + l.queue
    ensures Drain(l).dropped == l.dropped
    decreases |l.queue|, l.wake
  {
    if (l.queue != [] || l.wake) && l.writer {
      if l.queue == [] {
        DrainMoves(l.(wake := false));
      } else {
        var e := l.queue[0];
        var w := l.(wake := false, queue := l.queue[1..], written := l.written + [e], log := l.log + [Wrote(e)]);
        MoveHead(l.written, l.queue);
        if e.reply == "" {
          DrainMoves(w);
        } else if l.responded {
          DrainMoves(Release(w, true));
        }
      }
    }
  }

  /** Nothing but an accepted send and a pause changes which entries there are, or their order. */
  lemma TaskMoves(l: Link, ev: Event)
    requires !ev.Send? && ev != Pause
    ensures Next(l, ev).written + Next(l, ev).queue == l.written + l.queue
    ensures Next(l, ev).dropped == l.dropped
  {
    if ev == RunTask || ev == Timeout {
      if l.task == OnReply {
        DrainMoves(Release(l, ev == RunTask));
      } else {
        DrainMoves(l);
      }
    }
  }

  lemma SameEntries(l: Link, n: Link)
    requires n.written + n.queue == l.written + l.queue && n.dropped == l.dropped
    ensures forall e | Holds(n, e) :: Holds(l, e)
  {
    forall e | Holds(n, e) ensures Holds(l, e) {
      assert e in n.written || e in n.queue ==> e in n.written + n.queue;
      assert e in l.written + l.queue ==> e in l.written || e in l.queue;
    }
  }

  lemma StepEntries(l: Link, ev: Event, e: Entry)
    requires Holds(Next(l, ev), e)
    ensures Holds(l, e) || (ev == Send(e.msg, e.reply, e.priority) && e.tag == l.accepted && !l.paused && l.writer)
  {
    if !ev.Send? && ev != Pause {
      TaskMoves(l, ev);
      SameEntries(l, Next(l, ev));
    }
  }

  // ---- The flags, from the events ----

  predicate FlagsTold(l: Link, events: seq<Event>) {
    && (l.paused <==> PausedAfter(events))
    && (l.writer <==> !ClosedAfter(events))
    && (l.task == Ended <==> ClosedAfter(events) || CancelTasks in events)
    && l.accepted == Accepts(events)
  }

  lemma PausedStep(events: seq<Event>, ev: Event)
    ensures PausedAfter(events + [ev]) <==> ev == Pause || (ev != Event.Resume && PausedAfter(events))
  {
    var all := events + [ev];
    assert all[|events|] == ev && all[|events| + 1..] == [];
    forall i | 0 <= i < |events| ensures all[i] == events[i] && all[i + 1..] == events[i + 1..] + [ev] {}
  }

  lemma ClosedStep(events: seq<Event>, ev: Event)
    ensures ClosedAfter(events + [ev]) <==>
              ClosedAfter(events) || ev == Disconnect || (ev == CloseWriter && CancelTasks in events)
  {
    var all := events + [ev];
    assert all[|events|] == ev && all[..|events|] == events;
    forall i | 0 <= i < |events| ensures all[i] == events[i] && all[..i] == events[..i] {}
  }

  lemma StepFlags(l: Link, ev: Event)
    requires !l.writer ==> l.task == Ended
    ensures var n := Next(l, ev);
            && (n.paused <==> ev == Pause || (ev != Event.Resume && l.paused))
            && (n.writer <==> l.writer && ev != Disconnect && !(ev == CloseWriter && l.task == Ended))
            && (n.task == Ended <==> l.task == Ended || ev == Disconnect || ev == CancelTasks)
            && n.accepted == l.accepted + if ev.Send? && !l.paused && l.writer then 1 else 0
  {
    if l.writer && (ev == RunTask || ev == Timeout) {
      if l.task == OnReply {
        DrainKeepsFlags(Release(l, ev == RunTask));
      } else {
        DrainKeepsFlags(l);
      }
    }
  }

  /** Whether the queue is paused, the transport open and the tasks gone, and how many sends were
      accepted, follows from the events. */
  lemma {:induction false} FlagsFollowEvents(events: seq<Event>)
    ensures FlagsTold(Run(OPENED, events), events)
    decreases |events|
  {
    if events != [] {
      var front, ev := events[..|events| - 1], events[|events| - 1];
      assert front + [ev] == events;
      FlagsFollowEvents(front);
      RunButLast(events);
      StepFlags(Run(OPENED, front), ev);
      PausedStep(front, ev);
      ClosedStep(front, ev);
    }
  }

  // ---- What the entries are ----

  lemma StaysSend(e: Entry, front: seq<Event>, ev: Event)
    requires IsSend(e, front)
    ensures IsSend(e, front + [ev])
  {
    var i :| 0 <= i < |front| && AcceptedSend(front, i) && front[i] == Send(e.msg, e.reply, e.priority)
             && e.tag == Accepts(front[..i]);
    assert (front + [ev])[i] == front[i] && (front + [ev])[..i] == front[..i];
    assert AcceptedSend(front + [ev], i);
  }

  lemma NewIsSend(e: Entry, front: seq<Event>, ev: Event)
    requires ev == Send(e.msg, e.reply, e.priority) && e.tag == Accepts(front)
    requires !PausedAfter(front) && !ClosedAfter(front)
    ensures IsSend(e, front + [ev])
  {
    var i := |front|;
    assert (front + [ev])[i] == ev && (front + [ev])[..i] == front;
    assert AcceptedSend(front + [ev], i);
  }

  /** In every run, every entry written, queued or dropped is the accepted send that its tag numbers:
      what is written is that command's text, and what is waited for is that command's reply. */
  lemma {:induction false} EntriesAreSends(events: seq<Event>, e: Entry)
    requires Holds(Run(OPENED, events), e)
    ensures IsSend(e, events)
    decreases |events|
  {
    if events != [] {
      var front, ev := events[..|events| - 1], events[|events| - 1];
      assert front + [ev] == events;
      RunButLast(events);
      FlagsFollowEvents(front);
      StepEntries(Run(OPENED, front), ev, e);
      if Holds(Run(OPENED, front), e) {
        EntriesAreSends(front, e);
        StaysSend(e, front, ev);
      } else {
        NewIsSend(e, front, ev);
      }
    }
  }

  // ---- Where the entries stand ----

  /** An accepted send with priority stands ahead of all that was queued, and another one behind it;
      a refused send changes nothing. */
  lemma SendStands(events: seq<Event>, msg: string, reply: string, priority: bool)
    ensures var before, after := Run(OPENED, events), Run(OPENED, events + [Send(msg, reply, priority)]);
            var e := Entry(Accepts(events), msg, reply, priority);
            if PausedAfter(events) || ClosedAfter(events) then after == before
            else if priority then after.queue == [e] + before.queue
            else after.queue == before.queue + [e]
  {
    RunLast(OPENED, events, Send(msg, reply, priority));
    FlagsFollowEvents(events);
  }

  /** Commands with priority stand before the others, the latest first; the others in the order of
      their acceptance. */
  predicate WellQueued(queue: seq<Entry>, bound: nat) {
    && (forall i | 0 <= i < |queue| :: queue[i].tag < bound)
    && forall i, k | 0 <= i < k < |queue| ::
         if queue[k].priority then queue[i].priority && queue[i].tag > queue[k].tag
         else queue[i].priority || queue[i].tag < queue[k].tag
  }

  lemma TailWellQueued(head: seq<Entry>, tail: seq<Entry>, bound: nat)
    requires WellQueued(head + tail, bound)
    ensures WellQueued(tail, bound)
  {
    var all := head + tail;
    assert forall i | 0 <= i < |tail| :: tail[i] == all[|head| + i];
  }

  lemma SendWellQueued(queue: seq<Entry>, e: Entry)
    requires WellQueued(queue, e.tag)
    ensures WellQueued(if e.priority then [e] + queue else queue + [e], e.tag + 1)
  {}

  lemma {:induction false} DrainLeavesTail(l: Link) returns (sent: seq<Entry>)
    ensures l.queue == sent + Drain(l).queue
    decreases |l.queue|, l.wake
  {
    sent := [];
    if (l.queue != [] || l.wake) && l.writer {
      if l.queue == [] {
        sent := DrainLeavesTail(l.(wake := false));
      } else {
        var e := l.queue[0];
        var w := l.(wake := false, queue := l.queue[1..], written := l.written + [e], log := l.log + [Wrote(e)]);
        var more := [];
        if e.reply == "" {
          more := DrainLeavesTail(w);
        } else if l.responded {
          more := DrainLeavesTail(Release(w, true));
        }
        sent := [e] + more;
      }
    }
  }

  lemma StepWellQueued(l: Link, ev: Event)
    requires WellQueued(l.queue, l.accepted)
    requires !l.writer ==> l.task == Ended
    ensures WellQueued(Next(l, ev).queue, Next(l, ev).accepted)
  {
    StepFlags(l, ev);
    if ev.Send? {
      if !l.paused && l.writer {
        SendWellQueued(l.queue, Entry(l.accepted, ev.msg, ev.reply, ev.priority));
      }
    } else if ev == RunTask || ev == Timeout {
      var from := if l.task == OnReply then Release(l, ev == RunTask) else l;
      var sent := DrainLeavesTail(from);
      TailWellQueued(sent, Drain(from).queue, l.accepted);
    }
  }

  /** In every run the queue stands so: with the numbers of its entries, its order is known. */
  lemma {:induction false} QueueOrder(events: seq<Event>)
    ensures WellQueued(Run(OPENED, events).queue, Accepts(events))
    decreases |events|
  {
    FlagsFollowEvents(events);
    if events != [] {
      var front := events[..|events| - 1];
      QueueOrder(front);
      FlagsFollowEvents(front);
      RunButLast(events);
      StepWellQueued(Run(OPENED, front), events[|events| - 1]);
    }
  }

  // ---- The transport, and what releases the writer ----

  /** The commands an observer of the transport sees written. */
  function Seen(log: seq<Note>): seq<Entry> {
    if log == [] then []
    else
      var n := |log| - 1;
      Seen(log[..n]) + match log[n] case Wrote(e) => [e] case _ => []
  }

  lemma SeenLast(log: seq<Note>, n: Note)
    ensures Seen(log + [n]) == Seen(log) + match n case Wrote(e) => [e] case _ => []
  {
    assert (log + [n])[..|log|] == log;
  }

  lemma {:induction false} DrainIsSeen(l: Link)
    requires Seen(l.log) == l.written
    ensures Seen(Drain(l).log) == Drain(l).written
    decreases |l.queue|, l.wake
  {
    if (l.queue != [] || l.wake) && l.writer {
      if l.queue == [] {
        DrainIsSeen(l.(wake := false));
      } else {
        var e := l.queue[0];
        var w := l.(wake := false, queue := l.queue[1..], written := l.written + [e], log := l.log + [Wrote(e)]);
        SeenLast(l.log, Wrote(e));
        if e.reply == "" {
          DrainIsSeen(w);
        } else if l.responded {
          SeenLast(w.log, Released(true));
          DrainIsSeen(Release(w, true));
        }
      }
    }
  }

  lemma TaskIsSeen(l: Link, ev: Event)
    requires Seen(l.log) == l.written && (ev == RunTask || ev == Timeout)
    ensures Seen(Next(l, ev).log) == Next(l, ev).written
  {
    if l.task == OnReply {
      SeenLast(l.log, Released(ev == RunTask));
      DrainIsSeen(Release(l, ev == RunTask));
    } else {
      DrainIsSeen(l);
    }
  }

  lemma StepIsSeen(l: Link, ev: Event)
    requires Seen(l.log) == l.written
    ensures Seen(Next(l, ev).log) == Next(l, ev).written
  {
    if ev == RunTask || ev == Timeout {
      TaskIsSeen(l, ev);
    } else if ev.Frame? {
      SeenLast(l.log, Heard(ev.cmd));
    }
  }

  /** In every run the transport sees the written commands, in that order, and no other. */
  lemma {:induction false} TransportSeesWritten(events: seq<Event>)
    ensures Seen(Run(OPENED, events).log) == Run(OPENED, events).written
    decreases |events|
  {
    if events != [] {
      TransportSeesWritten(events[..|events| - 1]);
      RunButLast(events);
      StepIsSeen(Run(OPENED, events[..|events| - 1]), events[|events| - 1]);
    }
  }

  /** While a reply is awaited, a frame releases the writer if and only if it is that reply; with its
      release, or with the timeout, the next command is written. */
  lemma ReplyReleasesWriter(l: Link, cmd: string)
    requires Invariant(l) && l.task == OnReply && !l.responded && l.writer
    ensures Runnable(Next(l, Frame(cmd))) <==> l.awaiting == Some(cmd)
    ensures l.awaiting == Some(cmd) ==>
              l.log + [Heard(cmd), Released(true)] <= Next(Next(l, Frame(cmd)), RunTask).log
    ensures l.log + [Released(false)] <= Next(l, Timeout).log
    ensures l.queue != [] ==>
              && l.written + [l.queue[0]] <= Next(l, Timeout).written
              && (l.awaiting == Some(cmd) ==>
                    l.written + [l.queue[0]] <= Next(Next(l, Frame(cmd)), RunTask).written)
  {
    var heard := Next(l, Frame(cmd));
    DrainExtendsLog(Release(l, false));
    if l.awaiting == Some(cmd) {
      DrainExtendsLog(Release(heard, true));
      assert l.log + [Heard(cmd), Released(true)] == l.log + [Heard(cmd)] + [Released(true)];
    }
    if l.queue != [] {
      DrainWrites(Release(l, false));
      if l.awaiting == Some(cmd) { DrainWrites(Release(heard, true)); }
    }
  }

  predicate NoneUnanswered(log: seq<Note>, start: nat) {
    forall i | start <= i < |log| :: log[i] != Released(false)
  }

  lemma {:induction false} DrainAnswers(l: Link, start: nat)
    requires NoneUnanswered(l.log, start)
    ensures NoneUnanswered(Drain(l).log, start)
    decreases |l.queue|, l.wake
  {
    if (l.queue != [] || l.wake) && l.writer {
      if l.queue == [] {
        DrainAnswers(l.(wake := false), start);
      } else {
        var e := l.queue[0];
        var w := l.(wake := false, queue := l.queue[1..], written := l.written + [e], log := l.log + [Wrote(e)]);
        if e.reply == "" {
          DrainAnswers(w, start);
        } else if l.responded {
          DrainAnswers(Release(w, true), start);
        }
      }
    }
  }

  /** A wait ends unanswered only by its timeout. */
  lemma OnlyTimeoutsGoUnanswered(l: Link, ev: Event)
    requires ev != Timeout
    ensures NoneUnanswered(Next(l, ev).log, |l.log|)
  {
    if ev == RunTask {
      DrainAnswers(if l.task == OnReply then Release(l, true) else l, |l.log|);
    }
  }
}
