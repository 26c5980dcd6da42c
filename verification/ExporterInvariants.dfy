/** Inductive invariants of the exporter, one group at a time: for each group a
    lemma that a single step keeps it, then a lemma that every run has it. */
module ExporterInvariants {
  import opened Sequences
  import opened Documents
  import opened ExporterProtocol

  // Documents: conservation and the length of the batch.

  ghost predicate Conserved(m: Machine) {
    Docs(m.h.accepted) == Sent(m.h) + m.s.batch + m.s.queue
  }

  ghost predicate BatchInv(c: Settings, m: Machine) {
    var s, h := m.s, m.h;
    && |s.queue| <= c.queueSize
    && h.drainStart <= |h.accepted|
    && match s.worker
       case Selecting => |s.batch| < c.batchSize
       case SizeCheck => 1 <= |s.batch| <= c.batchSize
       case Draining(_) =>
         |s.batch| + |s.queue| <= c.batchSize - 1 + c.queueSize + (|h.accepted| - h.drainStart)
       case _ => s.batch == []
  }

  ghost predicate BatchBounded(c: Settings, b: Batch) {
    match b.cause
    case BySize => |b.docs| == c.batchSize
    case ByTick => 1 <= |b.docs| < c.batchSize
    case ByCommand(_) => 1 <= |b.docs| <= c.batchSize - 1 + c.queueSize + b.landed
  }

  ghost predicate SentInv(c: Settings, h: History) {
    forall k :: 0 <= k < |h.sent| ==> BatchBounded(c, h.sent[k])
  }

  lemma DocsAppend(entries: seq<Entry>, e: Entry)
    ensures Docs(entries + [e]) == Docs(entries) + [e.doc]
  {}

  lemma HandedContents(s: State, h: History, cause: Cause, landed: nat)
    ensures Flatten(Contents(Handed(s, h, cause, landed))) == Sent(h) + s.batch
  {
    if s.batch != [] {
      assert Contents(Handed(s, h, cause, landed)) == Contents(h.sent) + [s.batch];
      FlattenAppend(Contents(h.sent), s.batch);
    }
  }

  /** The three steps that can call `send` move the whole batch to the send log, or leave both. */
  lemma FlushSends(c: Settings, m: Machine, step: Step, now: nat)
    requires Enabled(c, m.s, step) && (step.CheckSize? || step.Tick? || step.DrainEnd?)
    ensures var m' := Next(c, m, step, now);
            || (Sent(m'.h) == Sent(m.h) + m.s.batch && m'.s.batch == [])
            || (Sent(m'.h) == Sent(m.h) && m'.s.batch == m.s.batch)
    ensures step.DrainEnd? ==> Sent(Next(c, m, step, now).h) == Sent(m.h) + m.s.batch
  {
    var s, h := m.s, m.h;
    match step
    case CheckSize => HandedContents(s, h, BySize, 0);
    case Tick => HandedContents(s, h, ByTick, 0);
    case DrainEnd =>
      var landed := if |h.accepted| >= h.drainStart then |h.accepted| - h.drainStart else 0;
      HandedContents(s, h, ByCommand(s.worker.command), landed);
  }

  /** The steps that move no document. */
  lemma DocumentsStay(c: Settings, m: Machine, step: Step, now: nat)
    requires Enabled(c, m.s, step) && !step.CheckSize? && !step.Tick? && !step.DrainEnd?
    requires !step.Take? && !step.DrainTake? && !step.WriteEnqueue?
    ensures var m' := Next(c, m, step, now);
            m'.h.accepted == m.h.accepted && m'.h.sent == m.h.sent && m'.s.batch == m.s.batch && m'.s.queue == m.s.queue
  {}

  lemma TakeMoves(c: Settings, m: Machine, step: Step, now: nat)
    requires Enabled(c, m.s, step) && (step.Take? || step.DrainTake?)
    ensures var m' := Next(c, m, step, now);
            m'.h.accepted == m.h.accepted && m'.h.sent == m.h.sent && m'.s.batch + m'.s.queue == m.s.batch + m.s.queue
  {
    assert m.s.queue == [m.s.queue[0]] + m.s.queue[1..];
  }

  lemma FlushAccepts(c: Settings, m: Machine, step: Step, now: nat)
    requires Enabled(c, m.s, step) && (step.CheckSize? || step.Tick? || step.DrainEnd?)
    ensures var m' := Next(c, m, step, now);
            m'.h.accepted == m.h.accepted && m'.s.queue == m.s.queue
  {}

  lemma EnqueueAppends(c: Settings, m: Machine, id: nat, now: nat)
    requires Enabled(c, m.s, WriteEnqueue(id))
    ensures var m' := Next(c, m, WriteEnqueue(id), now);
            && m'.h.sent == m.h.sent && m'.s.batch == m.s.batch
            && |m.s.queue| <= |m'.s.queue| && m'.s.queue[..|m.s.queue|] == m.s.queue
            && Docs(m'.h.accepted) == Docs(m.h.accepted) + m'.s.queue[|m.s.queue|..]
  {
    if |m.s.queue| < c.queueSize {
      DocsAppend(m.h.accepted, Last(Record(c, m.s, m.h, WriteEnqueue(id), now).accepted));
    }
  }

  lemma ConservedStep(c: Settings, m: Machine, step: Step, now: nat)
    requires Conserved(m) && Enabled(c, m.s, step)
    ensures Conserved(Next(c, m, step, now))
  {
    hide Flatten, Contents, Docs, Apply, Record, Enabled;
    if step.CheckSize? || step.Tick? || step.DrainEnd? {
      FlushSends(c, m, step, now);
      FlushAccepts(c, m, step, now);
    } else if step.Take? || step.DrainTake? {
      TakeMoves(c, m, step, now);
      var s, s' := m.s, Next(c, m, step, now).s;
      assert Sent(m.h) + s.batch + s.queue == Sent(m.h) + (s.batch + s.queue) == Sent(m.h) + s'.batch + s'.queue;
    } else if step.WriteEnqueue? {
      EnqueueAppends(c, m, step.id, now);
      var queue := Next(c, m, step, now).s.queue;
      assert queue == m.s.queue + queue[|m.s.queue|..];
    } else {
      DocumentsStay(c, m, step, now);
    }
  }

  lemma BatchStep(c: Settings, m: Machine, step: Step, now: nat)
    requires BatchInv(c, m) && Enabled(c, m.s, step)
    ensures BatchInv(c, Next(c, m, step, now))
  {}

  lemma SentStep(c: Settings, m: Machine, step: Step, now: nat)
    requires BatchInv(c, m) && SentInv(c, m.h) && Enabled(c, m.s, step)
    ensures SentInv(c, Next(c, m, step, now).h)
  {}

  lemma {:induction false} AlwaysDocuments(c: Settings, steps: seq<Step>)
    requires Legal(c, steps)
    ensures Conserved(Run(c, steps))
    ensures BatchInv(c, Run(c, steps))
    ensures SentInv(c, Run(c, steps).h)
    decreases |steps|
  {
    hide Apply, Record;
    if steps != [] {
      var m := Run(c, Front(steps));
      AlwaysDocuments(c, Front(steps));
      ConservedStep(c, m, Last(steps), |steps| - 1);
      BatchStep(c, m, Last(steps), |steps| - 1);
      SentStep(c, m, Last(steps), |steps| - 1);
    }
  }

  // Commands: every received command gets exactly one reply.

  ghost predicate ServiceInv(m: Machine) {
    m.h.received == m.h.replied + InService(m.s.worker)
  }

  ghost predicate ReceivedInv(m: Machine) {
    var s, h := m.s, m.h;
    && (forall i, j :: 0 <= i < j < |h.received| ==> h.received[i].id != h.received[j].id)
    && (forall k :: 0 <= k < |h.received| ==> Received(s, h.received[k]))
  }

  /** A received command's call waits for the reply, or is over. */
  ghost predicate Received(s: State, command: Command) {
    && command.id in s.calls
    && var call := s.calls[command.id];
       call == Awaiting(command.shutdown)
       || (call.Returned? && (call.result.Replied? || call.result.Cancelled?))
  }

  ghost predicate ReplyInv(m: Machine) {
    var s, h := m.s, m.h;
    && (forall id :: id in s.replies ==> exists k :: 0 <= k < |h.replied| && h.replied[k].id == id)
    && (forall k :: 0 <= k < |h.replied| ==> Answered(s, h.replied[k].id))
  }

  /** The reply lies in the call's `result` channel until the call returns. */
  ghost predicate Answered(s: State, id: nat) {
    id in s.calls && (s.calls[id].Awaiting? ==> id in s.replies)
  }

  lemma ServiceStep(c: Settings, m: Machine, step: Step, now: nat)
    requires ServiceInv(m) && Enabled(c, m.s, step)
    ensures ServiceInv(Next(c, m, step, now))
  {}

  lemma ReceivedStep(c: Settings, m: Machine, step: Step, now: nat)
    requires ReceivedInv(m) && Enabled(c, m.s, step)
    ensures ReceivedInv(Next(c, m, step, now))
  {
    var h, h' := m.h, Next(c, m, step, now).h;
    if step.Accept? {
      forall k | 0 <= k < |h.received| ensures h.received[k].id != step.id {
        assert Received(m.s, h.received[k]);
      }
    } else {
      forall k | 0 <= k < |h.received| ensures Received(Apply(c, m.s, step), h.received[k]) {
        assert Received(m.s, h.received[k]);
      }
    }
  }

  lemma SlotStep(c: Settings, m: Machine, step: Step, now: nat)
    requires ReplyInv(m) && Enabled(c, m.s, step)
    ensures var m' := Next(c, m, step, now);
            forall id :: id in m'.s.replies ==> exists k :: 0 <= k < |m'.h.replied| && m'.h.replied[k].id == id
  {
    var s, h := m.s, m.h;
    var s', h' := Apply(c, s, step), Record(c, s, h, step, now);
    forall id | id in s'.replies ensures exists k :: 0 <= k < |h'.replied| && h'.replied[k].id == id {
      if id in s.replies {
        var k :| 0 <= k < |h.replied| && h.replied[k].id == id;
        assert h'.replied[k].id == id;
      } else {
        assert h'.replied[|h.replied|].id == id;
      }
    }
  }

  lemma ReplyStep(c: Settings, m: Machine, step: Step, now: nat)
    requires ServiceInv(m) && ReceivedInv(m) && ReplyInv(m) && Enabled(c, m.s, step)
    ensures ReplyInv(Next(c, m, step, now))
  {
    var s, h := m.s, m.h;
    var s', h' := Apply(c, s, step), Record(c, s, h, step, now);
    SlotStep(c, m, step, now);
    forall k | 0 <= k < |h'.replied| ensures Answered(s', h'.replied[k].id) {
      assert h'.replied[k] == h.received[k];
      assert Received(s, h.received[k]);
      if k < |h.replied| {
        assert Answered(s, h.replied[k].id);
      }
    }
  }

  lemma {:induction false} AlwaysCommands(c: Settings, steps: seq<Step>)
    requires Legal(c, steps)
    ensures ServiceInv(Run(c, steps))
    ensures ReceivedInv(Run(c, steps))
    ensures ReplyInv(Run(c, steps))
    decreases |steps|
  {
    hide Apply, Record;
    if steps != [] {
      var m := Run(c, Front(steps));
      AlwaysCommands(c, Front(steps));
      ServiceStep(c, m, Last(steps), |steps| - 1);
      ReceivedStep(c, m, Last(steps), |steps| - 1);
      ReplyStep(c, m, Last(steps), |steps| - 1);
    }
  }

  // Shutdown: one call wins stopOnce, and only it offers a shutdown command.

  ghost predicate ShuttingDown(call: Call) {
    call.Entered? || call == Offering(true) || call == Awaiting(true)
  }

  ghost predicate OnceInv(m: Machine) {
    var s, h := m.s, m.h;
    && (s.once.Fresh? <==> h.winner.None?)
    && (s.once.Running? ==>
          && h.winner == Some(s.once.id)
          && s.once.id in s.calls
          && ShuttingDown(s.calls[s.once.id])
          && (s.calls[s.once.id].Entered? <==> !s.stopped))
    && (s.once.Fresh? ==> !s.stopped)
    && (s.once.Finished? ==> s.stopped)
    && (s.stopped <==> h.stoppedAt.Some?)
  }

  ghost predicate OnlyWinner(s: State) {
    forall id :: id in s.calls && ShuttingDown(s.calls[id]) ==> s.once == Running(id)
  }

  ghost predicate WinnerInv(m: Machine) {
    var s, h := m.s, m.h;
    && (forall k :: 0 <= k < |h.received| && h.received[k].shutdown ==>
          h.winner == Some(h.received[k].id) && s.stopped)
    && (s.worker.Exited? ==> h.replied != [] && Last(h.replied).shutdown)
  }

  lemma OnceStep(c: Settings, m: Machine, step: Step, now: nat)
    requires OnceInv(m) && OnlyWinner(m.s) && Enabled(c, m.s, step)
    ensures OnceInv(Next(c, m, step, now))
  {}

  lemma OnlyWinnerStep(c: Settings, s: State, step: Step)
    requires OnlyWinner(s) && Enabled(c, s, step)
    ensures OnlyWinner(Apply(c, s, step))
  {}

  lemma WinnerStep(c: Settings, m: Machine, step: Step, now: nat)
    requires OnceInv(m) && OnlyWinner(m.s) && WinnerInv(m) && Enabled(c, m.s, step)
    ensures WinnerInv(Next(c, m, step, now))
  {}

  lemma {:induction false} AlwaysOnce(c: Settings, steps: seq<Step>)
    requires Legal(c, steps)
    ensures OnceInv(Run(c, steps))
    ensures OnlyWinner(Run(c, steps).s)
    ensures WinnerInv(Run(c, steps))
    decreases |steps|
  {
    hide Apply, Record;
    if steps != [] {
      var m := Run(c, Front(steps));
      AlwaysOnce(c, Front(steps));
      OnceStep(c, m, Last(steps), |steps| - 1);
      OnlyWinnerStep(c, m.s, Last(steps));
      WinnerStep(c, m, Last(steps), |steps| - 1);
    }
  }

  // Time stamps: each accepted document points back to the two steps of its Write.

  ghost predicate CheckedAt(steps: seq<Step>, h: History, id: nat, doc: Document) {
    && id in h.checkedAt
    && h.checkedAt[id] < |steps|
    && steps[h.checkedAt[id]] == WriteCheck(id, doc)
    && (h.stoppedAt.Some? ==> h.checkedAt[id] < h.stoppedAt.value)
  }

  ghost predicate Stamped(steps: seq<Step>, h: History, e: Entry) {
    && e.checkedAt < e.enqueuedAt < |steps|
    && steps[e.checkedAt] == WriteCheck(e.writer, e.doc)
    && steps[e.enqueuedAt] == WriteEnqueue(e.writer)
    && (h.stoppedAt.Some? ==> e.checkedAt < h.stoppedAt.value)
  }

  ghost predicate WritingInv(steps: seq<Step>, m: Machine) {
    forall id :: id in m.s.calls && m.s.calls[id].Writing? ==> CheckedAt(steps, m.h, id, m.s.calls[id].doc)
  }

  ghost predicate EntryInv(steps: seq<Step>, h: History) {
    && (forall k :: 0 <= k < |h.accepted| ==> Stamped(steps, h, h.accepted[k]))
    && (forall k :: 0 <= k < |h.dropped| ==> Stamped(steps, h, h.dropped[k]))
  }

  ghost predicate MarkInv(steps: seq<Step>, h: History) {
    && (h.stoppedAt.Some? ==> h.stoppedAt.value < |steps| && steps[h.stoppedAt.value].ShutdownStore?)
    && (h.drainAt.Some? ==> h.drainAt.value < |steps| && steps[h.drainAt.value] == DrainEnd)
    && (forall j :: 0 <= j < |steps| && steps[j] == DrainEnd ==> h.drainAt.Some? && j <= h.drainAt.value)
    && h.drainMark <= |h.accepted|
    && (forall k :: 0 <= k < |h.accepted| && h.drainAt.Some? ==>
          (h.drainMark <= k <==> h.drainAt.value < h.accepted[k].enqueuedAt))
  }

  lemma CheckedLater(steps: seq<Step>, step: Step, h: History, h': History, id: nat, doc: Document)
    requires CheckedAt(steps, h, id, doc)
    requires id in h'.checkedAt && h'.checkedAt[id] == h.checkedAt[id]
    requires h'.stoppedAt == h.stoppedAt || h'.stoppedAt == Some(|steps|)
    ensures CheckedAt(steps + [step], h', id, doc)
  {}

  lemma CheckedNow(c: Settings, steps: seq<Step>, m: Machine, id: nat, doc: Document)
    requires OnceInv(m) && Enabled(c, m.s, WriteCheck(id, doc))
    ensures var m' := Next(c, m, WriteCheck(id, doc), |steps|);
            id in m'.s.calls && (m'.s.calls[id].Writing? ==>
              m'.s.calls[id].doc == doc && CheckedAt(steps + [WriteCheck(id, doc)], m'.h, id, doc))
  {}

  /** A step other than its own check leaves a Write alone, and the record of its check. */
  lemma WritingStays(c: Settings, s: State, step: Step, id: nat)
    requires Enabled(c, s, step) && (step.WriteCheck? ==> step.id != id)
    ensures var s' := Apply(c, s, step);
            id in s'.calls && s'.calls[id].Writing? ==> id in s.calls && s.calls[id] == s'.calls[id]
  {}

  lemma CheckStays(c: Settings, m: Machine, step: Step, now: nat, id: nat)
    requires Enabled(c, m.s, step) && (step.WriteCheck? ==> step.id != id)
    ensures var h, h' := m.h, Record(c, m.s, m.h, step, now);
            && (h'.stoppedAt == h.stoppedAt || h'.stoppedAt == Some(now))
            && (id in h.checkedAt ==> id in h'.checkedAt && h'.checkedAt[id] == h.checkedAt[id])
  {}

  lemma WritingStep(c: Settings, steps: seq<Step>, m: Machine, step: Step)
    requires OnceInv(m) && WritingInv(steps, m) && Enabled(c, m.s, step)
    ensures WritingInv(steps + [step], Next(c, m, step, |steps|))
  {
    hide Apply, Record, Enabled, OnceInv;
    var m' := Next(c, m, step, |steps|);
    forall id | id in m'.s.calls && m'.s.calls[id].Writing?
      ensures CheckedAt(steps + [step], m'.h, id, m'.s.calls[id].doc)
    {
      if step.WriteCheck? && step.id == id {
        CheckedNow(c, steps, m, id, step.doc);
      } else {
        WritingStays(c, m.s, step, id);
        CheckStays(c, m, step, |steps|, id);
        CheckedLater(steps, step, m.h, m'.h, id, m.s.calls[id].doc);
      }
    }
  }

  lemma StampedLater(steps: seq<Step>, step: Step, h: History, h': History, e: Entry)
    requires Stamped(steps, h, e)
    requires h'.stoppedAt == h.stoppedAt || h'.stoppedAt == Some(|steps|)
    ensures Stamped(steps + [step], h', e)
  {}

  /** At most one entry is new, and it is the Write's that has just enqueued. */
  lemma EntriesGrow(c: Settings, m: Machine, step: Step, now: nat)
    requires Enabled(c, m.s, step)
    ensures var h' := Record(c, m.s, m.h, step, now);
            && (h'.stoppedAt == m.h.stoppedAt || h'.stoppedAt == Some(now))
            && (h'.accepted == m.h.accepted
                || (step.WriteEnqueue? && exists e :: h'.accepted == m.h.accepted + [e] && JustWritten(m, h', step.id, e, now)))
            && (h'.dropped == m.h.dropped
                || (step.WriteEnqueue? && exists e :: h'.dropped == m.h.dropped + [e] && JustWritten(m, h', step.id, e, now)))
  {
    if step.WriteEnqueue? {
      var h' := Record(c, m.s, m.h, step, now);
      if |m.s.queue| < c.queueSize {
        assert JustWritten(m, h', step.id, Last(h'.accepted), now);
      } else {
        assert JustWritten(m, h', step.id, Last(h'.dropped), now);
      }
    }
  }

  ghost predicate JustWritten(m: Machine, h': History, id: nat, e: Entry, now: nat) {
    && id in m.s.calls && m.s.calls[id].Writing? && h'.stoppedAt == m.h.stoppedAt
    && e == Entry(m.s.calls[id].doc, id, if id in m.h.checkedAt then m.h.checkedAt[id] else 0, now)
  }

  lemma NewStamped(steps: seq<Step>, m: Machine, h': History, id: nat, e: Entry)
    requires WritingInv(steps, m) && JustWritten(m, h', id, e, |steps|)
    ensures Stamped(steps + [WriteEnqueue(id)], h', e)
  {
    assert CheckedAt(steps, m.h, id, m.s.calls[id].doc);
  }

  lemma EntryStep(c: Settings, steps: seq<Step>, m: Machine, step: Step)
    requires WritingInv(steps, m) && EntryInv(steps, m.h) && Enabled(c, m.s, step)
    ensures EntryInv(steps + [step], Record(c, m.s, m.h, step, |steps|))
  {
    hide Apply, Record, Enabled, WritingInv, Stamped, JustWritten;
    var h, h' := m.h, Record(c, m.s, m.h, step, |steps|);
    EntriesGrow(c, m, step, |steps|);
    forall k | 0 <= k < |h'.accepted| ensures Stamped(steps + [step], h', h'.accepted[k]) {
      if k < |h.accepted| {
        StampedLater(steps, step, h, h', h.accepted[k]);
      } else {
        NewStamped(steps, m, h', step.id, h'.accepted[k]);
      }
    }
    forall k | 0 <= k < |h'.dropped| ensures Stamped(steps + [step], h', h'.dropped[k]) {
      if k < |h.dropped| {
        StampedLater(steps, step, h, h', h.dropped[k]);
      } else {
        NewStamped(steps, m, h', step.id, h'.dropped[k]);
      }
    }
  }

  lemma MarkStep(c: Settings, steps: seq<Step>, m: Machine, step: Step)
    requires EntryInv(steps, m.h) && MarkInv(steps, m.h) && Enabled(c, m.s, step)
    ensures MarkInv(steps + [step], Record(c, m.s, m.h, step, |steps|))
  {}

  lemma {:induction false} AlwaysStamped(c: Settings, steps: seq<Step>)
    requires Legal(c, steps)
    ensures WritingInv(steps, Run(c, steps))
    ensures EntryInv(steps, Run(c, steps).h)
    ensures MarkInv(steps, Run(c, steps).h)
    decreases |steps|
  {
    hide Apply, Record;
    if steps != [] {
      var before := Front(steps);
      var m := Run(c, before);
      AlwaysStamped(c, before);
      AlwaysOnce(c, before);
      assert steps == before + [Last(steps)];
      WritingStep(c, before, m, Last(steps));
      EntryStep(c, before, m, Last(steps));
      MarkStep(c, before, m, Last(steps));
    }
  }

  // The barrier: what was accepted before a command began is handed over before its reply.

  /** The worker is past the drain of the command it serves. */
  ghost predicate PastDrain(w: Worker) {
    w.Replying? || (w.Sending? && w.reply.Some?)
  }

  ghost predicate BegunInv(m: Machine) {
    forall id :: id in m.h.begunAt ==> id in m.s.calls && m.h.begunAt[id] <= |m.h.accepted|
  }

  ghost predicate OfferedInv(m: Machine) {
    && (forall id :: id in m.s.calls && (m.s.calls[id].Offering? || m.s.calls[id].Entered?) ==> id in m.h.begunAt)
    && (forall k :: 0 <= k < |m.h.received| ==> m.h.received[k].id in m.h.begunAt)
  }

  /** Once drained, the send log has everything accepted up to the drain's end. */
  ghost predicate DrainInv(m: Machine) {
    PastDrain(m.s.worker) || m.s.worker.Exited? ==>
      && m.h.drainAt.Some?
      && |Sent(m.h)| == m.h.drainMark
      && m.s.batch == []
      && (forall k :: 0 <= k < |m.h.received| ==>
            m.h.received[k].id in m.h.begunAt && m.h.begunAt[m.h.received[k].id] <= m.h.drainMark)
  }

  /** The drain for a shutdown command ends after `stopped` was set. */
  ghost predicate FinalInv(m: Machine) {
    m.s.worker.Exited? || (PastDrain(m.s.worker) && Last(InService(m.s.worker)).shutdown) ==>
      m.h.stoppedAt.Some? && m.h.drainAt.Some? && m.h.stoppedAt.value < m.h.drainAt.value
  }

  ghost predicate RepliedInv(h: History) {
    forall k :: 0 <= k < |h.replied| ==> Drained(h, h.replied[k])
  }

  ghost predicate Drained(h: History, command: Command) {
    command.id in h.begunAt && h.begunAt[command.id] <= |Sent(h)|
  }

  lemma SentGrows(c: Settings, m: Machine, step: Step, now: nat)
    requires Enabled(c, m.s, step)
    ensures Sent(m.h) <= Sent(Next(c, m, step, now).h)
  {
    if step.CheckSize? || step.Tick? || step.DrainEnd? {
      FlushSends(c, m, step, now);
    }
  }

  lemma BegunStep(c: Settings, m: Machine, step: Step, now: nat)
    requires BegunInv(m) && Enabled(c, m.s, step)
    ensures BegunInv(Next(c, m, step, now))
  {}

  lemma OfferedStep(c: Settings, m: Machine, step: Step, now: nat)
    requires OfferedInv(m) && Enabled(c, m.s, step)
    ensures OfferedInv(Next(c, m, step, now))
  {}

  lemma DrainEnds(c: Settings, m: Machine, now: nat)
    requires Conserved(m) && BegunInv(m) && OfferedInv(m) && Enabled(c, m.s, DrainEnd)
    ensures DrainInv(Next(c, m, DrainEnd, now))
  {
    hide Conserved, Flatten, Contents, Docs;
    FlushSends(c, m, DrainEnd, now);
    Handled(m);
  }

  /** With an empty queue everything accepted is in the batch or handed over. */
  lemma Handled(m: Machine)
    requires Conserved(m) && m.s.queue == []
    ensures |Sent(m.h) + m.s.batch| == |m.h.accepted|
  {
    assert |Docs(m.h.accepted)| == |m.h.accepted|;
  }

  lemma DrainStep(c: Settings, m: Machine, step: Step, now: nat)
    requires Conserved(m) && BegunInv(m) && OfferedInv(m) && DrainInv(m) && Enabled(c, m.s, step)
    ensures DrainInv(Next(c, m, step, now))
  {
    hide Conserved, OfferedInv, Flatten, Contents, Docs;
    if step.DrainEnd? {
      DrainEnds(c, m, now);
    }
  }

  lemma FinalDrain(c: Settings, m: Machine, now: nat)
    requires OnceInv(m) && ServiceInv(m) && WinnerInv(m) && Enabled(c, m.s, DrainEnd)
    requires m.h.stoppedAt.Some? ==> m.h.stoppedAt.value < now
    ensures FinalInv(Next(c, m, DrainEnd, now))
  {
    assert m.s.worker.command == Last(m.h.received);
  }

  lemma FinalStep(c: Settings, m: Machine, step: Step, now: nat)
    requires OnceInv(m) && OnlyWinner(m.s) && ServiceInv(m) && WinnerInv(m) && FinalInv(m) && Enabled(c, m.s, step)
    requires m.h.stoppedAt.Some? ==> m.h.stoppedAt.value < now
    ensures FinalInv(Next(c, m, step, now))
  {
    if step.DrainEnd? {
      hide Apply, Record, Enabled;
      FinalDrain(c, m, now);
    }
  }

  lemma RepliedStep(c: Settings, m: Machine, step: Step, now: nat)
    requires ServiceInv(m) && BegunInv(m) && DrainInv(m) && RepliedInv(m.h) && Enabled(c, m.s, step)
    ensures RepliedInv(Next(c, m, step, now).h)
  {
    var h, h' := m.h, Next(c, m, step, now).h;
    SentGrows(c, m, step, now);
    forall k | 0 <= k < |h'.replied| ensures Drained(h', h'.replied[k]) {
      if k < |h.replied| {
        assert Drained(h, h.replied[k]);
        assert h.replied[k] == h.received[k];
      } else {
        assert h'.replied[k] == h.received[k];
      }
    }
  }

  ghost predicate DrainedInvs(m: Machine) {
    BegunInv(m) && OfferedInv(m) && DrainInv(m) && FinalInv(m) && RepliedInv(m.h)
  }

  lemma DrainedInvsStep(c: Settings, before: seq<Step>, step: Step)
    requires Legal(c, before) && Enabled(c, Run(c, before).s, step)
    requires DrainedInvs(Run(c, before))
    ensures DrainedInvs(Next(c, Run(c, before), step, |before|))
  {
    var m := Run(c, before);
    AlwaysDocuments(c, before);
    AlwaysCommands(c, before);
    AlwaysOnce(c, before);
    AlwaysStamped(c, before);
    BegunStep(c, m, step, |before|);
    OfferedStep(c, m, step, |before|);
    DrainStep(c, m, step, |before|);
    FinalStep(c, m, step, |before|);
    RepliedStep(c, m, step, |before|);
  }

  lemma {:induction false} AlwaysDrained(c: Settings, steps: seq<Step>)
    requires Legal(c, steps)
    ensures DrainedInvs(Run(c, steps))
    decreases |steps|
  {
    if steps != [] {
      AlwaysDrained(c, Front(steps));
      DrainedInvsStep(c, Front(steps), Last(steps));
    }
  }
}
