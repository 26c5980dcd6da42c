/** The command protocol of the exporter, over every run: replies, exit, what is left behind. */
module ExporterShutdown {
  import opened Sequences
  import opened ExporterProtocol
  import opened ExporterInvariants
  import opened ExporterTheorems

  // Replies.

  /** Every command the worker received is replied to exactly once, in order; only
      the one in service can be waiting for it, and in the outer select none is. A
      caller that still waits when its command was replied to finds the reply. */
  lemma {:induction false} ExactlyOneReply(c: Settings, steps: seq<Step>)
    requires Legal(c, steps)
    ensures var m := Run(c, steps);
            && m.h.received == m.h.replied + InService(m.s.worker)
            && (m.s.worker.Selecting? || m.s.worker.Exited? ==> m.h.received == m.h.replied)
            && (forall i, j :: 0 <= i < j < |m.h.received| ==> m.h.received[i].id != m.h.received[j].id)
            && (forall k :: 0 <= k < |m.h.replied| ==>
                  var id := m.h.replied[k].id;
                  id in m.s.calls && (m.s.calls[id].Awaiting? ==> Enabled(c, m.s, Collect(id))))
  {
    AlwaysCommands(c, steps);
    var m := Run(c, steps);
    forall k | 0 <= k < |m.h.replied|
      ensures m.h.replied[k].id in m.s.calls
      ensures m.s.calls[m.h.replied[k].id].Awaiting? ==> Enabled(c, m.s, Collect(m.h.replied[k].id))
    {
      assert Answered(m.s, m.h.replied[k].id);
    }
  }

  /** The reply never blocks, whether or not the caller is still there. */
  lemma ReplyNeverBlocks(c: Settings, steps: seq<Step>)
    requires Legal(c, steps) && Run(c, steps).s.worker.Replying?
    ensures Enabled(c, Run(c, steps).s, Reply)
  {
    var m := Run(c, steps);
    AlwaysCommands(c, steps);
    forall k | 0 <= k < |m.h.replied| ensures m.h.replied[k].id != m.s.worker.command.id {
      assert m.h.received[k] == m.h.replied[k] && m.h.received[|m.h.replied|] == m.s.worker.command;
    }
  }

  /** The worker is served by `step`. */
  predicate ByWorker(step: Step) {
    step.Take? || step.CheckSize? || step.Accept? || step.DrainTake? || step.DrainEnd?
    || step.SendEnd? || step.Reply? || step.Tick?
  }

  lemma SomeStep(c: Settings, s: State)
    requires s.worker.Replying? ==> s.worker.command.id !in s.replies
    ensures s.worker.Exited? <==> !exists step :: ByWorker(step) && Enabled(c, s, step)
  {
    if !s.worker.Exited? {
      var step :=
        match s.worker
        case Selecting => Tick
        case SizeCheck => CheckSize
        case Draining(_) => if s.queue == [] then DrainEnd else DrainTake
        case Sending(_) => SendEnd(true)
        case _ => Reply;
      assert ByWorker(step) && Enabled(c, s, step);
    }
  }

  /** The worker can take a step in every reachable state but the final one. */
  lemma WorkerNeverStuck(c: Settings, steps: seq<Step>)
    requires Legal(c, steps)
    ensures Run(c, steps).s.worker.Exited? <==> !exists step :: ByWorker(step) && Enabled(c, Run(c, steps).s, step)
  {
    hide Legal, Run, Enabled, ByWorker;
    if Run(c, steps).s.worker.Replying? {
      ReplyNeverBlocks(c, steps);
    }
    SomeStep(c, Run(c, steps).s);
  }

  // What a reply says.

  /** `ok` is what `send` answered for the last batch of command `id`, or true when there was none. */
  ghost predicate Justified(c: Settings, steps: seq<Step>, id: nat, ok: bool) {
    exists j: nat :: j < |steps| && JustifiedAt(c, steps, j, id, ok)
  }

  ghost predicate JustifiedAt(c: Settings, steps: seq<Step>, j: nat, id: nat, ok: bool)
    requires j < |steps|
  {
    && Legal(c, steps[..j])
    && var s := Run(c, steps[..j]).s;
       || (steps[j] == SendEnd(ok) && s.worker.Sending? && s.worker.reply.Some? && s.worker.reply.value.id == id)
       || (steps[j] == DrainEnd && ok && s.worker.Draining? && s.worker.command.id == id && s.batch == [])
  }

  lemma JustifiedStays(c: Settings, steps: seq<Step>, step: Step, id: nat, ok: bool)
    requires Justified(c, steps, id, ok)
    ensures Justified(c, steps + [step], id, ok)
  {
    var j: nat :| j < |steps| && JustifiedAt(c, steps, j, id, ok);
    assert (steps + [step])[..j] == steps[..j];
    assert JustifiedAt(c, steps + [step], j, id, ok);
  }

  lemma JustifiedNow(c: Settings, steps: seq<Step>, step: Step, id: nat, ok: bool)
    requires Legal(c, steps)
    requires var s := Run(c, steps).s;
             || (step == SendEnd(ok) && s.worker.Sending? && s.worker.reply.Some? && s.worker.reply.value.id == id)
             || (step == DrainEnd && ok && s.worker.Draining? && s.worker.command.id == id && s.batch == [])
    ensures Justified(c, steps + [step], id, ok)
  {
    assert (steps + [step])[..|steps|] == steps;
    assert JustifiedAt(c, steps + [step], |steps|, id, ok);
  }

  ghost predicate ReplyJustified(c: Settings, steps: seq<Step>, s: State) {
    && (s.worker.Replying? ==> Justified(c, steps, s.worker.command.id, s.worker.ok))
    && (forall id :: id in s.replies ==> Justified(c, steps, id, s.replies[id]))
  }

  ghost predicate ReturnJustified(c: Settings, steps: seq<Step>, s: State) {
    forall id :: id in s.calls && s.calls[id].Returned? && s.calls[id].result.Replied? ==>
      Justified(c, steps, id, s.calls[id].result.ok)
  }

  lemma ReplyJustifiedStep(c: Settings, steps: seq<Step>, step: Step)
    requires Legal(c, steps) && ReplyJustified(c, steps, Run(c, steps).s) && Enabled(c, Run(c, steps).s, step)
    ensures ReplyJustified(c, steps + [step], Apply(c, Run(c, steps).s, step))
  {
    hide Justified, Legal, Run;
    var s := Run(c, steps).s;
    forall id, ok | Justified(c, steps, id, ok) ensures Justified(c, steps + [step], id, ok) {
      JustifiedStays(c, steps, step, id, ok);
    }
    if step.SendEnd? && s.worker.reply.Some? {
      JustifiedNow(c, steps, step, s.worker.reply.value.id, step.ok);
    } else if step.DrainEnd? && s.batch == [] {
      JustifiedNow(c, steps, step, s.worker.command.id, true);
    }
  }

  lemma {:induction false} ReturnJustifiedStep(c: Settings, steps: seq<Step>, step: Step)
    requires Legal(c, steps) && Enabled(c, Run(c, steps).s, step)
    requires ReplyJustified(c, steps, Run(c, steps).s) && ReturnJustified(c, steps, Run(c, steps).s)
    ensures ReturnJustified(c, steps + [step], Apply(c, Run(c, steps).s, step))
  {
    hide Justified, Legal, Run;
    forall id, ok | Justified(c, steps, id, ok) ensures Justified(c, steps + [step], id, ok) {
      JustifiedStays(c, steps, step, id, ok);
    }
  }

  lemma {:induction false} AlwaysJustified(c: Settings, steps: seq<Step>)
    requires Legal(c, steps)
    ensures ReplyJustified(c, steps, Run(c, steps).s)
    ensures ReturnJustified(c, steps, Run(c, steps).s)
    decreases |steps|
  {
    hide Apply, Record, Justified;
    if steps != [] {
      AlwaysJustified(c, Front(steps));
      ReplyJustifiedStep(c, Front(steps), Last(steps));
      ReturnJustifiedStep(c, Front(steps), Last(steps));
      assert steps == Front(steps) + [Last(steps)];
    }
  }

  /** Sync and Shutdown return nil for a reply only if the final `send` of their drain succeeded,
      or there was nothing to send. */
  lemma ReplyReportsSend(c: Settings, steps: seq<Step>, id: nat)
    requires Legal(c, steps) && id in Run(c, steps).s.calls
    requires Run(c, steps).s.calls[id].Returned? && Run(c, steps).s.calls[id].result.Replied?
    ensures Justified(c, steps, id, Run(c, steps).s.calls[id].result.ok)
  {
    AlwaysJustified(c, steps);
  }

  // One shutdown.

  lemma StoreOnce(c: Settings, m: Machine, step: Step, now: nat)
    requires OnceInv(m) && OnlyWinner(m.s) && Enabled(c, m.s, step)
    ensures step.ShutdownStore? ==> m.h.stoppedAt == None
    ensures Record(c, m.s, m.h, step, now).stoppedAt
            == if step.ShutdownStore? then Some(now) else m.h.stoppedAt
  {}

  lemma {:induction false} StoredAt(c: Settings, steps: seq<Step>, i: nat)
    requires Legal(c, steps) && i < |steps| && steps[i].ShutdownStore?
    ensures Run(c, steps).h.stoppedAt == Some(i)
    decreases |steps|
  {
    hide Apply, Record, Enabled;
    var before := Front(steps);
    AlwaysOnce(c, before);
    StoreOnce(c, Run(c, before), Last(steps), |before|);
    if i < |before| {
      StoredAt(c, before, i);
    }
  }

  /** At most one Shutdown call ever gets as far as setting `stopped`, and at most
      one shutdown command ever reaches the worker. */
  lemma OneShutdown(c: Settings, steps: seq<Step>)
    requires Legal(c, steps)
    ensures forall i, j :: 0 <= i < |steps| && 0 <= j < |steps| && steps[i].ShutdownStore? && steps[j].ShutdownStore?
                           ==> i == j
    ensures var received := Run(c, steps).h.received;
            forall i, j :: 0 <= i < |received| && 0 <= j < |received| && received[i].shutdown && received[j].shutdown
                           ==> i == j
  {
    forall i, j | 0 <= i < |steps| && 0 <= j < |steps| && steps[i].ShutdownStore? && steps[j].ShutdownStore?
      ensures i == j
    {
      StoredAt(c, steps, i);
      StoredAt(c, steps, j);
    }
    AlwaysOnce(c, steps);
    AlwaysCommands(c, steps);
  }

  // Exit.

  ghost predicate ShutdownIn(commands: seq<Command>) {
    exists k :: 0 <= k < |commands| && commands[k].shutdown
  }

  lemma RepliesGrow(c: Settings, m: Machine, step: Step, now: nat)
    requires Enabled(c, m.s, step) && (ShutdownIn(m.h.replied) ==> m.s.worker.Exited?)
    ensures ShutdownIn(Next(c, m, step, now).h.replied) ==> Next(c, m, step, now).s.worker.Exited?
  {
    var h, h' := m.h, Record(c, m.s, m.h, step, now);
    if ShutdownIn(h'.replied) {
      var k :| 0 <= k < |h'.replied| && h'.replied[k].shutdown;
      assert k < |h.replied| ==> h.replied[k] == h'.replied[k];
    }
  }

  lemma {:induction false} ExitFollows(c: Settings, steps: seq<Step>)
    requires Legal(c, steps)
    ensures ShutdownIn(Run(c, steps).h.replied) ==> Run(c, steps).s.worker.Exited?
    decreases |steps|
  {
    hide Apply, Record;
    if steps != [] {
      ExitFollows(c, Front(steps));
      RepliesGrow(c, Run(c, Front(steps)), Last(steps), |steps| - 1);
    }
  }

  /** The worker has stopped if and only if it has replied to a shutdown command. */
  lemma ExitedIffReplied(c: Settings, steps: seq<Step>)
    requires Legal(c, steps)
    ensures Run(c, steps).s.worker.Exited? <==> ShutdownIn(Run(c, steps).h.replied)
  {
    ExitFollows(c, steps);
    AlwaysOnce(c, steps);
    var h := Run(c, steps).h;
    if Run(c, steps).s.worker.Exited? {
      assert h.replied[|h.replied| - 1].shutdown;
    }
  }

  lemma FinalStays(c: Settings, m: Machine, step: Step, now: nat)
    requires Enabled(c, m.s, step) && m.s.worker.Exited?
    ensures var m' := Next(c, m, step, now);
            && m'.s.worker.Exited? && m'.s.batch == m.s.batch
            && m'.h.sent == m.h.sent && m'.h.replied == m.h.replied && m.s.queue <= m'.s.queue
  {}

  /** A stopped worker stays stopped: it sends nothing and replies to nobody, and the queue only fills. */
  lemma {:induction false} ExitIsFinal(c: Settings, steps: seq<Step>, i: nat)
    requires Legal(c, steps) && i <= |steps|
    requires Legal(c, steps[..i]) && Run(c, steps[..i]).s.worker.Exited?
    ensures var m, m' := Run(c, steps[..i]), Run(c, steps);
            && m'.s.worker.Exited? && m'.s.batch == m.s.batch == []
            && m'.h.sent == m.h.sent && m'.h.replied == m.h.replied && m.s.queue <= m'.s.queue
    decreases |steps|
  {
    hide Apply, Record;
    if i == |steps| {
      assert steps[..i] == steps;
      AlwaysDocuments(c, steps);
    } else {
      assert Front(steps)[..i] == steps[..i];
      ExitIsFinal(c, Front(steps), i);
      FinalStays(c, Run(c, Front(steps)), Last(steps), |steps| - 1);
    }
  }

  /** Entry `e` comes from a Write that read `stopped` as false before it was set,
      and enqueued its document after the final drain had ended. */
  ghost predicate LateWrite(steps: seq<Step>, e: Entry) {
    exists stop: nat, drain: nat ::
      && e.checkedAt < stop < drain < e.enqueuedAt < |steps|
      && steps[e.checkedAt] == WriteCheck(e.writer, e.doc)
      && steps[stop].ShutdownStore?
      && steps[drain] == DrainEnd && (forall j :: drain < j < |steps| ==> steps[j] != DrainEnd)
      && steps[e.enqueuedAt] == WriteEnqueue(e.writer)
  }

  lemma LateOrDrained(steps: seq<Step>, h: History, k: nat)
    requires EntryInv(steps, h) && MarkInv(steps, h) && k < |h.accepted|
    requires h.stoppedAt.Some? && h.drainAt.Some? && h.stoppedAt.value < h.drainAt.value
    ensures h.drainMark <= k <==> LateWrite(steps, h.accepted[k])
  {
    var e := h.accepted[k];
    assert Stamped(steps, h, e);
    if h.drainMark <= k {
      assert e.checkedAt < h.stoppedAt.value < h.drainAt.value < e.enqueuedAt;
    }
  }

  /** What a stopped worker leaves in the queue is exactly the documents of late writes. */
  lemma LeftBehind(c: Settings, steps: seq<Step>)
    requires Legal(c, steps) && Run(c, steps).s.worker.Exited?
    ensures var m := Run(c, steps);
            && |Sent(m.h)| <= |m.h.accepted|
            && m.s.queue == Docs(m.h.accepted[|Sent(m.h)|..])
            && (forall k :: 0 <= k < |m.h.accepted| ==>
                  (|Sent(m.h)| <= k <==> LateWrite(steps, m.h.accepted[k])))
  {
    var m := Run(c, steps);
    AlwaysDocuments(c, steps);
    AlwaysDrained(c, steps);
    AlwaysStamped(c, steps);
    assert |Docs(m.h.accepted)| == |m.h.accepted|;
    assert m.s.queue == Docs(m.h.accepted)[|Sent(m.h)|..];
    assert Docs(m.h.accepted)[|Sent(m.h)|..] == Docs(m.h.accepted[|Sent(m.h)|..]);
    forall k | 0 <= k < |m.h.accepted| ensures |Sent(m.h)| <= k <==> LateWrite(steps, m.h.accepted[k]) {
      LateOrDrained(steps, m.h, k);
    }
  }
}
