/** What the exporter promises, over every run. */
module ExporterTheorems {
  import opened Sequences
  import opened Documents
  import opened ExporterProtocol
  import opened ExporterInvariants

  // Building runs.

  lemma Nothing(c: Settings)
    ensures Legal(c, []) && Run(c, []) == Machine(INITIAL, NOTHING)
  {}

  lemma Extend(c: Settings, steps: seq<Step>, step: Step)
    requires Legal(c, steps) && Enabled(c, Run(c, steps).s, step)
    ensures Legal(c, steps + [step])
    ensures Run(c, steps + [step]) == Next(c, Run(c, steps), step, |steps|)
  {
    hide Apply, Record, Enabled;
    assert Front(steps + [step]) == steps;
  }

  // Conservation.

  /** No document is lost, duplicated or reordered between the queue and `send`. */
  lemma {:induction false} Conservation(c: Settings, steps: seq<Step>)
    requires Legal(c, steps)
    ensures var m := Run(c, steps);
            && Docs(m.h.accepted) == Sent(m.h) + m.s.batch + m.s.queue
            && |m.s.queue| <= c.queueSize
  {
    AlwaysDocuments(c, steps);
  }

  lemma {:induction false} PrefixLegal(c: Settings, steps: seq<Step>, i: nat)
    requires Legal(c, steps) && i <= |steps|
    ensures Legal(c, steps[..i])
    decreases |steps|
  {
    if i == |steps| {
      assert steps[..i] == steps;
    } else {
      PrefixLegal(c, Front(steps), i);
      assert Front(steps)[..i] == steps[..i];
    }
  }

  lemma AcceptedGrows(c: Settings, m: Machine, step: Step, now: nat)
    requires Enabled(c, m.s, step)
    ensures m.h.accepted <= Record(c, m.s, m.h, step, now).accepted
  {}

  /** The logs only grow at their ends. */
  lemma {:induction false} LogsGrow(c: Settings, steps: seq<Step>, i: nat)
    requires Legal(c, steps) && i <= |steps|
    ensures Legal(c, steps[..i])
    ensures Run(c, steps[..i]).h.accepted <= Run(c, steps).h.accepted
    ensures Sent(Run(c, steps[..i]).h) <= Sent(Run(c, steps).h)
    decreases |steps|
  {
    hide Apply, Record;
    PrefixLegal(c, steps, i);
    if i == |steps| {
      assert steps[..i] == steps;
    } else {
      LogsGrow(c, Front(steps), i);
      assert Front(steps)[..i] == steps[..i];
      AcceptedGrows(c, Run(c, Front(steps)), Last(steps), |steps| - 1);
      SentGrows(c, Run(c, Front(steps)), Last(steps), |steps| - 1);
    }
  }

  ghost predicate InOrder(entries: seq<Entry>) {
    forall i, j :: 0 <= i < j < |entries| ==> entries[i].enqueuedAt < entries[j].enqueuedAt
  }

  lemma OrderStep(c: Settings, steps: seq<Step>, m: Machine, step: Step)
    requires EntryInv(steps, m.h) && InOrder(m.h.accepted) && InOrder(m.h.dropped) && Enabled(c, m.s, step)
    ensures InOrder(Record(c, m.s, m.h, step, |steps|).accepted)
    ensures InOrder(Record(c, m.s, m.h, step, |steps|).dropped)
  {
    forall k | 0 <= k < |m.h.accepted| ensures m.h.accepted[k].enqueuedAt < |steps| {
      assert Stamped(steps, m.h, m.h.accepted[k]);
    }
    forall k | 0 <= k < |m.h.dropped| ensures m.h.dropped[k].enqueuedAt < |steps| {
      assert Stamped(steps, m.h, m.h.dropped[k]);
    }
  }

  lemma {:induction false} AlwaysInOrder(c: Settings, steps: seq<Step>)
    requires Legal(c, steps)
    ensures InOrder(Run(c, steps).h.accepted) && InOrder(Run(c, steps).h.dropped)
    decreases |steps|
  {
    hide Apply, Record;
    if steps != [] {
      AlwaysInOrder(c, Front(steps));
      AlwaysStamped(c, Front(steps));
      OrderStep(c, Front(steps), Run(c, Front(steps)), Last(steps));
    }
  }

  /** The accepted documents are those of the Writes, in the order of their enqueue
      steps: each entry has the two steps of its own Write, and no Write has two entries. */
  lemma AcceptedInOrder(c: Settings, steps: seq<Step>)
    requires Legal(c, steps)
    ensures var accepted := Run(c, steps).h.accepted;
            && (forall i, j :: 0 <= i < j < |accepted| ==> accepted[i].enqueuedAt < accepted[j].enqueuedAt)
            && (forall i, j :: 0 <= i < j < |accepted| ==> accepted[i].writer != accepted[j].writer)
            && (forall k :: 0 <= k < |accepted| ==>
                  var e := accepted[k];
                  && e.checkedAt < e.enqueuedAt < |steps|
                  && steps[e.checkedAt] == WriteCheck(e.writer, e.doc)
                  && steps[e.enqueuedAt] == WriteEnqueue(e.writer))
  {
    AlwaysInOrder(c, steps);
    AlwaysStamped(c, steps);
    OneOutcome(c, steps);
    var accepted := Run(c, steps).h.accepted;
    assert forall k :: 0 <= k < |accepted| ==> Stamped(steps, Run(c, steps).h, accepted[k]);
  }

  // A call returns once.

  lemma ReturnedStays(c: Settings, s: State, step: Step, id: nat)
    requires Enabled(c, s, step) && id in s.calls && s.calls[id].Returned?
    ensures id in Apply(c, s, step).calls && Apply(c, s, step).calls[id] == s.calls[id]
  {}

  /** A call that has returned stays so, with the same result. */
  lemma {:induction false} ReturnedIsFinal(c: Settings, steps: seq<Step>, i: nat, id: nat)
    requires Legal(c, steps) && i <= |steps| && Legal(c, steps[..i])
    requires id in Run(c, steps[..i]).s.calls && Run(c, steps[..i]).s.calls[id].Returned?
    ensures id in Run(c, steps).s.calls && Run(c, steps).s.calls[id] == Run(c, steps[..i]).s.calls[id]
    decreases |steps|
  {
    hide Apply, Record, Enabled;
    if i == |steps| {
      assert steps[..i] == steps;
    } else {
      assert Front(steps)[..i] == steps[..i];
      ReturnedIsFinal(c, Front(steps), i, id);
      ReturnedStays(c, Run(c, Front(steps)).s, Last(steps), id);
    }
  }

  predicate EndsWrite(step: Step, id: nat) {
    step == WriteEnqueue(id) || step == WriteFail(id)
  }

  lemma WriteEnds(c: Settings, s: State, step: Step, id: nat)
    requires EndsWrite(step, id) && Enabled(c, s, step)
    ensures id in s.calls && !s.calls[id].Returned?
    ensures Is(Apply(c, s, step), id, Returned(if step.WriteFail? then EncodeFailed else Done))
  {}

  lemma LastOf(c: Settings, steps: seq<Step>, i: nat)
    requires Legal(c, steps) && i < |steps|
    ensures Legal(c, steps[..i]) && Enabled(c, Run(c, steps[..i]).s, steps[i])
    ensures Legal(c, steps[..i + 1]) && Run(c, steps[..i + 1]) == Next(c, Run(c, steps[..i]), steps[i], i)
  {
    hide Apply, Record, Enabled;
    PrefixLegal(c, steps, i + 1);
    assert Front(steps[..i + 1]) == steps[..i];
  }

  /** A Write ends once: it enqueues, or fails, at most once in a run. */
  lemma WriteEndsOnce(c: Settings, steps: seq<Step>, i: nat, j: nat, id: nat)
    requires Legal(c, steps) && i < j < |steps| && EndsWrite(steps[i], id)
    ensures !EndsWrite(steps[j], id)
  {
    hide Apply, Record, Enabled, Legal, Run, EndsWrite;
    LastOf(c, steps, i);
    LastOf(c, steps, j);
    WriteEnds(c, Run(c, steps[..i]).s, steps[i], id);
    assert steps[..j][..i + 1] == steps[..i + 1];
    ReturnedIsFinal(c, steps[..j], i + 1, id);
    if EndsWrite(steps[j], id) {
      WriteEnds(c, Run(c, steps[..j]).s, steps[j], id);
    }
  }

  ghost predicate DistinctWriters(entries: seq<Entry>) {
    forall i, j :: 0 <= i < j < |entries| ==> entries[i].writer != entries[j].writer
  }

  lemma OneEntry(c: Settings, steps: seq<Step>, entries: seq<Entry>)
    requires Legal(c, steps) && InOrder(entries)
    requires forall k :: 0 <= k < |entries| ==> Stamped(steps, Run(c, steps).h, entries[k])
    ensures DistinctWriters(entries)
  {
    hide Legal, Run;
    forall i, j | 0 <= i < j < |entries| ensures entries[i].writer != entries[j].writer {
      assert Stamped(steps, Run(c, steps).h, entries[i]) && Stamped(steps, Run(c, steps).h, entries[j]);
      WriteEndsOnce(c, steps, entries[i].enqueuedAt, entries[j].enqueuedAt, entries[i].writer);
    }
  }

  lemma NotBoth(c: Settings, steps: seq<Step>, i: nat, j: nat)
    requires Legal(c, steps) && i < |Run(c, steps).h.accepted| && j < |Run(c, steps).h.dropped|
    ensures Run(c, steps).h.accepted[i].writer != Run(c, steps).h.dropped[j].writer
  {
    hide Legal, Run;
    AlwaysStamped(c, steps);
    var h := Run(c, steps).h;
    var a, d := h.accepted[i], h.dropped[j];
    assert Stamped(steps, h, a) && Stamped(steps, h, d);
    assert Logged(h.accepted, a.enqueuedAt) && Logged(h.dropped, d.enqueuedAt);
    DroppedOnlyWhenFull(c, steps, a.enqueuedAt);
    if a.enqueuedAt < d.enqueuedAt {
      WriteEndsOnce(c, steps, a.enqueuedAt, d.enqueuedAt, a.writer);
    } else if d.enqueuedAt < a.enqueuedAt {
      WriteEndsOnce(c, steps, d.enqueuedAt, a.enqueuedAt, d.writer);
    }
  }

  /** No Write is accepted twice, or dropped twice, or both accepted and dropped. */
  lemma OneOutcome(c: Settings, steps: seq<Step>)
    requires Legal(c, steps)
    ensures var h := Run(c, steps).h;
            && DistinctWriters(h.accepted) && DistinctWriters(h.dropped)
            && (forall i, j :: 0 <= i < |h.accepted| && 0 <= j < |h.dropped| ==> h.accepted[i].writer != h.dropped[j].writer)
  {
    hide Legal, Run, DistinctWriters;
    AlwaysInOrder(c, steps);
    AlwaysStamped(c, steps);
    var h := Run(c, steps).h;
    OneEntry(c, steps, h.accepted);
    OneEntry(c, steps, h.dropped);
    forall i, j | 0 <= i < |h.accepted| && 0 <= j < |h.dropped| ensures h.accepted[i].writer != h.dropped[j].writer {
      NotBoth(c, steps, i, j);
    }
  }

  /** A call that has begun can always go on by itself, except that a losing Shutdown
      waits for the winner to return; a worker in its outer loop can take any command. */
  lemma CallsGoOn(c: Settings, s: State, id: nat)
    ensures id !in s.calls ==> Enabled(c, s, SyncCheck(id)) && Enabled(c, s, ShutdownEnter(id))
    ensures id in s.calls ==>
              match s.calls[id]
              case Writing(_) => Enabled(c, s, WriteEnqueue(id)) && Enabled(c, s, WriteFail(id))
              case Queued => Enabled(c, s, ShutdownSkip(id)) <==> s.once.Finished?
              case Entered => Enabled(c, s, ShutdownStore(id))
              case Offering(_) => Enabled(c, s, Cancel(id)) && (s.worker.Selecting? ==> Enabled(c, s, Accept(id)))
              case Awaiting(_) => Enabled(c, s, Cancel(id)) && (id in s.replies ==> Enabled(c, s, Collect(id)))
              case Returned(_) => true
  {}

  /** In every reachable state a Write can begin, and one that has begun can enqueue or
      drop its document, whatever the worker does. */
  lemma WriteNeverBlocks(c: Settings, steps: seq<Step>, id: nat, doc: Document)
    requires Legal(c, steps)
    ensures var s, check := Run(c, steps).s, steps + [WriteCheck(id, doc)];
            id !in s.calls ==>
              Legal(c, check) && Is(Run(c, check).s, id, if s.stopped then Returned(Skipped) else Writing(doc))
    ensures var s, enqueue := Run(c, steps).s, steps + [WriteEnqueue(id)];
            id in s.calls && s.calls[id].Writing? ==>
              Legal(c, enqueue) && Is(Run(c, enqueue).s, id, Returned(Done))
  {
    var s := Run(c, steps).s;
    if id !in s.calls {
      Extend(c, steps, WriteCheck(id, doc));
    } else if s.calls[id].Writing? {
      Extend(c, steps, WriteEnqueue(id));
    }
  }

  /** The document of the enqueue step `i` went into `entries`. */
  ghost predicate Logged(entries: seq<Entry>, i: nat) {
    exists k :: 0 <= k < |entries| && entries[k].enqueuedAt == i
  }

  lemma LoggedAppend(entries: seq<Entry>, e: Entry, i: nat)
    ensures Logged(entries + [e], i) <==> Logged(entries, i) || e.enqueuedAt == i
  {
    var all := entries + [e];
    if Logged(entries, i) {
      var k :| 0 <= k < |entries| && entries[k].enqueuedAt == i;
      assert all[k].enqueuedAt == i;
    }
    assert all[|entries|] == e;
  }

  lemma NotLoggedYet(c: Settings, steps: seq<Step>)
    requires Legal(c, steps)
    ensures !Logged(Run(c, steps).h.accepted, |steps|) && !Logged(Run(c, steps).h.dropped, |steps|)
  {
    AlwaysStamped(c, steps);
    var h := Run(c, steps).h;
    forall k | 0 <= k < |h.accepted| ensures h.accepted[k].enqueuedAt < |steps| {
      assert Stamped(steps, h, h.accepted[k]);
    }
    forall k | 0 <= k < |h.dropped| ensures h.dropped[k].enqueuedAt < |steps| {
      assert Stamped(steps, h, h.dropped[k]);
    }
  }

  lemma StepLogs(c: Settings, m: Machine, step: Step, now: nat, i: nat)
    requires Enabled(c, m.s, step)
    ensures var h' := Record(c, m.s, m.h, step, now);
            && (Logged(h'.accepted, i) <==>
                 Logged(m.h.accepted, i) || (step.WriteEnqueue? && i == now && |m.s.queue| < c.queueSize))
            && (Logged(h'.dropped, i) <==>
                 Logged(m.h.dropped, i) || (step.WriteEnqueue? && i == now && |m.s.queue| >= c.queueSize))
  {
    if step.WriteEnqueue? {
      var h' := Record(c, m.s, m.h, step, now);
      if |m.s.queue| < c.queueSize {
        LoggedAppend(m.h.accepted, Last(h'.accepted), i);
      } else {
        LoggedAppend(m.h.dropped, Last(h'.dropped), i);
      }
    }
  }

  /** Every enqueue step is accepted exactly when the queue had room, and dropped exactly when it was full. */
  lemma {:induction false} DroppedOnlyWhenFull(c: Settings, steps: seq<Step>, i: nat)
    requires Legal(c, steps) && i < |steps| && steps[i].WriteEnqueue?
    ensures Legal(c, steps[..i])
    ensures Logged(Run(c, steps).h.accepted, i) <==> |Run(c, steps[..i]).s.queue| < c.queueSize
    ensures Logged(Run(c, steps).h.dropped, i) <==> |Run(c, steps[..i]).s.queue| == c.queueSize
    decreases |steps|
  {
    hide Apply, Record;
    var before := Front(steps);
    PrefixLegal(c, steps, i);
    AlwaysDocuments(c, steps[..i]);
    StepLogs(c, Run(c, before), Last(steps), |before|, i);
    if i == |before| {
      assert steps[..i] == before;
      NotLoggedYet(c, before);
    } else {
      DroppedOnlyWhenFull(c, before, i);
      assert before[..i] == steps[..i];
    }
  }

  // The barrier.

  predicate Begins(step: Step, id: nat) {
    step == SyncCheck(id) || step == ShutdownEnter(id)
  }

  lemma BegunOnce(c: Settings, m: Machine, step: Step, now: nat, id: nat)
    requires Enabled(c, m.s, step) && id in m.h.begunAt && BegunInv(m)
    ensures id in Record(c, m.s, m.h, step, now).begunAt
    ensures Record(c, m.s, m.h, step, now).begunAt[id] == m.h.begunAt[id]
  {}

  /** `begunAt` keeps the number of documents accepted before the call's first step. */
  lemma {:induction false} BegunAtStart(c: Settings, steps: seq<Step>, i: nat, id: nat)
    requires Legal(c, steps) && i < |steps| && Begins(steps[i], id)
    ensures Legal(c, steps[..i])
    ensures id in Run(c, steps).h.begunAt
    ensures Run(c, steps).h.begunAt[id] == |Run(c, steps[..i]).h.accepted|
    decreases |steps|
  {
    var before := Front(steps);
    PrefixLegal(c, steps, i);
    if i == |before| {
      assert steps[..i] == before;
    } else {
      hide Apply, Record;
      BegunAtStart(c, before, i, id);
      assert before[..i] == steps[..i];
      AlwaysDrained(c, before);
      BegunOnce(c, Run(c, before), Last(steps), |before|, id);
    }
  }

  ghost predicate RepliedTo(h: History, id: nat) {
    exists k :: 0 <= k < |h.replied| && h.replied[k].id == id
  }

  ghost predicate ReturnsInv(m: Machine) {
    forall id :: id in m.s.calls && m.s.calls[id].Returned? && m.s.calls[id].result.Replied? ==> RepliedTo(m.h, id)
  }

  lemma ReturnsStep(c: Settings, m: Machine, step: Step, now: nat)
    requires ReturnsInv(m) && ReplyInv(m) && Enabled(c, m.s, step)
    ensures ReturnsInv(Next(c, m, step, now))
  {
    var m' := Next(c, m, step, now);
    forall id | RepliedTo(m.h, id) ensures RepliedTo(m'.h, id) {
      var k :| 0 <= k < |m.h.replied| && m.h.replied[k].id == id;
      assert m'.h.replied[k].id == id;
    }
  }

  lemma {:induction false} AlwaysReturns(c: Settings, steps: seq<Step>)
    requires Legal(c, steps)
    ensures ReturnsInv(Run(c, steps))
    decreases |steps|
  {
    hide Apply, Record;
    if steps != [] {
      AlwaysReturns(c, Front(steps));
      AlwaysCommands(c, Front(steps));
      ReturnsStep(c, Run(c, Front(steps)), Last(steps), |steps| - 1);
    }
  }


  /** When Sync or Shutdown has returned with the worker's reply, every document
      accepted before the call's first step has been handed to `send`. */
  lemma {:induction false} Barrier(c: Settings, steps: seq<Step>, i: nat, id: nat)
    requires Legal(c, steps) && i < |steps| && Begins(steps[i], id)
    requires id in Run(c, steps).s.calls
    requires Run(c, steps).s.calls[id].Returned? && Run(c, steps).s.calls[id].result.Replied?
    ensures Legal(c, steps[..i])
    ensures Docs(Run(c, steps[..i]).h.accepted) <= Sent(Run(c, steps).h)
  {
    hide Apply, Record;
    var m := Run(c, steps);
    LogsGrow(c, steps, i);
    BegunAtStart(c, steps, i, id);
    AlwaysReturns(c, steps);
    AlwaysDrained(c, steps);
    AlwaysDocuments(c, steps);
    var k :| 0 <= k < |m.h.replied| && m.h.replied[k].id == id;
    assert Drained(m.h, m.h.replied[k]);
    var early, late := Docs(Run(c, steps[..i]).h.accepted), Docs(m.h.accepted);
    assert early <= late && Sent(m.h) <= late && |early| <= |Sent(m.h)|;
    assert early == late[..|early|] == Sent(m.h)[..|early|];
  }
}
