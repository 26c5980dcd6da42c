/** Batch sizes and draining, over every run. */
module ExporterBatches {
  import opened Sequences
  import opened ExporterProtocol
  import opened ExporterInvariants
  import opened ExporterTheorems

  /** In the outer select the batch is shorter than `batchSize`; a batch sent for
      its size has exactly that many documents, one sent by the ticker fewer. */
  lemma BatchBounds(c: Settings, steps: seq<Step>)
    requires Legal(c, steps)
    ensures var m := Run(c, steps);
            && (m.s.worker.Selecting? ==> |m.s.batch| < c.batchSize)
            && (forall k :: 0 <= k < |m.h.sent| ==> m.h.sent[k].docs != [])
            && (forall k :: 0 <= k < |m.h.sent| && m.h.sent[k].cause.BySize? ==> |m.h.sent[k].docs| == c.batchSize)
            && (forall k :: 0 <= k < |m.h.sent| && m.h.sent[k].cause.ByTick? ==> |m.h.sent[k].docs| < c.batchSize)
  {
    AlwaysDocuments(c, steps);
    var h := Run(c, steps).h;
    forall k | 0 <= k < |h.sent| ensures BatchBounded(c, h.sent[k]) {}
  }

  lemma StartStays(c: Settings, m: Machine, step: Step, now: nat)
    requires Enabled(c, m.s, step)
    ensures Record(c, m.s, m.h, step, now).drainStart == if step.Accept? then |m.h.accepted| else m.h.drainStart
  {}

  lemma {:induction false} StartedAt(c: Settings, steps: seq<Step>, a: nat)
    requires Legal(c, steps) && a < |steps| && steps[a].Accept?
    requires forall j :: a < j < |steps| ==> !steps[j].Accept?
    ensures Legal(c, steps[..a])
    ensures Run(c, steps).h.drainStart == |Run(c, steps[..a]).h.accepted|
    decreases |steps|
  {
    hide Apply, Record, Enabled;
    var before := Front(steps);
    PrefixLegal(c, steps, a);
    StartStays(c, Run(c, before), Last(steps), |before|);
    if a == |before| {
      assert before == steps[..a];
    } else {
      StartedAt(c, before, a);
      assert before[..a] == steps[..a];
    }
  }

  /** When a drain ends everything accepted so far has been handed to `send`. The
      last batch holds at most batchSize - 1 + queueSize documents besides those
      accepted since the command was received at step `a`. */
  lemma {:induction false} DrainedBatch(c: Settings, steps: seq<Step>, a: nat)
    requires Legal(c, steps + [DrainEnd]) && Legal(c, steps)
    requires a < |steps| && steps[a].Accept? && (forall j :: a < j < |steps| ==> !steps[j].Accept?)
    ensures Legal(c, steps[..a])
    ensures var before, after := Run(c, steps), Run(c, steps + [DrainEnd]);
            && Docs(after.h.accepted) == Sent(after.h) == Sent(before.h) + before.s.batch
            && |before.s.batch| <= c.batchSize - 1 + c.queueSize
                                  + (|before.h.accepted| - |Run(c, steps[..a]).h.accepted|)
  {
    assert Front(steps + [DrainEnd]) == steps;
    AlwaysDocuments(c, steps);
    StartedAt(c, steps, a);
    FlushSends(c, Run(c, steps), DrainEnd, |steps|);
  }

  function Takes(n: nat): (takes: seq<Step>)
    ensures |takes| == n
  {
    seq(n, _ => DrainTake)
  }

  lemma TakeFromQueue(c: Settings, s: State)
    requires s.worker.Draining? && s.queue != []
    ensures Enabled(c, s, DrainTake)
    ensures Apply(c, s, DrainTake) == s.(queue := s.queue[1..], batch := s.batch + [s.queue[0]])
    ensures s.batch + [s.queue[0]] + s.queue[1..] == s.batch + s.queue
  {}

  /** Draining ends after as many receives as there are documents in the queue,
      when no Write lands meanwhile; the queue and the batch are then one batch. */
  lemma {:induction false} DrainTerminates(c: Settings, steps: seq<Step>)
    requires Legal(c, steps) && Run(c, steps).s.worker.Draining?
    ensures var s, takes := Run(c, steps).s, steps + Takes(|Run(c, steps).s.queue|);
            && Legal(c, takes)
            && Run(c, takes).s == s.(queue := [], batch := s.batch + s.queue)
            && Legal(c, takes + [DrainEnd])
    decreases |Run(c, steps).s.queue|
  {
    hide Apply, Record, Legal, Run;
    var s := Run(c, steps).s;
    if s.queue == [] {
      assert steps + Takes(0) == steps;
      assert s.batch + s.queue == s.batch;
      Extend(c, steps, DrainEnd);
    } else {
      TakeFromQueue(c, s);
      Extend(c, steps, DrainTake);
      DrainTerminates(c, steps + [DrainTake]);
      assert steps + [DrainTake] + Takes(|s.queue| - 1) == steps + Takes(|s.queue|);
    }
  }

  lemma SendEnds(c: Settings, m: Machine, ok: bool, now: nat)
    requires m.s.worker.Sending?
    ensures var reply := m.s.worker.reply;
            Next(c, m, SendEnd(ok), now)
            == Machine(m.s.(worker := if reply.Some? then Replying(reply.value, ok) else Selecting), m.h)
  {}
}
