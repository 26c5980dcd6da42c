/** What a nil result of Sync or Shutdown says about the documents accepted
    before the call, with the exact condition for each. */
module ExporterPromises {
  import opened Sequences
  import opened Documents
  import opened ExporterProtocol
  import opened ExporterInvariants
  import opened ExporterTheorems

  predicate ReturnedNil(s: State, id: nat) {
    Is(s, id, Returned(Skipped)) || Is(s, id, Returned(Replied(true)))
  }

  /** Whenever the call that begins with step `begin` after `steps` has returned nil,
      what was accepted before it has been handed to `send`. */
  ghost predicate NilMeansSent(c: Settings, steps: seq<Step>, begin: Step, id: nat)
    requires Legal(c, steps)
  {
    forall more: seq<Step> :: SentBy(c, steps, begin, id, more)
  }

  ghost predicate SentBy(c: Settings, steps: seq<Step>, begin: Step, id: nat, more: seq<Step>)
    requires Legal(c, steps)
  {
    var whole := steps + [begin] + more;
    Legal(c, whole) && ReturnedNil(Run(c, whole).s, id) ==>
      Docs(Run(c, steps).h.accepted) <= Sent(Run(c, whole).h)
  }

  /** The call may return without the worker having seen it: a Sync when `stopped`
      is set, a Shutdown when another one has entered stopOnce. */
  predicate MaySkip(s: State, begin: Step) {
    if begin.SyncCheck? then s.stopped else !s.once.Fresh?
  }

  // A call that goes to the worker.

  /** A call that did not skip and will not. */
  ghost predicate InProgress(s: State, id: nat) {
    && id in s.calls
    && var call := s.calls[id];
       || call.Entered? || call.Offering? || call.Awaiting?
       || (call.Returned? && (call.result.Replied? || call.result.Cancelled?))
  }

  lemma InProgressStep(c: Settings, s: State, step: Step, id: nat)
    requires InProgress(s, id) && Enabled(c, s, step)
    ensures InProgress(Apply(c, s, step), id)
  {}

  lemma {:induction false} StaysInProgress(c: Settings, steps: seq<Step>, more: seq<Step>, id: nat)
    requires Legal(c, steps) && InProgress(Run(c, steps).s, id) && Legal(c, steps + more)
    ensures InProgress(Run(c, steps + more).s, id)
    decreases |more|
  {
    hide Apply, Record, Enabled, InProgress;
    if more == [] {
      assert steps + more == steps;
    } else {
      assert Front(steps + more) == steps + Front(more);
      StaysInProgress(c, steps, Front(more), id);
      InProgressStep(c, Run(c, steps + Front(more)).s, Last(more), id);
    }
  }

  lemma CallBegun(c: Settings, steps: seq<Step>, begin: Step, id: nat)
    requires Legal(c, steps) && Begins(begin, id) && Enabled(c, Run(c, steps).s, begin)
    ensures Legal(c, steps + [begin])
    ensures !MaySkip(Run(c, steps).s, begin) ==> InProgress(Run(c, steps + [begin]).s, id)
  {
    Extend(c, steps, begin);
  }

  lemma SentByAny(c: Settings, steps: seq<Step>, begin: Step, id: nat, more: seq<Step>)
    requires Legal(c, steps) && Begins(begin, id) && Enabled(c, Run(c, steps).s, begin)
    requires !MaySkip(Run(c, steps).s, begin) || Run(c, steps).s.batch + Run(c, steps).s.queue == []
    ensures SentBy(c, steps, begin, id, more)
  {
    hide Apply, Record, Enabled, MaySkip, Begins;
    var begun := steps + [begin];
    var whole := begun + more;
    if Legal(c, whole) && ReturnedNil(Run(c, whole).s, id) {
      CallBegun(c, steps, begin, id);
      assert whole[..|steps|] == steps;
      if !MaySkip(Run(c, steps).s, begin) {
        StaysInProgress(c, begun, more, id);
        assert whole[|steps|] == begin;
        Barrier(c, whole, |steps|, id);
      } else {
        LogsGrow(c, whole, |steps|);
        Conservation(c, steps);
      }
    }
  }

  // A call that skips.

  /** After `steps + more` call `id` has returned nil and nothing more has been sent. */
  ghost predicate SkippedBy(c: Settings, steps: seq<Step>, more: seq<Step>, id: nat)
    requires Legal(c, steps)
  {
    && Legal(c, steps + more)
    && Is(Run(c, steps + more).s, id, Returned(Skipped))
    && Run(c, steps + more).h.sent == Run(c, steps).h.sent
  }

  lemma SyncSkips(c: Settings, steps: seq<Step>, id: nat)
    requires Legal(c, steps) && Enabled(c, Run(c, steps).s, SyncCheck(id)) && Run(c, steps).s.stopped
    ensures SkippedBy(c, steps, [SyncCheck(id)], id)
  {
    Extend(c, steps, SyncCheck(id));
  }

  /** What follows the first step, taken after it. */
  lemma SkipsLater(c: Settings, steps: seq<Step>, step: Step, more: seq<Step>, id: nat)
    requires Legal(c, steps) && Enabled(c, Run(c, steps).s, step)
    requires Legal(c, steps + [step]) && SkippedBy(c, steps + [step], more, id)
    requires Run(c, steps + [step]).h.sent == Run(c, steps).h.sent
    ensures SkippedBy(c, steps, [step] + more, id)
  {
    assert steps + ([step] + more) == steps + [step] + more;
  }

  lemma QueuedSkips(c: Settings, steps: seq<Step>, id: nat)
    requires Legal(c, steps) && Is(Run(c, steps).s, id, Queued) && Run(c, steps).s.once.Finished?
    ensures SkippedBy(c, steps, [ShutdownSkip(id)], id)
  {
    Extend(c, steps, ShutdownSkip(id));
  }

  lemma CancelSkips(c: Settings, steps: seq<Step>, winner: nat, id: nat)
    requires Legal(c, steps) && Is(Run(c, steps).s, id, Queued)
    requires winner != id && (Is(Run(c, steps).s, winner, Offering(true)) || Is(Run(c, steps).s, winner, Awaiting(true)))
    ensures SkippedBy(c, steps, [Cancel(winner)] + [ShutdownSkip(id)], id)
  {
    Extend(c, steps, Cancel(winner));
    QueuedSkips(c, steps + [Cancel(winner)], id);
    SkipsLater(c, steps, Cancel(winner), [ShutdownSkip(id)], id);
  }

  lemma StoreSkips(c: Settings, steps: seq<Step>, winner: nat, id: nat)
    requires Legal(c, steps) && Is(Run(c, steps).s, id, Queued) && winner != id && Is(Run(c, steps).s, winner, Entered)
    ensures SkippedBy(c, steps, [ShutdownStore(winner)] + ([Cancel(winner)] + [ShutdownSkip(id)]), id)
  {
    Extend(c, steps, ShutdownStore(winner));
    CancelSkips(c, steps + [ShutdownStore(winner)], winner, id);
    SkipsLater(c, steps, ShutdownStore(winner), [Cancel(winner)] + [ShutdownSkip(id)], id);
  }

  /** A losing Shutdown returns nil as soon as the winner's context ends. */
  lemma LoserSkips(c: Settings, steps: seq<Step>, id: nat) returns (more: seq<Step>)
    requires Legal(c, steps) && Enabled(c, Run(c, steps).s, ShutdownEnter(id)) && !Run(c, steps).s.once.Fresh?
    ensures SkippedBy(c, steps, [ShutdownEnter(id)] + more, id)
  {
    Extend(c, steps, ShutdownEnter(id));
    var s, entered := Run(c, steps).s, steps + [ShutdownEnter(id)];
    AlwaysOnce(c, steps);
    more := [];
    if s.once.Running? {
      hide Record;
      var winner := s.once.id;
      if Is(s, winner, Entered) {
        more := [ShutdownStore(winner)] + ([Cancel(winner)] + [ShutdownSkip(id)]);
        StoreSkips(c, entered, winner, id);
      } else {
        more := [Cancel(winner)] + [ShutdownSkip(id)];
        CancelSkips(c, entered, winner, id);
      }
      SkipsLater(c, steps, ShutdownEnter(id), more, id);
    } else {
      assert [ShutdownEnter(id)] + [] == [ShutdownEnter(id)];
    }
  }

  lemma SkippedUnsent(c: Settings, steps: seq<Step>, begin: Step, more: seq<Step>, id: nat)
    requires Legal(c, steps) && SkippedBy(c, steps, [begin] + more, id)
    requires Run(c, steps).s.batch + Run(c, steps).s.queue != []
    ensures !SentBy(c, steps, begin, id, more)
  {
    hide Apply, Record, Legal, Run;
    assert steps + ([begin] + more) == steps + [begin] + more;
    Conservation(c, steps);
  }

  /** Sync's promise holds if and only if `stopped` is not yet set when the call
      begins, or there is nothing left to send. */
  lemma SyncPromise(c: Settings, steps: seq<Step>, id: nat)
    requires Legal(c, steps) && Enabled(c, Run(c, steps).s, SyncCheck(id))
    ensures NilMeansSent(c, steps, SyncCheck(id), id)
            <==> !Run(c, steps).s.stopped || Run(c, steps).s.batch + Run(c, steps).s.queue == []
  {
    hide Apply, Record, Enabled, SentBy, Legal, Run;
    var s := Run(c, steps).s;
    if !s.stopped || s.batch + s.queue == [] {
      forall more: seq<Step> ensures SentBy(c, steps, SyncCheck(id), id, more) {
        SentByAny(c, steps, SyncCheck(id), id, more);
      }
    } else {
      SyncSkips(c, steps, id);
      assert [SyncCheck(id)] + [] == [SyncCheck(id)];
      SkippedUnsent(c, steps, SyncCheck(id), [], id);
    }
  }

  /** A nil result of Shutdown says the same if and only if no other Shutdown has
      begun before, or there is nothing left to send. */
  lemma ShutdownResult(c: Settings, steps: seq<Step>, id: nat)
    requires Legal(c, steps) && Enabled(c, Run(c, steps).s, ShutdownEnter(id))
    ensures NilMeansSent(c, steps, ShutdownEnter(id), id)
            <==> Run(c, steps).s.once.Fresh? || Run(c, steps).s.batch + Run(c, steps).s.queue == []
  {
    hide Apply, Record, Enabled, SentBy, Legal, Run;
    var s := Run(c, steps).s;
    if s.once.Fresh? || s.batch + s.queue == [] {
      forall more: seq<Step> ensures SentBy(c, steps, ShutdownEnter(id), id, more) {
        SentByAny(c, steps, ShutdownEnter(id), id, more);
      }
    } else {
      var more := LoserSkips(c, steps, id);
      SkippedUnsent(c, steps, ShutdownEnter(id), more, id);
    }
  }

  // Runs in which the promises fail.

  lemma OneWritten(c: Settings, doc: Document)
    ensures var steps := [WriteCheck(0, doc)] + [WriteEnqueue(0)] + [ShutdownEnter(1)];
            Legal(c, steps) && Run(c, steps).s == INITIAL.(queue := [doc], once := Running(1), calls := map[0 := Returned(Done), 1 := Entered])
  {
    hide Legal, Run;
    Nothing(c);
    assert [] + [WriteCheck(0, doc)] == [WriteCheck(0, doc)];
    Extend(c, [], WriteCheck(0, doc));
    Extend(c, [WriteCheck(0, doc)], WriteEnqueue(0));
    Extend(c, [WriteCheck(0, doc)] + [WriteEnqueue(0)], ShutdownEnter(1));
  }

  /** A document in the queue, and a Shutdown that has set `stopped`: Sync returns nil at once. */
  lemma SyncSkipped(c: Settings, doc: Document)
    ensures var steps := [WriteCheck(0, doc)] + [WriteEnqueue(0)] + [ShutdownEnter(1)] + [ShutdownStore(1)];
            Legal(c, steps) && Enabled(c, Run(c, steps).s, SyncCheck(2)) && !NilMeansSent(c, steps, SyncCheck(2), 2)
  {
    hide Legal, Run, NilMeansSent;
    OneWritten(c, doc);
    var steps := [WriteCheck(0, doc)] + [WriteEnqueue(0)] + [ShutdownEnter(1)];
    Extend(c, steps, ShutdownStore(1));
    SyncPromise(c, steps + [ShutdownStore(1)], 2);
  }

  /** The same document, and a second Shutdown while the first is in stopOnce. */
  lemma ShutdownSkipped(c: Settings, doc: Document)
    ensures var steps := [WriteCheck(0, doc)] + [WriteEnqueue(0)] + [ShutdownEnter(1)];
            Legal(c, steps) && Enabled(c, Run(c, steps).s, ShutdownEnter(2)) && !NilMeansSent(c, steps, ShutdownEnter(2), 2)
  {
    hide Legal, Run, NilMeansSent;
    OneWritten(c, doc);
    ShutdownResult(c, [WriteCheck(0, doc)] + [WriteEnqueue(0)] + [ShutdownEnter(1)], 2);
  }
}
