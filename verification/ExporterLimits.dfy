/** Whether a shutdown stops the worker. */
module ExporterLimits {
  import opened Sequences
  import opened ExporterProtocol
  import opened ExporterInvariants
  import opened ExporterTheorems
  import opened ExporterShutdown
  import opened ExporterBatches

  // Shutdown stops the worker, unless its context ends before the worker takes the command.

  lemma NoLateShutdown(c: Settings, m: Machine, step: Step, now: nat)
    requires OnlyWinner(m.s) && m.s.once.Finished? && !ShutdownIn(m.h.received) && Enabled(c, m.s, step)
    ensures Apply(c, m.s, step).once.Finished? && !ShutdownIn(Record(c, m.s, m.h, step, now).received)
  {}

  ghost predicate Missed(m: Machine) {
    m.s.once.Finished? && !ShutdownIn(m.h.received)
  }

  lemma {:induction false} NeverReceived(c: Settings, steps: seq<Step>, more: seq<Step>)
    requires Legal(c, steps) && Legal(c, steps + more)
    ensures Missed(Run(c, steps)) ==> Missed(Run(c, steps + more))
    decreases |more|
  {
    hide Apply, Record, Enabled, ShutdownIn;
    if more == [] {
      assert steps + more == steps;
    } else {
      assert Front(steps + more) == steps + Front(more);
      NeverReceived(c, steps, Front(more));
      AlwaysOnce(c, steps + Front(more));
      if Missed(Run(c, steps)) {
        NoLateShutdown(c, Run(c, steps + Front(more)), Last(more), |steps + more| - 1);
      }
    }
  }

  /** The worker can still stop. */
  ghost predicate CanExit(c: Settings, steps: seq<Step>) {
    exists more: seq<Step> :: ExitsAfter(c, steps, more)
  }

  ghost predicate ExitsAfter(c: Settings, steps: seq<Step>, more: seq<Step>) {
    Legal(c, steps + more) && Run(c, steps + more).s.worker.Exited?
  }

  lemma ExitsLater(c: Settings, steps: seq<Step>, first: seq<Step>)
    requires CanExit(c, steps + first)
    ensures CanExit(c, steps)
  {
    var more: seq<Step> :| ExitsAfter(c, steps + first, more);
    assert steps + (first + more) == steps + first + more;
    assert ExitsAfter(c, steps, first + more);
  }

  lemma ReplyExits(c: Settings, steps: seq<Step>)
    requires Legal(c, steps) && Run(c, steps).s.worker.Replying? && Run(c, steps).s.worker.command.shutdown
    ensures CanExit(c, steps)
  {
    ReplyNeverBlocks(c, steps);
    Extend(c, steps, Reply);
    assert ExitsAfter(c, steps, [Reply]);
  }

  lemma SendingExits(c: Settings, steps: seq<Step>)
    requires Legal(c, steps) && Run(c, steps).s.worker.Sending?
    requires Run(c, steps).s.worker.reply.Some? && Run(c, steps).s.worker.reply.value.shutdown
    ensures CanExit(c, steps)
  {
    Extend(c, steps, SendEnd(true));
    ReplyExits(c, steps + [SendEnd(true)]);
    ExitsLater(c, steps, [SendEnd(true)]);
  }

  lemma DrainingExits(c: Settings, steps: seq<Step>)
    requires Legal(c, steps) && Run(c, steps).s.worker.Draining? && Run(c, steps).s.worker.command.shutdown
    ensures CanExit(c, steps)
  {
    var takes := Takes(|Run(c, steps).s.queue|);
    DrainTerminates(c, steps);
    Extend(c, steps + takes, DrainEnd);
    var drained := steps + takes + [DrainEnd];
    if Run(c, drained).s.worker.Sending? {
      SendingExits(c, drained);
    } else {
      ReplyExits(c, drained);
    }
    ExitsLater(c, steps + takes, [DrainEnd]);
    ExitsLater(c, steps, takes);
  }

  lemma ReceivedShutdown(m: Machine)
    requires ServiceInv(m)
    ensures ShutdownIn(m.h.received) <==>
            ShutdownIn(m.h.replied) || (InService(m.s.worker) != [] && InService(m.s.worker)[0].shutdown)
  {
    if ShutdownIn(m.h.replied) {
      var k :| 0 <= k < |m.h.replied| && m.h.replied[k].shutdown;
      assert m.h.received[k] == m.h.replied[k];
    }
    if InService(m.s.worker) != [] {
      assert m.h.received[|m.h.replied|] == InService(m.s.worker)[0];
    }
    if ShutdownIn(m.h.received) {
      var k :| 0 <= k < |m.h.received| && m.h.received[k].shutdown;
      assert k < |m.h.replied| ==> m.h.replied[k] == m.h.received[k];
    }
  }

  /** Once the winning Shutdown call has returned, the worker stops sooner or later
      in some continuation if and only if it had received the command. */
  lemma ShutdownPromise(c: Settings, steps: seq<Step>)
    requires Legal(c, steps) && Run(c, steps).s.once.Finished?
    ensures CanExit(c, steps) <==> ShutdownIn(Run(c, steps).h.received)
  {
    hide Apply, Record, Enabled;
    var m := Run(c, steps);
    AlwaysCommands(c, steps);
    ReceivedShutdown(m);
    if !ShutdownIn(m.h.received) {
      forall more: seq<Step> ensures !ExitsAfter(c, steps, more) {
        if Legal(c, steps + more) {
          NeverReceived(c, steps, more);
          ExitedIffReplied(c, steps + more);
          AlwaysCommands(c, steps + more);
          ReceivedShutdown(Run(c, steps + more));
        }
      }
    } else if ShutdownIn(m.h.replied) {
      ExitedIffReplied(c, steps);
      assert steps + [] == steps;
      assert ExitsAfter(c, steps, []);
    } else {
      match m.s.worker
      case Draining(_) => DrainingExits(c, steps);
      case Sending(_) => SendingExits(c, steps);
      case Replying(_, _) => ReplyExits(c, steps);
    }
  }

  /** A Shutdown whose context ends before the worker takes the command: the worker never stops. */
  lemma {:induction false} NeverStops(c: Settings)
    ensures var steps := [ShutdownEnter(0)] + [ShutdownStore(0)] + [Cancel(0)];
            Legal(c, steps) && Is(Run(c, steps).s, 0, Returned(Cancelled)) && !CanExit(c, steps)
  {
    hide Legal, Run, CanExit;
    Nothing(c);
    assert [] + [ShutdownEnter(0)] == [ShutdownEnter(0)];
    Extend(c, [], ShutdownEnter(0));
    Extend(c, [ShutdownEnter(0)], ShutdownStore(0));
    Extend(c, [ShutdownEnter(0)] + [ShutdownStore(0)], Cancel(0));
    ShutdownPromise(c, [ShutdownEnter(0)] + [ShutdownStore(0)] + [Cancel(0)]);
  }
}
