/** The exporter as the object the source has: its channels and flags, and the
    worker's local batch, updated in place.

    `steps` is the run so far; Valid ties it to the fields, so every lemma about
    runs holds of the object. A method is what one goroutine does without another
    one stepping in between; calls of the small methods interleave freely. */
module Exporter {
  import opened Sequences
  import opened Documents
  import opened ExporterProtocol
  import opened ExporterInvariants
  import opened ExporterTheorems
  import opened ExporterShutdown
  import opened ExporterBatches

  class OpenSearchExporter {
    const settings: Settings
    var entries: seq<Document>
    var batch: seq<Document>
    var worker: Worker
    var stopped: bool
    var stopOnce: Once
    var calls: map<nat, Call>
    var results: map<nat, bool>
    ghost var steps: seq<Step>

    ghost function View(): State
      reads this
    {
      State(entries, batch, worker, stopped, stopOnce, calls, results)
    }

    ghost predicate Valid()
      reads this
    {
      Legal(settings, steps) && Run(settings, steps).s == View()
    }

    ghost function Log(): History
      reads this
      requires Valid()
    {
      Run(settings, steps).h
    }

    constructor (requested: Config)
      ensures Valid() && steps == []
      ensures settings.batchSize == if requested.batchSize > 0 then requested.batchSize else 100
      ensures settings.queueSize == if requested.queueSize > 0 then requested.queueSize else 1000
    {
      settings := Settled(requested);
      entries, batch, worker, stopped, stopOnce := [], [], Selecting, false, Fresh;
      calls, results := map[], map[];
      steps := [];
    }

    /** The first action of Write: a set `stopped` flag ends it. */
    method BeginWrite(id: nat, doc: Document) returns (goOn: bool)
      requires Valid() && id !in calls
      modifies this
      ensures Valid() && steps == old(steps) + [WriteCheck(id, doc)]
      ensures goOn == !old(stopped)
      ensures View() == old(View()).(calls := old(calls)[id := if goOn then Writing(doc) else Returned(Skipped)])
    {
      Extend(settings, steps, WriteCheck(id, doc));
      goOn := !stopped;
      calls := calls[id := if stopped then Returned(Skipped) else Writing(doc)];
      steps := steps + [WriteCheck(id, doc)];
    }

    /** The non-blocking send of Write. */
    method FinishWrite(id: nat) returns (accepted: bool)
      requires Valid() && id in calls && calls[id].Writing?
      modifies this
      ensures Valid() && steps == old(steps) + [WriteEnqueue(id)]
      ensures accepted == (|old(entries)| < settings.queueSize)
      ensures View() == old(View()).(queue := if accepted then old(entries) + [old(calls)[id].doc] else old(entries),
                                     calls := old(calls)[id := Returned(Done)])
    {
      Extend(settings, steps, WriteEnqueue(id));
      accepted := |entries| < settings.queueSize;
      if accepted {
        entries := entries + [calls[id].doc];
      }
      calls := calls[id := Returned(Done)];
      steps := steps + [WriteEnqueue(id)];
    }

    /** The encoder's error ends Write. */
    method FailWrite(id: nat)
      requires Valid() && id in calls && calls[id].Writing?
      modifies this
      ensures Valid() && steps == old(steps) + [WriteFail(id)]
      ensures View() == old(View()).(calls := old(calls)[id := Returned(EncodeFailed)])
    {
      Extend(settings, steps, WriteFail(id));
      calls := calls[id := Returned(EncodeFailed)];
      steps := steps + [WriteFail(id)];
    }

    /** Sync up to its wait for the worker. */
    method BeginSync(id: nat) returns (waits: bool)
      requires Valid() && id !in calls
      modifies this
      ensures Valid() && steps == old(steps) + [SyncCheck(id)]
      ensures waits == !old(stopped)
      ensures View() == old(View()).(calls := old(calls)[id := if waits then Offering(false) else Returned(Skipped)])
    {
      Extend(settings, steps, SyncCheck(id));
      waits := !stopped;
      calls := calls[id := if stopped then Returned(Skipped) else Offering(false)];
      steps := steps + [SyncCheck(id)];
    }

    /** Shutdown up to its wait: the winner of stopOnce waits for the worker, a loser
        for the winner, if that has not returned yet. */
    method BeginShutdown(id: nat) returns (winner: bool)
      requires Valid() && id !in calls
      modifies this
      ensures Valid() && winner == old(stopOnce).Fresh?
      ensures steps == old(steps) + if winner then [ShutdownEnter(id), ShutdownStore(id)] else [ShutdownEnter(id)]
      ensures winner ==> View() == old(View()).(calls := old(calls)[id := Offering(true)], stopped := true, once := Running(id))
      ensures !winner ==> View() == old(View()).(calls := old(calls)[id := if old(stopOnce).Running? then Queued else Returned(Skipped)])
    {
      winner := stopOnce.Fresh?;
      EnterOnce(id);
      if winner {
        SetStopped(id);
        assert steps == old(steps) + [ShutdownEnter(id), ShutdownStore(id)];
        assert calls == old(calls)[id := Offering(true)];
      }
    }

    method EnterOnce(id: nat)
      requires Valid() && id !in calls
      modifies this
      ensures Valid() && steps == old(steps) + [ShutdownEnter(id)]
      ensures View() == if old(stopOnce).Fresh? then old(View()).(calls := old(calls)[id := Entered], once := Running(id))
                        else old(View()).(calls := old(calls)[id := if old(stopOnce).Running? then Queued else Returned(Skipped)])
    {
      Extend(settings, steps, ShutdownEnter(id));
      match stopOnce {
        case Fresh =>
          stopOnce := Running(id);
          calls := calls[id := Entered];
        case Running(_) =>
          calls := calls[id := Queued];
        case Finished =>
          calls := calls[id := Returned(Skipped)];
      }
      steps := steps + [ShutdownEnter(id)];
    }

    /** A losing Shutdown, once the winner has returned. */
    method SkipShutdown(id: nat)
      requires Valid() && Is(View(), id, Queued) && stopOnce.Finished?
      modifies this
      ensures Valid() && steps == old(steps) + [ShutdownSkip(id)]
      ensures View() == old(View()).(calls := old(calls)[id := Returned(Skipped)])
    {
      Extend(settings, steps, ShutdownSkip(id));
      calls := calls[id := Returned(Skipped)];
      steps := steps + [ShutdownSkip(id)];
    }

    /** The context of a call ends while it waits for the worker. */
    method CancelCall(id: nat)
      requires Valid() && id in calls && (calls[id].Offering? || calls[id].Awaiting?)
      modifies this
      ensures Valid() && steps == old(steps) + [Cancel(id)]
      ensures View() == old(View()).(calls := old(calls)[id := Returned(Cancelled)],
                                     once := if old(calls)[id].shutdown then Finished else old(stopOnce))
    {
      Extend(settings, steps, Cancel(id));
      if calls[id].shutdown {
        stopOnce := Finished;
      }
      calls := calls[id := Returned(Cancelled)];
      steps := steps + [Cancel(id)];
    }

    method SetStopped(id: nat)
      requires Valid() && Is(View(), id, Entered)
      modifies this
      ensures Valid() && steps == old(steps) + [ShutdownStore(id)]
      ensures View() == old(View()).(calls := old(calls)[id := Offering(true)], stopped := true)
    {
      Extend(settings, steps, ShutdownStore(id));
      stopped := true;
      calls := calls[id := Offering(true)];
      steps := steps + [ShutdownStore(id)];
    }

    /** The end of `command`: the reply is taken from the call's own channel. */
    method Collect(id: nat) returns (ok: bool)
      requires Valid() && id in calls && calls[id].Awaiting? && id in results
      modifies this
      ensures Valid() && steps == old(steps) + [Step.Collect(id)]
      ensures ok == old(results)[id]
      ensures View() == old(View()).(calls := old(calls)[id := Returned(Replied(ok))], replies := old(results) - {id},
                                     once := if old(calls)[id].shutdown then Finished else old(stopOnce))
    {
      Extend(settings, steps, Step.Collect(id));
      ok := results[id];
      if calls[id].shutdown {
        stopOnce := Finished;
      }
      results := results - {id};
      calls := calls[id := Returned(Replied(ok))];
      steps := steps + [Step.Collect(id)];
    }

    /** `flush`: hands a non-empty batch to `send`, and starts a new one. */
    method Flush(ghost step: Step, reply: Option<Command>) returns (payload: seq<Document>)
      requires Valid() && Enabled(settings, View(), step)
      requires || (step == Tick && reply == None)
               || (step == CheckSize && reply == None && |batch| >= settings.batchSize)
               || (step == DrainEnd && reply == Some(worker.command))
      modifies this
      ensures Valid() && View() == ExporterProtocol.Flush(old(View()), reply) && payload == old(batch)
      ensures steps == old(steps) + [step]
      ensures Log().accepted == old(Log().accepted) && Sent(Log()) == old(Sent(Log())) + payload
    {
      Extend(settings, steps, step);
      FlushSends(settings, Run(settings, steps), step, |steps|);
      payload := batch;
      if batch == [] {
        worker := if reply.Some? then Replying(reply.value, true) else Selecting;
      } else {
        batch, worker := [], Sending(reply);
      }
      steps := steps + [step];
    }

    /** `send` comes back with the server's answer, if there was anything to send. */
    method EndSend(answer: bool)
      requires Valid()
      modifies this
      ensures Valid() && Log().accepted == old(Log().accepted) && Sent(Log()) == old(Sent(Log()))
      ensures View() == if old(worker).Sending? then
                          old(View()).(worker := if old(worker).reply.Some? then Replying(old(worker).reply.value, answer) else Selecting)
                        else old(View())
    {
      hide Apply, Record, Legal, Run;
      if worker.Sending? {
        Extend(settings, steps, SendEnd(answer));
        SendEnds(settings, Run(settings, steps), answer, |steps|);
        worker := if worker.reply.Some? then Replying(worker.reply.value, answer) else Selecting;
        steps := steps + [SendEnd(answer)];
      }
    }

    method Receive()
      requires Valid() && worker.Selecting? && entries != []
      modifies this
      ensures Valid() && Log().accepted == old(Log().accepted) && Sent(Log()) == old(Sent(Log()))
      ensures View() == old(View()).(queue := old(entries)[1..], batch := old(batch) + [old(entries)[0]], worker := SizeCheck)
    {
      Extend(settings, steps, Take);
      batch, entries, worker := batch + [entries[0]], entries[1..], SizeCheck;
      steps := steps + [Take];
    }

    method Keep()
      requires Valid() && worker.SizeCheck? && |batch| < settings.batchSize
      modifies this
      ensures Valid() && View() == old(View()).(worker := Selecting)
      ensures Log().accepted == old(Log().accepted) && Sent(Log()) == old(Sent(Log()))
    {
      Extend(settings, steps, CheckSize);
      worker := Selecting;
      steps := steps + [CheckSize];
    }

    /** One pass of the worker for a document: it joins the batch, and a batch that
        has become full is sent; `answer` is what the server says. */
    method OnDocument(answer: bool) returns (payload: seq<Document>)
      requires Valid() && worker.Selecting? && entries != []
      modifies this
      ensures Valid() && worker.Selecting? && entries == old(entries)[1..]
      ensures payload + batch == old(batch) + [old(entries)[0]]
      ensures |payload| == if |old(batch)| + 1 == settings.batchSize then settings.batchSize else 0
      ensures Sent(Log()) == old(Sent(Log())) + payload
    {
      hide Apply, Record, Legal, Run;
      BatchBounds(settings, steps);
      Receive();
      payload := [];
      if |batch| >= settings.batchSize {
        payload := Flush(CheckSize, None);
        EndSend(answer);
      } else {
        Keep();
      }
    }

    /** One pass of the worker for a tick. */
    method OnTick(answer: bool) returns (payload: seq<Document>)
      requires Valid() && worker.Selecting?
      modifies this
      ensures Valid() && worker.Selecting? && entries == old(entries)
      ensures payload == old(batch) && batch == []
      ensures Sent(Log()) == old(Sent(Log())) + payload
    {
      hide Apply, Record, Legal, Run;
      payload := Flush(Tick, None);
      EndSend(answer);
    }

    /** One receive of the inner loop, between which any Write can land. */
    method DrainOne()
      requires Valid() && worker.Draining? && entries != []
      modifies this
      ensures Valid() && steps == old(steps) + [DrainTake]
      ensures View() == old(View()).(queue := old(entries)[1..], batch := old(batch) + [old(entries)[0]])
      ensures Log().accepted == old(Log().accepted) && Sent(Log()) == old(Sent(Log()))
    {
      TakeFromQueue(settings, View());
      Extend(settings, steps, DrainTake);
      batch, entries := batch + [entries[0]], entries[1..];
      steps := steps + [DrainTake];
    }

    /** The inner loop, when no Write lands: receive until the queue is empty. */
    method Drain()
      requires Valid() && worker.Draining?
      modifies this
      ensures Valid() && View() == old(View()).(queue := [], batch := old(batch) + old(entries))
      ensures Log().accepted == old(Log().accepted) && Sent(Log()) == old(Sent(Log()))
      ensures steps == old(steps) + Takes(|old(entries)|)
    {
      hide Apply, Record, Legal, Run;
      ghost var taken := 0;
      while entries != []
        invariant Valid() && View() == old(View()).(queue := entries, batch := batch)
        invariant batch + entries == old(batch) + old(entries)
        invariant Log().accepted == old(Log().accepted) && Sent(Log()) == old(Sent(Log()))
        invariant taken + |entries| == |old(entries)|
        invariant steps == old(steps) + Takes(taken)
        decreases |entries|
      {
        DrainOne();
        taken := taken + 1;
      }
      assert batch == batch + entries;
    }

    method Rendezvous(id: nat)
      requires Valid() && worker.Selecting? && id in calls && calls[id].Offering?
      modifies this
      ensures Valid() && Log().accepted == old(Log().accepted) && Sent(Log()) == old(Sent(Log()))
      ensures View() == old(View()).(worker := Draining(Command(id, old(calls)[id].shutdown)),
                                     calls := old(calls)[id := Awaiting(old(calls)[id].shutdown)])
    {
      Extend(settings, steps, Accept(id));
      worker := Draining(Command(id, calls[id].shutdown));
      calls := calls[id := Awaiting(calls[id].shutdown)];
      steps := steps + [Accept(id)];
    }

    /** One pass of the worker for a command, when no Write lands: drain, flush, reply,
        and after a shutdown command stop. */
    method OnCommand(id: nat, answer: bool) returns (payload: seq<Document>)
      requires Valid() && worker.Selecting? && id in calls && calls[id].Offering?
      modifies this
      ensures Valid() && entries == [] && batch == []
      ensures payload == old(batch) + old(entries)
      ensures |payload| <= settings.batchSize - 1 + settings.queueSize
      ensures Sent(Log()) == Docs(Log().accepted) == old(Sent(Log())) + payload
      ensures id in results && results[id] == (payload == [] || answer)
      ensures calls == old(calls)[id := Awaiting(old(calls)[id].shutdown)]
      ensures worker == if old(calls)[id].shutdown then Exited else Selecting
    {
      hide Apply, Record, Legal, Run;
      Conservation(settings, steps);
      BatchBounds(settings, steps);
      Rendezvous(id);
      Drain();
      payload := Flush(DrainEnd, Some(worker.command));
      EndSend(answer);
      SendReply();
      Conservation(settings, steps);
    }

    /** The reply goes into the call's empty one-slot channel. */
    method SendReply()
      requires Valid() && worker.Replying?
      modifies this
      ensures Valid()
      ensures View() == old(View()).(replies := old(results)[old(worker).command.id := old(worker).ok],
                                     worker := if old(worker).command.shutdown then Exited else Selecting)
      ensures Log().accepted == old(Log().accepted) && Sent(Log()) == old(Sent(Log()))
    {
      ReplyNeverBlocks(settings, steps);
      Extend(settings, steps, Reply);
      results := results[worker.command.id := worker.ok];
      worker := if worker.command.shutdown then Exited else Selecting;
      steps := steps + [Reply];
    }
  }
}
