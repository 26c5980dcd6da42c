/** The OpenSearch log exporter as a transition system.

    Any number of application goroutines call Write, Sync and Shutdown; one
    worker goroutine owns the batch. A step is one action that another
    goroutine can observe (an atomic load or store, one channel operation, a
    send, a context ending), so a run is one interleaving of them. Every call
    has its own id, and its progress is kept in `State.calls` for ever.
    `History` records what happened; no step reads it. */
module ExporterProtocol {
  import opened Sequences
  import opened Documents

  datatype Config = Config(batchSize: int, queueSize: int)

  const DEFAULT_BATCH_SIZE := 100
  const DEFAULT_QUEUE_SIZE := 1000

  type Settings = c: Config | c.batchSize > 0 && c.queueSize > 0
    witness Config(DEFAULT_BATCH_SIZE, DEFAULT_QUEUE_SIZE)

  /** The sizes the constructor settles on. */
  function Settled(requested: Config): Settings {
    Config(if requested.batchSize <= 0 then DEFAULT_BATCH_SIZE else requested.batchSize,
           if requested.queueSize <= 0 then DEFAULT_QUEUE_SIZE else requested.queueSize)
  }

  datatype Command = Command(id: nat, shutdown: bool)

  datatype Result =
    | Done               // Write: the document was enqueued or dropped
    | EncodeFailed       // Write: the encoder returned an error
    | Skipped            // nil returned without doing anything
    | Replied(ok: bool)  // command: the worker's reply was received
    | Cancelled          // command: the context ended first

  datatype Call =
    | Writing(doc: Document)    // Write, between reading `stopped` and enqueuing
    | Queued                    // Shutdown, blocked in stopOnce.Do behind another
    | Entered                   // Shutdown, inside stopOnce.Do, `stopped` not yet set
    | Offering(shutdown: bool)  // blocked on sending to `commands`
    | Awaiting(shutdown: bool)  // blocked on receiving from its `result`
    | Returned(result: Result)

  datatype Worker =
    | Selecting                      // in the outer select
    | SizeCheck                      // just appended a document
    | Draining(command: Command)     // in the inner loop
    | Sending(reply: Option<Command>)
    | Replying(command: Command, ok: bool)
    | Exited

  datatype Once = Fresh | Running(id: nat) | Finished

  datatype State = State(
    queue: seq<Document>,      // contents of the `entries` channel
    batch: seq<Document>,
    worker: Worker,
    stopped: bool,
    once: Once,
    calls: map<nat, Call>,
    replies: map<nat, bool>)   // contents of each call's one-slot `result` channel

  datatype Step =
    | WriteCheck(id: nat, doc: Document)
    | WriteFail(id: nat)
    | WriteEnqueue(id: nat)
    | SyncCheck(id: nat)
    | ShutdownEnter(id: nat)
    | ShutdownStore(id: nat)
    | ShutdownSkip(id: nat)
    | Cancel(id: nat)
    | Collect(id: nat)
    | Take
    | CheckSize
    | Accept(id: nat)
    | DrainTake
    | DrainEnd
    | SendEnd(ok: bool)
    | Reply
    | Tick

  predicate Is(s: State, id: nat, call: Call) {
    id in s.calls && s.calls[id] == call
  }

  predicate Enabled(c: Settings, s: State, step: Step) {
    match step
    case WriteCheck(id, _) => id !in s.calls
    case WriteFail(id) => id in s.calls && s.calls[id].Writing?
    case WriteEnqueue(id) => id in s.calls && s.calls[id].Writing?
    case SyncCheck(id) => id !in s.calls
    case ShutdownEnter(id) => id !in s.calls
    case ShutdownStore(id) => Is(s, id, Entered)
    case ShutdownSkip(id) => Is(s, id, Queued) && s.once.Finished?
    case Cancel(id) => id in s.calls && (s.calls[id].Offering? || s.calls[id].Awaiting?)
    case Collect(id) => id in s.calls && s.calls[id].Awaiting? && id in s.replies
    case Take => s.worker.Selecting? && s.queue != []
    case CheckSize => s.worker.SizeCheck?
    case Accept(id) => s.worker.Selecting? && id in s.calls && s.calls[id].Offering?
    case DrainTake => s.worker.Draining? && s.queue != []
    case DrainEnd => s.worker.Draining? && s.queue == []
    case SendEnd(_) => s.worker.Sending?
    // A send on a channel of capacity one goes through only while it is empty.
    case Reply => s.worker.Replying? && s.worker.command.id !in s.replies
    case Tick => s.worker.Selecting?
  }

  /** `flush`: an empty batch is not sent, any other is handed to `send`. */
  function Flush(s: State, reply: Option<Command>): State {
    if s.batch == [] then
      s.(worker := if reply.Some? then Replying(reply.value, true) else Selecting)
    else
      s.(batch := [], worker := Sending(reply))
  }

  /** stopOnce.Do ends when the function it runs returns. */
  function Return(s: State, id: nat, shutdown: bool, result: Result): State {
    s.(calls := s.calls[id := Returned(result)], once := if shutdown then Finished else s.once)
  }

  function Apply(c: Settings, s: State, step: Step): State
    requires Enabled(c, s, step)
  {
    match step
    case WriteCheck(id, doc) =>
      s.(calls := s.calls[id := if s.stopped then Returned(Skipped) else Writing(doc)])
    case WriteFail(id) =>
      s.(calls := s.calls[id := Returned(EncodeFailed)])
    case WriteEnqueue(id) =>
      s.(calls := s.calls[id := Returned(Done)],
         queue := if |s.queue| < c.queueSize then s.queue + [s.calls[id].doc] else s.queue)
    case SyncCheck(id) =>
      s.(calls := s.calls[id := if s.stopped then Returned(Skipped) else Offering(false)])
    case ShutdownEnter(id) =>
      (match s.once
       case Fresh => s.(calls := s.calls[id := Entered], once := Running(id))
       case Running(_) => s.(calls := s.calls[id := Queued])
       case Finished => s.(calls := s.calls[id := Returned(Skipped)]))
    case ShutdownStore(id) =>
      s.(calls := s.calls[id := Offering(true)], stopped := true)
    case ShutdownSkip(id) =>
      s.(calls := s.calls[id := Returned(Skipped)])
    case Cancel(id) =>
      Return(s, id, s.calls[id].shutdown, Cancelled)
    case Collect(id) =>
      Return(s.(replies := s.replies - {id}), id, s.calls[id].shutdown, Replied(s.replies[id]))
    case Take =>
      s.(queue := s.queue[1..], batch := s.batch + [s.queue[0]], worker := SizeCheck)
    case CheckSize =>
      if |s.batch| >= c.batchSize then Flush(s, None) else s.(worker := Selecting)
    case Accept(id) =>
      s.(calls := s.calls[id := Awaiting(s.calls[id].shutdown)],
         worker := Draining(Command(id, s.calls[id].shutdown)))
    case DrainTake =>
      s.(queue := s.queue[1..], batch := s.batch + [s.queue[0]])
    case DrainEnd =>
      Flush(s, Some(s.worker.command))
    case SendEnd(ok) =>
      s.(worker := if s.worker.reply.Some? then Replying(s.worker.reply.value, ok) else Selecting)
    case Reply =>
      s.(replies := s.replies[s.worker.command.id := s.worker.ok],
         worker := if s.worker.command.shutdown then Exited else Selecting)
    case Tick =>
      Flush(s, None)
  }

  const INITIAL := State([], [], Selecting, false, Fresh, map[], map[])

  // What happened so far.

  datatype Entry = Entry(doc: Document, writer: nat, checkedAt: nat, enqueuedAt: nat)

  datatype Cause = BySize | ByTick | ByCommand(command: Command)

  /** One batch handed to `send`; `landed` counts the documents accepted while
      the command it serves was being drained. */
  datatype Batch = Batch(docs: seq<Document>, cause: Cause, landed: nat)

  datatype History = History(
    accepted: seq<Entry>,
    dropped: seq<Entry>,
    sent: seq<Batch>,
    received: seq<Command>,
    replied: seq<Command>,
    checkedAt: map<nat, nat>,   // index of each Write's first step
    begunAt: map<nat, nat>,     // documents accepted before each command call began
    winner: Option<nat>,        // the Shutdown call that runs stopOnce's function
    stoppedAt: Option<nat>,     // index of the step that set `stopped`
    drainStart: nat,            // documents accepted before the last Accept
    drainMark: nat,             // documents accepted before the last DrainEnd
    drainAt: Option<nat>)       // index of the last DrainEnd

  const NOTHING := History([], [], [], [], [], map[], map[], None, None, 0, 0, None)

  function Handed(s: State, h: History, cause: Cause, landed: nat): seq<Batch> {
    if s.batch == [] then h.sent else h.sent + [Batch(s.batch, cause, landed)]
  }

  /** The history after the step with index `now`. */
  function Record(c: Settings, s: State, h: History, step: Step, now: nat): History
    requires Enabled(c, s, step)
  {
    match step
    case WriteCheck(id, _) => h.(checkedAt := h.checkedAt[id := now])
    case WriteEnqueue(id) =>
      var entry := Entry(s.calls[id].doc, id, if id in h.checkedAt then h.checkedAt[id] else 0, now);
      if |s.queue| < c.queueSize then h.(accepted := h.accepted + [entry])
      else h.(dropped := h.dropped + [entry])
    case SyncCheck(id) => h.(begunAt := h.begunAt[id := |h.accepted|])
    case ShutdownEnter(id) =>
      h.(begunAt := h.begunAt[id := |h.accepted|],
         winner := if s.once.Fresh? then Some(id) else h.winner)
    case ShutdownStore(_) => h.(stoppedAt := Some(now))
    case CheckSize =>
      if |s.batch| >= c.batchSize then h.(sent := Handed(s, h, BySize, 0)) else h
    case Accept(id) =>
      h.(received := h.received + [Command(id, s.calls[id].shutdown)], drainStart := |h.accepted|)
    case DrainEnd =>
      var landed := if |h.accepted| >= h.drainStart then |h.accepted| - h.drainStart else 0;
      h.(sent := Handed(s, h, ByCommand(s.worker.command), landed),
         drainMark := |h.accepted|, drainAt := Some(now))
    case Reply => h.(replied := h.replied + [s.worker.command])
    case Tick => h.(sent := Handed(s, h, ByTick, 0))
    case _ => h
  }

  // Runs: every finite interleaving.

  datatype Machine = Machine(s: State, h: History)

  function Next(c: Settings, m: Machine, step: Step, now: nat): Machine
    requires Enabled(c, m.s, step)
  {
    Machine(Apply(c, m.s, step), Record(c, m.s, m.h, step, now))
  }

  /** Each step was enabled where it was taken. */
  predicate Legal(c: Settings, steps: seq<Step>)
    decreases |steps|, 0
  {
    steps == [] || (Legal(c, Front(steps)) && Enabled(c, Run(c, Front(steps)).s, Last(steps)))
  }

  /** The state and the history a run ends with. */
  function Run(c: Settings, steps: seq<Step>): Machine
    requires Legal(c, steps)
    decreases |steps|, 1
  {
    if steps == [] then Machine(INITIAL, NOTHING)
    else Next(c, Run(c, Front(steps)), Last(steps), |steps| - 1)
  }

  /** The documents of `entries`. */
  function Docs(entries: seq<Entry>): seq<Document> {
    seq(|entries|, i requires 0 <= i < |entries| => entries[i].doc)
  }

  function Contents(batches: seq<Batch>): seq<seq<Document>> {
    seq(|batches|, i requires 0 <= i < |batches| => batches[i].docs)
  }

  /** Everything ever handed to `send`, in order. */
  function Sent(h: History): seq<Document> {
    Flatten(Contents(h.sent))
  }

  /** The command the worker has received and not yet replied to. */
  function InService(w: Worker): seq<Command> {
    match w
    case Draining(command) => [command]
    case Replying(command, _) => [command]
    case Sending(Some(command)) => [command]
    case _ => []
  }
}
