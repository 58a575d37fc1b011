/** The audit log's background worker: it takes commands from a queue, stamps, chains and
    persists one event per record, and acknowledges synchronous records and flushes. */
module AuditWorker {
  import opened Base
  import opened HashChain
  import opened LogFiles

  const MAX_IN_MEMORY_ENTRIES := 100_000

  /** The library calls and whether a log path is configured. */
  datatype Setup = Setup(codec: Codec, lineLength: Event -> nat, persistent: bool)

  datatype Request = Request(session: nat, operation: Operation, result: OpResult, keyId: Option<string>)

  /** How the disk part of one record goes: all of it succeeds, or some call in it fails and
      leaves the files in some state. */
  datatype Io = Completes | Fails(left: Disk)

  /** The clock reading (nanoseconds from the UNIX epoch) and the disk, as one record meets them. */
  datatype Env = Env(wallNanos: int, io: Io)

  datatype Command = Record(request: Request, env: Env, sync: bool) | Flush

  datatype WorkerState = WorkerState(
    lastHash: Hash,
    lastTimestamp: nat,
    tampered: bool,
    entries: seq<Event>,
    disk: Disk)

  /** What becomes of a command. NotWritten: the chain moved on but the write failed. */
  datatype Outcome =
    | NoRecord
    | Refused
    | ClockExhausted
    | NotHashed
    | NotWritten(event: Event)
    | Committed(event: Event)

  function Distance(a: int, b: int): nat {
    if a <= b then b - a else a - b
  }

  /** The 64-bit timestamp nearest to the clock reading. */
  function WallTimestamp(wallNanos: int): (t: nat)
    ensures t <= U64_MAX
    ensures forall u: nat | u <= U64_MAX :: Distance(t, wallNanos) <= Distance(u, wallNanos)
  {
    if wallNanos < 0 then 0 else Min(wallNanos, U64_MAX)
  }

  /** The last MAX_IN_MEMORY_ENTRIES elements. */
  function Capped<T>(s: seq<T>): seq<T> {
    if |s| > MAX_IN_MEMORY_ENTRIES then s[|s| - MAX_IN_MEMORY_ENTRIES..] else s
  }

  datatype Step = Step(state: WorkerState, outcome: Outcome)

  /** One record. */
  function Process(setup: Setup, s: WorkerState, q: Request, env: Env): Step {
    var wall := WallTimestamp(env.wallNanos);
    if s.tampered then Step(s, Refused)
    else if wall <= s.lastTimestamp && s.lastTimestamp >= U64_MAX then
      Step(s.(tampered := true), ClockExhausted)
    else
      var timestamp := if wall <= s.lastTimestamp then s.lastTimestamp + 1 else wall;
      var event := Event(Payload(timestamp, q.session, q.operation, q.keyId, q.result), s.lastHash);
      match EventHash(setup.codec, event)
      case None => Step(s.(lastTimestamp := timestamp), NotHashed)
      case Some(h) =>
        var chained := s.(lastTimestamp := timestamp, lastHash := h);
        if setup.persistent && env.io.Fails? then Step(chained.(disk := env.io.left), NotWritten(event))
        else
          Step(chained.(
                 disk := if setup.persistent then Append(setup.lineLength, s.disk, event) else s.disk,
                 entries := Capped(s.entries + [event])),
               Committed(event))
  }

  datatype Trace = Trace(state: WorkerState, outcomes: seq<Outcome>)

  function StepCommand(setup: Setup, s: WorkerState, c: Command): Step {
    match c
    case Flush => Step(s, NoRecord)
    case Record(q, env, _) => Process(setup, s, q, env)
  }

  /** The commands one after the other. */
  function Run(setup: Setup, s: WorkerState, cmds: seq<Command>): (t: Trace)
    ensures |t.outcomes| == |cmds|
  {
    if cmds == [] then Trace(s, [])
    else
      var t := Run(setup, s, cmds[..|cmds| - 1]);
      var step := StepCommand(setup, t.state, cmds[|cmds| - 1]);
      Trace(step.state, t.outcomes + [step.outcome])
  }

  /** What can be seen of the worker from outside, with the log's state at that moment: a record
      taken from the queue has been processed, its synchronous caller is told the result, or a flush
      is acknowledged. */
  datatype Happening =
    | Processed(index: nat, outcome: Outcome, at: WorkerState)
    | RecordReply(index: nat, ok: bool, at: WorkerState)
    | FlushReply(index: nat, at: WorkerState)

  class AuditLog {
    const setup: Setup
    var lastHash: Hash
    var lastTimestamp: nat
    var tamperFlag: bool
    var entries: seq<Event>
    var files: Disk
    /** Everything that has happened so far, in order. */
    var trace: seq<Happening>

    function Snapshot(): WorkerState
      reads this
    {
      WorkerState(lastHash, lastTimestamp, tamperFlag, entries, files)
    }

    /** Start on existing files: the chain is recovered from the current one, and the log refuses
        to record when recovery finds it broken. */
    constructor (setup: Setup, files: Disk, current: File)
      ensures this.setup == setup
      ensures Snapshot() == Started(setup, files, current) && trace == []
    {
      this.setup := setup;
      this.trace := [];
      this.lastTimestamp := 0;
      this.entries := [];
      this.files := files;
      var r := RecoverChainFromFile(setup.codec, current);
      match r {
        case NoFile =>
          this.lastHash := ZERO;
          this.tamperFlag := false;
        case Verified(hash) =>
          this.lastHash := hash;
          this.tamperFlag := false;
        case Broken(_) =>
          this.lastHash := ZERO;
          this.tamperFlag := true;
      }
    }

    method ProcessRecord(q: Request, env: Env) returns (outcome: Outcome)
      modifies this
      ensures Step(Snapshot(), outcome) == Process(setup, old(Snapshot()), q, env)
      ensures trace == old(trace)
    {
      if tamperFlag {
        return Refused;
      }
      var wall := WallTimestamp(env.wallNanos);
      var timestamp := wall;
      if wall <= lastTimestamp {
        if lastTimestamp >= U64_MAX {
          tamperFlag := true;
          return ClockExhausted;
        }
        timestamp := lastTimestamp + 1;
      }
      lastTimestamp := timestamp;
      var event := Event(Payload(timestamp, q.session, q.operation, q.keyId, q.result), lastHash);
      var newHash := ChainHash(setup.codec, lastHash, event.payload);
      if newHash.None? {
        return NotHashed;
      }
      lastHash := newHash.value;
      if setup.persistent {
        if env.io.Fails? {
          files := env.io.left;
          return NotWritten(event);
        }
        WriteLine(event);
      }
      entries := entries + [event];
      if |entries| > MAX_IN_MEMORY_ENTRIES {
        var excess := |entries| - MAX_IN_MEMORY_ENTRIES;
        entries := entries[excess..];
      }
      return Committed(event);
    }

    method WriteLine(event: Event)
      modifies this`files
      ensures files == Append(setup.lineLength, old(files), event)
    {
      if 0 !in files {
        files := files[0 := []];
      }
      assert files == old(files)[0 := FileOf(old(files), 0)];
      if FileSize(setup.lineLength, files[0]) >= MAX_LOG_FILE_BYTES {
        var rotated := RotateLogFiles(files);
        files := rotated[0 := []];
      }
      files := files[0 := files[0] + [event]];
    }

    /** Answer on a channel: from now on the outside knows. */
    method Send(reply: Happening)
      requires !reply.Processed? && reply.at == Snapshot()
      modifies this`trace
      ensures trace == old(trace) + [reply]
    {
      trace := trace + [reply];
    }

    /** Take the record at position `next` from the queue and reply to a synchronous caller. */
    method HandleRecord(ghost start: WorkerState, queue: seq<Command>, next: nat, ghost owed: set<nat>)
      requires next < |queue| && queue[next].Record?
      requires Snapshot() == Run(setup, start, queue[..next]).state
      requires Orderly(setup, start, queue, next, owed, trace)
      modifies this
      ensures Snapshot() == Run(setup, start, queue[..next + 1]).state
      ensures Orderly(setup, start, queue, next + 1, owed, trace)
    {
      hide Orderly;
      assert queue[..next + 1][..next] == queue[..next];
      Taken(setup, start, queue, next, owed, trace);
      var outcome := ProcessRecord(queue[next].request, queue[next].env);
      trace := trace + [Processed(next, outcome, Snapshot())];
      if queue[next].sync {
        RecordAnswered(setup, start, queue, next, owed, trace);
        Send(RecordReply(next, outcome.Committed?, Snapshot()));
      }
    }

    /** One command taken while the flush at position `flushed` is being served. */
    method DrainOne(ghost start: WorkerState, queue: seq<Command>, ghost flushed: nat, next: nat)
      requires flushed < next < |queue|
      requires Snapshot() == Run(setup, start, queue[..next]).state
      requires Orderly(setup, start, queue, next, {flushed}, trace)
      modifies this
      ensures Snapshot() == Run(setup, start, queue[..next + 1]).state
      ensures Orderly(setup, start, queue, next + 1, {flushed}, trace)
    {
      hide Orderly;
      if queue[next].Record? {
        HandleRecord(start, queue, next, {flushed});
      } else {
        FlushPasses(setup, start, queue, next);
        Taken(setup, start, queue, next, {flushed}, trace);
        FlushAnswered(setup, start, queue, next + 1, {flushed} + {next}, next, trace);
        assert {flushed} + {next} - {next} == {flushed};
        Send(FlushReply(next, Snapshot()));
      }
    }

    /** Handle the flush at position `flushed`: drain what has arrived, then acknowledge it. The
        positions in `gaps` are those at which the drain finds the queue empty for the moment. */
    method HandleFlush(ghost start: WorkerState, queue: seq<Command>, gaps: set<nat>, flushed: nat) returns (next: nat)
      requires flushed < |queue| && queue[flushed].Flush?
      requires Snapshot() == Run(setup, start, queue[..flushed]).state
      requires Orderly(setup, start, queue, flushed, {}, trace)
      modifies this
      ensures flushed < next <= |queue|
      ensures Snapshot() == Run(setup, start, queue[..next]).state
      ensures Orderly(setup, start, queue, next, {}, trace)
    {
      hide Orderly;
      FlushPasses(setup, start, queue, flushed);
      Taken(setup, start, queue, flushed, {}, trace);
      assert {} + {flushed} == {flushed};
      next := flushed + 1;
      while next < |queue| && next !in gaps
        invariant flushed < next <= |queue|
        invariant Snapshot() == Run(setup, start, queue[..next]).state
        invariant Orderly(setup, start, queue, next, {flushed}, trace)
      {
        DrainOne(start, queue, flushed, next);
        next := next + 1;
      }
      FlushAnswered(setup, start, queue, next, {flushed}, flushed, trace);
      assert {flushed} - {flushed} == {};
      Send(FlushReply(flushed, Snapshot()));
    }

    /** Take commands until the queue is closed. The final state does not depend on how flushes
        drain; every reply is sent once, and none before the commands ahead of it are finished. */
    method WorkerLoop(queue: seq<Command>, gaps: set<nat>)
      requires trace == []
      modifies this
      ensures Snapshot() == Run(setup, old(Snapshot()), queue).state
      ensures Orderly(setup, old(Snapshot()), queue, |queue|, {}, trace)
    {
      hide Orderly;
      ghost var start := Snapshot();
      NothingYet(setup, start, queue);
      var next := 0;
      while next < |queue|
        invariant next <= |queue|
        invariant Snapshot() == Run(setup, start, queue[..next]).state
        invariant Orderly(setup, start, queue, next, {}, trace)
      {
        if queue[next].Record? {
          HandleRecord(start, queue, next, {});
          next := next + 1;
        } else {
          next := HandleFlush(start, queue, gaps, next);
        }
      }
      assert queue[..|queue|] == queue;
    }
  }

  // ---------------------------------------------------------------------------
  // What the outside sees, and when
  // ---------------------------------------------------------------------------

  /** The records processed, in order. */
  function ProcessedOf(trace: seq<Happening>): seq<Happening> {
    if trace == [] then []
    else ProcessedOf(trace[..|trace| - 1]) + if trace[|trace| - 1].Processed? then [trace[|trace| - 1]] else []
  }

  /** What processing the records of the queue one after the other should show. */
  function RecordsOf(setup: Setup, s: WorkerState, queue: seq<Command>): seq<Happening> {
    if queue == [] then []
    else
      var n := |queue| - 1;
      var step := StepCommand(setup, Run(setup, s, queue[..n]).state, queue[n]);
      RecordsOf(setup, s, queue[..n]) + if queue[n].Record? then [Processed(n, step.outcome, step.state)] else []
  }

  /** The log's state when this much has happened. */
  function StateAfter(s: WorkerState, trace: seq<Happening>): WorkerState {
    var done := ProcessedOf(trace);
    if done == [] then s else done[|done| - 1].at
  }

  /** A reply is true and comes in time. A record's reply says whether its event was committed, and the
      record and all before it have been processed by then; a flush is acknowledged when all records
      before it have been. */
  predicate InTime(setup: Setup, s: WorkerState, queue: seq<Command>, before: seq<Happening>, h: Happening) {
    match h
    case Processed(_, _, _) => true
    case RecordReply(i, ok, at) =>
      && i < |queue| && queue[i].Record? && queue[i].sync
      && ok == Run(setup, s, queue).outcomes[i].Committed?
      && RecordsOf(setup, s, queue[..i + 1]) <= ProcessedOf(before) && at == StateAfter(s, before)
    case FlushReply(i, at) =>
      && i < |queue| && queue[i].Flush?
      && RecordsOf(setup, s, queue[..i]) <= ProcessedOf(before) && at == StateAfter(s, before)
  }

  predicate NeedsReply(c: Command) {
    c.Flush? || c.sync
  }

  predicate RepliesTo(h: Happening, i: nat) {
    !h.Processed? && h.index == i
  }

  ghost predicate Replied(trace: seq<Happening>, i: nat) {
    exists h | h in trace :: RepliesTo(h, i)
  }

  function ReplyCount(queue: seq<Command>): nat {
    if queue == [] then 0
    else ReplyCount(queue[..|queue| - 1]) + if NeedsReply(queue[|queue| - 1]) then 1 else 0
  }

  function ReplyTotal(trace: seq<Happening>): nat {
    if trace == [] then 0
    else ReplyTotal(trace[..|trace| - 1]) + if trace[|trace| - 1].Processed? then 0 else 1
  }

  /** The first n commands have been taken. Their records were processed in queue order, every reply
      came in time, and each command that needs a reply has had one, except those `owed`. */
  ghost predicate Orderly(
    setup: Setup, s: WorkerState, queue: seq<Command>, n: nat, owed: set<nat>, trace: seq<Happening>)
    requires n <= |queue|
  {
    && ProcessedOf(trace) == RecordsOf(setup, s, queue[..n])
    && (forall p | 0 <= p < |trace| :: InTime(setup, s, queue, trace[..p], trace[p]))
    && (forall i | i in owed :: i < n && NeedsReply(queue[i]))
    && (forall i: nat | i < n && i !in owed && NeedsReply(queue[i]) :: Replied(trace, i))
    && ReplyTotal(trace) + |owed| == ReplyCount(queue[..n])
  }

  lemma NothingYet(setup: Setup, s: WorkerState, queue: seq<Command>)
    ensures Orderly(setup, s, queue, 0, {}, [])
  {
    assert queue[..0] == [];
  }

  /** One more happening: the trace stays in time, and keeps the replies it has. */
  lemma TraceGrows(setup: Setup, s: WorkerState, queue: seq<Command>, trace: seq<Happening>, h: Happening)
    requires forall p | 0 <= p < |trace| :: InTime(setup, s, queue, trace[..p], trace[p])
    requires InTime(setup, s, queue, trace, h)
    ensures var trace' := trace + [h];
            && (forall p | 0 <= p < |trace'| :: InTime(setup, s, queue, trace'[..p], trace'[p]))
            && ProcessedOf(trace') == ProcessedOf(trace) + (if h.Processed? then [h] else [])
            && ReplyTotal(trace') == ReplyTotal(trace) + (if h.Processed? then 0 else 1)
            && (forall i: nat | Replied(trace, i) || RepliesTo(h, i) :: Replied(trace', i))
  {
    hide InTime, ProcessedOf, ReplyTotal;
    var trace' := trace + [h];
    assert trace'[..|trace|] == trace;
    forall p | 0 <= p < |trace'|
      ensures InTime(setup, s, queue, trace'[..p], trace'[p])
    {
      assert p < |trace| ==> trace'[..p] == trace[..p];
    }
    forall i: nat | Replied(trace, i) || RepliesTo(h, i)
      ensures Replied(trace', i)
    {
      assert h in trace';
      assert forall x | x in trace :: x in trace';
    }
    GrowsBy(trace, h);
  }

  lemma GrowsBy(trace: seq<Happening>, h: Happening)
    ensures ProcessedOf(trace + [h]) == ProcessedOf(trace) + (if h.Processed? then [h] else [])
    ensures ReplyTotal(trace + [h]) == ReplyTotal(trace) + (if h.Processed? then 0 else 1)
  {
    assert (trace + [h])[..|trace|] == trace;
  }

  lemma NextRecord(setup: Setup, s: WorkerState, queue: seq<Command>, n: nat)
    requires n < |queue|
    ensures var step := StepCommand(setup, Run(setup, s, queue[..n]).state, queue[n]);
            RecordsOf(setup, s, queue[..n + 1])
            == RecordsOf(setup, s, queue[..n])
               + if queue[n].Record? then [Processed(n, step.outcome, step.state)] else []
    ensures ReplyCount(queue[..n + 1]) == ReplyCount(queue[..n]) + if NeedsReply(queue[n]) then 1 else 0
  {
    assert queue[..n + 1][..n] == queue[..n];
  }

  lemma {:induction false} EarlierRecords(setup: Setup, s: WorkerState, queue: seq<Command>, i: nat, n: nat)
    requires i <= n <= |queue|
    ensures RecordsOf(setup, s, queue[..i]) <= RecordsOf(setup, s, queue[..n])
  {
    hide RecordsOf, StepCommand;
    if i < n {
      EarlierRecords(setup, s, queue, i, n - 1);
      NextRecord(setup, s, queue, n - 1);
    }
  }

  /** What the records processed leave behind is the state of the run. */
  lemma {:induction false} StateOfRecords(setup: Setup, s: WorkerState, queue: seq<Command>, trace: seq<Happening>)
    requires ProcessedOf(trace) == RecordsOf(setup, s, queue)
    ensures StateAfter(s, trace) == Run(setup, s, queue).state
  {
    LastRecord(setup, s, queue);
  }

  lemma {:induction false} LastRecord(setup: Setup, s: WorkerState, queue: seq<Command>)
    ensures var done := RecordsOf(setup, s, queue);
            Run(setup, s, queue).state == if done == [] then s else done[|done| - 1].at
  {
    if queue != [] {
      LastRecord(setup, s, queue[..|queue| - 1]);
    }
  }

  /** The next command is taken, and processed if it is a record. */
  lemma Taken(setup: Setup, s: WorkerState, queue: seq<Command>, n: nat, owed: set<nat>, trace: seq<Happening>)
    requires n < |queue| && Orderly(setup, s, queue, n, owed, trace)
    ensures n !in owed
    ensures var step := StepCommand(setup, Run(setup, s, queue[..n]).state, queue[n]);
            var trace' := if queue[n].Record? then trace + [Processed(n, step.outcome, step.state)] else trace;
            Orderly(setup, s, queue, n + 1, if NeedsReply(queue[n]) then owed + {n} else owed, trace')
  {
    hide ProcessedOf, ReplyTotal, ReplyCount, RecordsOf, StepCommand, Run;
    NextRecord(setup, s, queue, n);
    assert n !in owed;
    if queue[n].Record? {
      var step := StepCommand(setup, Run(setup, s, queue[..n]).state, queue[n]);
      TraceGrows(setup, s, queue, trace, Processed(n, step.outcome, step.state));
    }
  }

  lemma Answered(
    setup: Setup, s: WorkerState, queue: seq<Command>, n: nat, owed: set<nat>, trace: seq<Happening>, reply: Happening)
    requires n <= |queue| && Orderly(setup, s, queue, n, owed, trace)
    requires !reply.Processed? && reply.index in owed && InTime(setup, s, queue, trace, reply)
    ensures Orderly(setup, s, queue, n, owed - {reply.index}, trace + [reply])
  {
    hide ProcessedOf, ReplyTotal, ReplyCount, RecordsOf, InTime;
    TraceGrows(setup, s, queue, trace, reply);
  }

  lemma RecordAnswered(setup: Setup, s: WorkerState, queue: seq<Command>, i: nat, owed: set<nat>, trace: seq<Happening>)
    requires i < |queue| && queue[i].Record? && queue[i].sync && i !in owed
    requires Orderly(setup, s, queue, i + 1, owed + {i}, trace)
    ensures var t := Run(setup, s, queue[..i + 1]);
            Orderly(setup, s, queue, i + 1, owed, trace + [RecordReply(i, t.outcomes[i].Committed?, t.state)])
  {
    hide Run, RecordsOf, ProcessedOf;
    var t := Run(setup, s, queue[..i + 1]);
    OutcomesOfPrefix(setup, s, queue, i + 1);
    StateOfRecords(setup, s, queue[..i + 1], trace);
    assert owed + {i} - {i} == owed;
    Answered(setup, s, queue, i + 1, owed + {i}, trace, RecordReply(i, t.outcomes[i].Committed?, t.state));
  }

  lemma FlushAnswered(
    setup: Setup, s: WorkerState, queue: seq<Command>, n: nat, owed: set<nat>, i: nat, trace: seq<Happening>)
    requires n <= |queue| && i in owed && i < |queue| && queue[i].Flush?
    requires Orderly(setup, s, queue, n, owed, trace)
    ensures Orderly(setup, s, queue, n, owed - {i}, trace + [FlushReply(i, Run(setup, s, queue[..n]).state)])
  {
    hide Run, RecordsOf, ProcessedOf;
    EarlierRecords(setup, s, queue, i, n);
    StateOfRecords(setup, s, queue[..n], trace);
    Answered(setup, s, queue, n, owed, trace, FlushReply(i, Run(setup, s, queue[..n]).state));
  }

  lemma {:induction false} RecordShown(setup: Setup, s: WorkerState, queue: seq<Command>, j: nat, n: nat)
    requires j < n <= |queue| && queue[j].Record?
    ensures Processed(j, Run(setup, s, queue).outcomes[j], Run(setup, s, queue[..j + 1]).state)
            in RecordsOf(setup, s, queue[..n])
  {
    if j + 1 < n {
      hide Run, StepCommand;
      RecordShown(setup, s, queue, j, n - 1);
      NextRecord(setup, s, queue, n - 1);
    } else {
      OutcomesOfPrefix(setup, s, queue, n);
      NextRecord(setup, s, queue, j);
      assert queue[..n][..j] == queue[..j];
    }
  }

  lemma {:induction false} ProcessedHappened(trace: seq<Happening>)
    ensures forall h | h in ProcessedOf(trace) :: h in trace
  {
    if trace != [] {
      ProcessedHappened(trace[..|trace| - 1]);
    }
  }

  /** Before a flush is acknowledged every record ahead of it has been processed, with the outcome and
      the state that the queue order gives it; before a caller hears of success its event is committed. */
  lemma RepliesFollowRecords(
    setup: Setup, s: WorkerState, queue: seq<Command>, n: nat, owed: set<nat>, trace: seq<Happening>, p: nat, j: nat)
    requires n <= |queue| && Orderly(setup, s, queue, n, owed, trace) && p < |trace| && !trace[p].Processed?
    requires j < |queue| && queue[j].Record? && (j < trace[p].index || (j == trace[p].index && trace[p].RecordReply?))
    ensures Processed(j, Run(setup, s, queue).outcomes[j], Run(setup, s, queue[..j + 1]).state) in trace[..p]
    ensures trace[p].RecordReply? && j == trace[p].index && trace[p].ok ==> Run(setup, s, queue).outcomes[j].Committed?
  {
    hide Run, RecordsOf, ProcessedOf;
    var upTo := if trace[p].RecordReply? then trace[p].index + 1 else trace[p].index;
    assert InTime(setup, s, queue, trace[..p], trace[p]);
    RecordShown(setup, s, queue, j, upTo);
    ProcessedHappened(trace[..p]);
    assert RecordsOf(setup, s, queue[..upTo]) <= ProcessedOf(trace[..p]);
  }

  /** A worker that answers before it has processed anything is out of order, unless no record comes
      before the command it answers. */
  lemma EarlyReplyIsOutOfOrder(
    setup: Setup, s: WorkerState, queue: seq<Command>, n: nat, owed: set<nat>, trace: seq<Happening>, p: nat, j: nat)
    requires n <= |queue| && p < |trace| && !trace[p].Processed? && ProcessedOf(trace[..p]) == []
    requires j < |queue| && queue[j].Record? && (j < trace[p].index || (j == trace[p].index && trace[p].RecordReply?))
    ensures !Orderly(setup, s, queue, n, owed, trace)
  {
    hide Run, RecordsOf;
    if Orderly(setup, s, queue, n, owed, trace) {
      var upTo := if trace[p].RecordReply? then trace[p].index + 1 else trace[p].index;
      assert InTime(setup, s, queue, trace[..p], trace[p]);
      RecordShown(setup, s, queue, j, upTo);
    }
  }

  lemma FlushPasses(setup: Setup, s: WorkerState, queue: seq<Command>, n: nat)
    requires n < |queue| && queue[n].Flush?
    ensures Run(setup, s, queue[..n + 1]).state == Run(setup, s, queue[..n]).state
  {
    assert queue[..n + 1][..n] == queue[..n];
  }

  lemma {:induction false} OutcomesOfPrefix(setup: Setup, s: WorkerState, queue: seq<Command>, n: nat)
    requires n <= |queue|
    ensures Run(setup, s, queue[..n]).outcomes == Run(setup, s, queue).outcomes[..n]
  {
    if n == |queue| {
      assert queue[..n] == queue;
    } else {
      OutcomesOfPrefix(setup, s, queue[..|queue| - 1], n);
      assert queue[..|queue| - 1][..n] == queue[..n];
    }
  }

  /** The state right after start-up on the given files. */
  function Started(setup: Setup, files: Disk, current: File): WorkerState {
    match Recover(setup.codec, current)
    case NoFile => WorkerState(ZERO, 0, false, [], files)
    case Verified(hash) => WorkerState(hash, 0, false, [], files)
    case Broken(_) => WorkerState(ZERO, 0, true, [], files)
  }

  // ---------------------------------------------------------------------------
  // Runs
  // ---------------------------------------------------------------------------

  /** The events committed, in order. */
  function CommittedEvents(os: seq<Outcome>): seq<Event> {
    if os == [] then []
    else
      CommittedEvents(os[..|os| - 1])
      + if os[|os| - 1].Committed? then [os[|os| - 1].event] else []
  }

  predicate Chained(o: Outcome) {
    o.Committed? || o.NotWritten?
  }

  /** The events that moved the chain on, committed or not, in order. */
  function ChainedEvents(os: seq<Outcome>): seq<Event> {
    if os == [] then []
    else
      ChainedEvents(os[..|os| - 1])
      + if Chained(os[|os| - 1]) then [os[|os| - 1].event] else []
  }

  predicate StrictlyIncreasing(es: seq<Event>, low: nat, high: nat) {
    && (forall i | 0 <= i < |es| :: low < es[i].payload.timestamp <= high)
    && (forall i, j | 0 <= i < j < |es| :: es[i].payload.timestamp < es[j].payload.timestamp)
  }

  /** One command: the chain and the clock move on together, or the chain stays. */
  lemma StepChains(setup: Setup, s: WorkerState, c: Command)
    ensures var step := StepCommand(setup, s, c);
            if Chained(step.outcome) then
              && step.outcome.event.prev == s.lastHash
              && EventHash(setup.codec, step.outcome.event) == Some(step.state.lastHash)
              && s.lastTimestamp < step.outcome.event.payload.timestamp == step.state.lastTimestamp
            else
              step.state.lastHash == s.lastHash && s.lastTimestamp <= step.state.lastTimestamp
  {
  }

  lemma RunUnfold(setup: Setup, s: WorkerState, cmds: seq<Command>)
    requires cmds != []
    ensures var t := Run(setup, s, cmds[..|cmds| - 1]);
            var step := StepCommand(setup, t.state, cmds[|cmds| - 1]);
            Run(setup, s, cmds).state == step.state
            && ChainedEvents(Run(setup, s, cmds).outcomes)
               == ChainedEvents(t.outcomes) + (if Chained(step.outcome) then [step.outcome.event] else [])
            && CommittedEvents(Run(setup, s, cmds).outcomes)
               == CommittedEvents(t.outcomes) + (if step.outcome.Committed? then [step.outcome.event] else [])
  {
    var t := Run(setup, s, cmds[..|cmds| - 1]);
    var step := StepCommand(setup, t.state, cmds[|cmds| - 1]);
    assert (t.outcomes + [step.outcome])[..|cmds| - 1] == t.outcomes;
  }

  /** Whatever the clock does, the chain runs through exactly the chained events, with strictly
      increasing timestamps. */
  lemma {:induction false} RunChains(setup: Setup, s: WorkerState, cmds: seq<Command>)
    ensures var t := Run(setup, s, cmds);
            && ChainEnd(setup.codec, s.lastHash, ChainedEvents(t.outcomes)) == Some(t.state.lastHash)
            && s.lastTimestamp <= t.state.lastTimestamp
            && StrictlyIncreasing(ChainedEvents(t.outcomes), s.lastTimestamp, t.state.lastTimestamp)
  {
    if cmds != [] {
      var n := |cmds| - 1;
      RunChains(setup, s, cmds[..n]);
      var t := Run(setup, s, cmds[..n]);
      StepChains(setup, t.state, cmds[n]);
      RunUnfold(setup, s, cmds);
      ExtendChain(setup.codec, s, t.state, ChainedEvents(t.outcomes), StepCommand(setup, t.state, cmds[n]));
    }
  }

  lemma ExtendChain(c: Codec, s: WorkerState, t: WorkerState, es: seq<Event>, step: Step)
    requires ChainEnd(c, s.lastHash, es) == Some(t.lastHash)
    requires s.lastTimestamp <= t.lastTimestamp && StrictlyIncreasing(es, s.lastTimestamp, t.lastTimestamp)
    requires if Chained(step.outcome) then
               && step.outcome.event.prev == t.lastHash
               && EventHash(c, step.outcome.event) == Some(step.state.lastHash)
               && t.lastTimestamp < step.outcome.event.payload.timestamp == step.state.lastTimestamp
             else
               step.state.lastHash == t.lastHash && t.lastTimestamp <= step.state.lastTimestamp
    ensures var es' := es + (if Chained(step.outcome) then [step.outcome.event] else []);
            ChainEnd(c, s.lastHash, es') == Some(step.state.lastHash)
            && StrictlyIncreasing(es', s.lastTimestamp, step.state.lastTimestamp)
  {
    if Chained(step.outcome) {
      assert (es + [step.outcome.event])[..|es|] == es;
    } else {
      assert es + [] == es;
    }
  }

  /** The same for the events committed: failed writes leave gaps but no disorder. */
  lemma {:induction false} CommittedTimestampsIncrease(setup: Setup, s: WorkerState, cmds: seq<Command>)
    ensures var t := Run(setup, s, cmds);
            && s.lastTimestamp <= t.state.lastTimestamp
            && StrictlyIncreasing(CommittedEvents(t.outcomes), s.lastTimestamp, t.state.lastTimestamp)
  {
    if cmds != [] {
      var n := |cmds| - 1;
      CommittedTimestampsIncrease(setup, s, cmds[..n]);
      var t := Run(setup, s, cmds[..n]);
      StepChains(setup, t.state, cmds[n]);
      RunUnfold(setup, s, cmds);
    }
  }

  lemma StepEntries(setup: Setup, s: WorkerState, c: Command)
    ensures var step := StepCommand(setup, s, c);
            step.state.entries
            == if step.outcome.Committed? then Capped(s.entries + [step.outcome.event]) else s.entries
  {
  }

  /** The in-memory list is the last MAX_IN_MEMORY_ENTRIES of the events committed. */
  lemma {:induction false} RunKeepsLatest(setup: Setup, s: WorkerState, cmds: seq<Command>)
    requires |s.entries| <= MAX_IN_MEMORY_ENTRIES
    ensures var t := Run(setup, s, cmds);
            t.state.entries == Capped(s.entries + CommittedEvents(t.outcomes))
  {
    if cmds == [] {
      assert s.entries + [] == s.entries;
    } else {
      var n := |cmds| - 1;
      RunKeepsLatest(setup, s, cmds[..n]);
      var t := Run(setup, s, cmds[..n]);
      StepEntries(setup, t.state, cmds[n]);
      RunUnfold(setup, s, cmds);
      var step := StepCommand(setup, t.state, cmds[n]);
      var es := CommittedEvents(t.outcomes);
      if step.outcome.Committed? {
        assert s.entries + (es + [step.outcome.event]) == (s.entries + es) + [step.outcome.event];
        CapAgain(s.entries + es, step.outcome.event);
      } else {
        assert es + [] == es;
      }
    }
  }

  lemma CapAgain<T>(s: seq<T>, x: T)
    ensures Capped(Capped(s) + [x]) == Capped(s + [x])
  {
  }

  // ---------------------------------------------------------------------------
  // What the events tell
  // ---------------------------------------------------------------------------

  /** What an event says was asked to be recorded. */
  function RequestOf(e: Event): Request {
    Request(e.payload.session, e.payload.operation, e.payload.result, e.payload.keyId)
  }

  function RequestsOf(es: seq<Event>): seq<Request> {
    seq(|es|, i requires 0 <= i < |es| => RequestOf(es[i]))
  }

  lemma StepTells(setup: Setup, s: WorkerState, c: Command)
    ensures var o := StepCommand(setup, s, c).outcome;
            Chained(o) ==> c.Record? && RequestOf(o.event) == c.request
  {
    hide Append;
  }

  /** Every event chained in a run, committed or not, tells what its own record asked for. */
  lemma {:induction false} RunTells(setup: Setup, s: WorkerState, cmds: seq<Command>, i: nat)
    requires i < |cmds| && Chained(Run(setup, s, cmds).outcomes[i])
    ensures cmds[i].Record? && RequestOf(Run(setup, s, cmds).outcomes[i].event) == cmds[i].request
  {
    hide StepCommand;
    var n := |cmds| - 1;
    if i < n {
      RunTells(setup, s, cmds[..n], i);
    } else {
      StepTells(setup, Run(setup, s, cmds[..n]).state, cmds[n]);
    }
  }

  /** The requests of the records committed, in order. */
  function CommittedRequests(cmds: seq<Command>, os: seq<Outcome>): seq<Request>
    requires |cmds| == |os|
  {
    if cmds == [] then []
    else
      var n := |cmds| - 1;
      CommittedRequests(cmds[..n], os[..n]) + if os[n].Committed? && cmds[n].Record? then [cmds[n].request] else []
  }

  lemma {:induction false} CommittedTell(setup: Setup, s: WorkerState, cmds: seq<Command>)
    ensures var os := Run(setup, s, cmds).outcomes;
            RequestsOf(CommittedEvents(os)) == CommittedRequests(cmds, os)
  {
    hide StepCommand;
    if cmds != [] {
      var n := |cmds| - 1;
      CommittedTell(setup, s, cmds[..n]);
      var t := Run(setup, s, cmds[..n]);
      StepTells(setup, t.state, cmds[n]);
      RunUnfold(setup, s, cmds);
      assert Run(setup, s, cmds).outcomes[..n] == t.outcomes;
    }
  }

  lemma CappedRequests(es: seq<Event>)
    ensures RequestsOf(Capped(es)) == Capped(RequestsOf(es))
  {
  }

  /** The in-memory list of a new log holds the requests of the last 100,000 committed records, in order. */
  lemma EntriesTell(setup: Setup, s: WorkerState, cmds: seq<Command>)
    requires s.entries == []
    ensures var t := Run(setup, s, cmds);
            RequestsOf(t.state.entries) == Capped(CommittedRequests(cmds, t.outcomes))
  {
    hide Run;
    var t := Run(setup, s, cmds);
    RunKeepsLatest(setup, s, cmds);
    assert s.entries + CommittedEvents(t.outcomes) == CommittedEvents(t.outcomes);
    CommittedTell(setup, s, cmds);
    CappedRequests(CommittedEvents(t.outcomes));
  }

  /** Exactly what becomes of a record. It gets the clock reading as its timestamp, or the next one
      after the last if the clock is not past that. */
  lemma FateOfRecord(setup: Setup, s: WorkerState, q: Request, env: Env)
    ensures var step, wall := Process(setup, s, q, env), WallTimestamp(env.wallNanos);
            var stamp := if wall > s.lastTimestamp then wall else s.lastTimestamp + 1;
            var exhausted := stamp > U64_MAX;
            var bytes := setup.codec.payloadBytes(Payload(stamp, q.session, q.operation, q.keyId, q.result));
            var writes := !setup.persistent || env.io.Completes?;
            && (step.outcome.Refused? <==> s.tampered)
            && (step.outcome.ClockExhausted? <==> !s.tampered && exhausted)
            && (step.outcome.NotHashed? <==> !s.tampered && !exhausted && bytes.None?)
            && (step.outcome.NotWritten? <==> !s.tampered && !exhausted && bytes.Some? && !writes)
            && (step.outcome.Committed? <==> !s.tampered && !exhausted && bytes.Some? && writes)
            && (step.state.tampered <==> s.tampered || exhausted)
            && step.state.lastTimestamp == (if s.tampered || exhausted then s.lastTimestamp else stamp)
            && (Chained(step.outcome) ==> step.outcome.event.payload.timestamp == stamp)
  {
    hide Append;
  }
}
