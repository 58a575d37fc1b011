/** Processes one after the other on one directory: what the files hold after any number of
    rotations, when a restart continues the chain, and how timestamps go on. */
module AuditRestarts {
  import opened Base
  import opened HashChain
  import opened LogFiles
  import opened AuditWorker
  import opened AuditRuns

  datatype Act = Restart | Do(command: Command)

  /** What start-up finds at the log path. */
  function CurrentFile(d: Disk): File {
    if 0 in d then Lines(Entries(d[0])) else Missing
  }

  function StepAct(setup: Setup, s: WorkerState, a: Act): WorkerState {
    match a
    case Restart => Started(setup, s.disk, CurrentFile(s.disk))
    case Do(c) => StepCommand(setup, s, c).state
  }

  function OutcomeOf(setup: Setup, s: WorkerState, a: Act): Outcome {
    match a
    case Restart => NoRecord
    case Do(c) => StepCommand(setup, s, c).outcome
  }

  /** The directory is empty at first. */
  function RunActs(setup: Setup, acts: seq<Act>): WorkerState {
    if acts == [] then Started(setup, map[], Missing)
    else StepAct(setup, RunActs(setup, acts[..|acts| - 1]), acts[|acts| - 1])
  }

  /** A write that fails leaves the files as they were. */
  predicate StepKeepsFiles(s: WorkerState, a: Act) {
    a.Do? && a.command.Record? && a.command.env.io.Fails? ==> a.command.env.io.left == s.disk
  }

  predicate KeepsFiles(setup: Setup, acts: seq<Act>) {
    forall i | 0 <= i < |acts| :: StepKeepsFiles(RunActs(setup, acts[..i]), acts[i])
  }

  lemma KeepsFilesPrefix(setup: Setup, acts: seq<Act>, n: nat)
    requires KeepsFiles(setup, acts) && n <= |acts|
    ensures KeepsFiles(setup, acts[..n])
  {
    hide RunActs, StepKeepsFiles;
    forall i | 0 <= i < n
      ensures StepKeepsFiles(RunActs(setup, acts[..n][..i]), acts[..n][i])
    {
      assert acts[..n][..i] == acts[..i];
      assert StepKeepsFiles(RunActs(setup, acts[..i]), acts[i]);
    }
  }

  lemma StepWrites(setup: Setup, s: WorkerState, a: Act)
    requires setup.persistent && StepKeepsFiles(s, a)
    ensures var o := OutcomeOf(setup, s, a);
            StepAct(setup, s, a).disk
            == if o.Committed? then Append(setup.lineLength, s.disk, o.event) else s.disk
  {
    hide Append;
  }

  // ---------------------------------------------------------------------------
  // What is written, and what is missing
  // ---------------------------------------------------------------------------

  function Last(setup: Setup, acts: seq<Act>): Outcome
    requires acts != []
  {
    OutcomeOf(setup, RunActs(setup, acts[..|acts| - 1]), acts[|acts| - 1])
  }

  /** All events committed, by whichever process. */
  function Written(setup: Setup, acts: seq<Act>): seq<Event> {
    if acts == [] then []
    else
      Written(setup, acts[..|acts| - 1]) + if Last(setup, acts).Committed? then [Last(setup, acts).event] else []
  }

  /** All events chained, written or not. */
  function ChainedIn(setup: Setup, acts: seq<Act>): seq<Event> {
    if acts == [] then []
    else
      ChainedIn(setup, acts[..|acts| - 1]) + if Chained(Last(setup, acts)) then [Last(setup, acts).event] else []
  }

  /** Events that the running process has chained and failed to write since its last commit. */
  function Pending(setup: Setup, acts: seq<Act>): seq<Event> {
    if acts == [] || acts[|acts| - 1].Restart? || Last(setup, acts).Committed? then []
    else
      Pending(setup, acts[..|acts| - 1]) + if Last(setup, acts).NotWritten? then [Last(setup, acts).event] else []
  }

  /** Some process has committed an event after it failed to write one. */
  predicate Gapped(setup: Setup, acts: seq<Act>) {
    acts != []
    && (|| Gapped(setup, acts[..|acts| - 1])
        || (Last(setup, acts).Committed? && Pending(setup, acts[..|acts| - 1]) != []))
  }

  lemma {:induction false} DiskIsWritten(setup: Setup, acts: seq<Act>)
    requires setup.persistent && KeepsFiles(setup, acts)
    ensures RunActs(setup, acts).disk == AppendAll(setup.lineLength, map[], Written(setup, acts))
  {
    hide StepAct, OutcomeOf, Append;
    if acts != [] {
      var n := |acts| - 1;
      KeepsFilesPrefix(setup, acts, n);
      DiskIsWritten(setup, acts[..n]);
      StepWrites(setup, RunActs(setup, acts[..n]), acts[n]);
      var w := Written(setup, acts[..n]);
      if Last(setup, acts).Committed? {
        assert (w + [Last(setup, acts).event])[..|w|] == w;
      } else {
        assert w + [] == w;
      }
    } else {
      StartsEmpty(setup);
    }
  }

  lemma StartsEmpty(setup: Setup)
    ensures Started(setup, map[], Missing) == WorkerState(ZERO, 0, false, [], map[])
  {
  }

  /** The current file does not start at the zero hash. */
  predicate Midway(d: Disk) {
    FileOf(d, 0) != [] && FileOf(d, 0)[0].prev != ZERO
  }

  lemma MidwayIsBroken(c: Codec, d: Disk)
    requires Midway(d)
    ensures Recover(c, CurrentFile(d)) == Broken(1)
  {
    var lines := Entries(d[0]);
    assert lines[..1] == [lines[0]] && lines[..0] == [] && lines[..1][..0] == [];
    FirstRejectedIs(c, lines, 1);
  }

  lemma AppendedFile(lineLength: Event -> nat, written: seq<Event>)
    ensures var d := AppendAll(lineLength, map[], written);
            (0 in d <==> written != []) && (0 in d ==> d[0] != [])
  {
    hide Append;
  }

  /** What recovery makes of the files, if all events written form one chain. */
  lemma FileVerdict(c: Codec, lineLength: Event -> nat, written: seq<Event>, end: Hash)
    requires ChainEnd(c, ZERO, written) == Some(end)
    ensures var d := AppendAll(lineLength, map[], written);
            Recover(c, CurrentFile(d)) == if Midway(d) then Broken(1) else if end == ZERO then NoFile else Verified(end)
  {
    hide AppendAll, ChainEnd;
    var d := AppendAll(lineLength, map[], written);
    AppendedFile(lineLength, written);
    if Midway(d) {
      MidwayIsBroken(c, d);
    } else if 0 in d {
      RotatedFilesStayLinked(c, lineLength, ZERO, written, end);
      assert FileLinked(c, d, 0, end);
      LinesOfEvents(c, d[0]);
    } else {
      NothingChained(c);
    }
  }

  lemma NothingChained(c: Codec)
    ensures ChainEnd(c, ZERO, []) == Some(ZERO)
  {
  }

  /** Without a rotation the current file is all that was written. */
  lemma UnrotatedFile(lineLength: Event -> nat, written: seq<Event>)
    ensures var d := AppendAll(lineLength, map[], written);
            1 !in d ==> FileOf(d, 0) == written
  {
    hide AppendAll;
    var d := AppendAll(lineLength, map[], written);
    var k, dropped := FilesHoldSuffix(lineLength, written);
    if 1 !in d {
      OnlyCurrent(d, MAX_ROTATED_FILES);
    }
  }

  lemma {:induction false} OnlyCurrent(d: Disk, g: nat)
    requires forall i: nat | 1 <= i <= g :: i !in d
    ensures History(d, g) == FileOf(d, 0)
  {
    if g > 0 {
      OnlyCurrent(d, g - 1);
    }
  }

  lemma UnrotatedStartsAtZero(c: Codec, lineLength: Event -> nat, written: seq<Event>)
    requires ChainEnd(c, ZERO, written).Some?
    ensures var d := AppendAll(lineLength, map[], written); 1 !in d ==> !Midway(d)
  {
    UnrotatedFile(lineLength, written);
    if written != [] {
      ChainPrefix(c, ZERO, written, 0);
    }
  }

  // ---------------------------------------------------------------------------
  // As long as nothing is missing
  // ---------------------------------------------------------------------------

  /** The events written form one chain from zero to `end`, the pending ones go on from there to the
      worker's hash, unless the worker was started in mid-chain and refuses to record. */
  ghost predicate Holds(c: Codec, s: WorkerState, written: seq<Event>, pending: seq<Event>, end: Hash) {
    && ChainEnd(c, ZERO, written) == Some(end)
    && (ChainEnd(c, end, pending) == Some(s.lastHash)
        || (pending == [] && s.tampered && Midway(s.disk)))
  }

  lemma ChainMore(c: Codec, h: Hash, es: seq<Event>, e: Event)
    requires ChainEnd(c, h, es) == Some(e.prev)
    ensures ChainEnd(c, h, es + [e]) == EventHash(c, e)
  {
    assert (es + [e])[..|es|] == es;
  }

  lemma DoHolds(setup: Setup, s: WorkerState, c: Command, w: seq<Event>, p: seq<Event>, end: Hash) returns (end': Hash)
    requires setup.persistent && StepKeepsFiles(s, Do(c)) && Holds(setup.codec, s, w, p, end)
    requires StepCommand(setup, s, c).outcome.Committed? ==> p == []
    ensures var step := StepCommand(setup, s, c);
            var w' := if step.outcome.Committed? then w + [step.outcome.event] else w;
            var p' := if step.outcome.Committed? then []
                      else if step.outcome.NotWritten? then p + [step.outcome.event] else p;
            Holds(setup.codec, step.state, w', p', end')
  {
    hide Append, ChainEnd;
    var step := StepCommand(setup, s, c);
    StepChains(setup, s, c);
    StepWrites(setup, s, Do(c));
    end' := end;
    NothingReplayed(setup.codec, end);
    if step.outcome.Committed? {
      assert !s.tampered;
      ChainMore(setup.codec, ZERO, w, step.outcome.event);
      end' := step.state.lastHash;
      NothingReplayed(setup.codec, end');
    } else if step.outcome.NotWritten? {
      assert !s.tampered;
      ChainMore(setup.codec, end, p, step.outcome.event);
    } else {
      assert s.tampered ==> step.state.tampered;
    }
  }

  lemma NothingReplayed(c: Codec, h: Hash)
    ensures ChainEnd(c, h, []) == Some(h)
  {
  }

  lemma RestartHolds(setup: Setup, s: WorkerState, w: seq<Event>, end: Hash)
    requires s.disk == AppendAll(setup.lineLength, map[], w) && ChainEnd(setup.codec, ZERO, w) == Some(end)
    ensures Holds(setup.codec, StepAct(setup, s, Restart), w, [], end)
  {
    hide AppendAll, ChainEnd, Recover;
    FileVerdict(setup.codec, setup.lineLength, w, end);
    NothingReplayed(setup.codec, end);
  }

  lemma {:induction false} ActsHold(setup: Setup, acts: seq<Act>) returns (end: Hash)
    requires setup.persistent && KeepsFiles(setup, acts) && !Gapped(setup, acts)
    ensures Holds(setup.codec, RunActs(setup, acts), Written(setup, acts), Pending(setup, acts), end)
  {
    hide StepAct, OutcomeOf, Holds;
    if acts == [] {
      end := ZERO;
      NothingHolds(setup);
    } else {
      var n := |acts| - 1;
      KeepsFilesPrefix(setup, acts, n);
      end := ActsHold(setup, acts[..n]);
      DiskIsWritten(setup, acts[..n]);
      end := ActHolds(setup, RunActs(setup, acts[..n]), acts[n],
                      Written(setup, acts[..n]), Pending(setup, acts[..n]), end);
    }
  }

  lemma NothingHolds(setup: Setup)
    ensures Holds(setup.codec, Started(setup, map[], Missing), [], [], ZERO)
  {
  }

  lemma ActHolds(setup: Setup, s: WorkerState, a: Act, w: seq<Event>, p: seq<Event>, end: Hash) returns (end': Hash)
    requires setup.persistent && StepKeepsFiles(s, a) && Holds(setup.codec, s, w, p, end)
    requires s.disk == AppendAll(setup.lineLength, map[], w)
    requires OutcomeOf(setup, s, a).Committed? ==> p == []
    ensures var o := OutcomeOf(setup, s, a);
            Holds(setup.codec, StepAct(setup, s, a), w + if o.Committed? then [o.event] else [],
                  if a.Restart? || o.Committed? then [] else p + if o.NotWritten? then [o.event] else [], end')
  {
    hide StepCommand, AppendAll;
    assert w + [] == w && p + [] == p;
    match a {
      case Restart =>
        end' := end;
        RestartHolds(setup, s, w, end);
      case Do(c) =>
        end' := DoHolds(setup, s, c, w, p, end);
    }
  }

  /** After every sequence of records and restarts in which failing writes leave the files alone and no
      event is committed behind a missing one, with any number of rotations: the files read oldest first
      are a contiguous suffix of all events committed by all processes, linked from event to event
      across the file boundaries up to the end of the one chain from zero. From there the events not
      yet written lead to the worker's hash, unless the worker was started in mid-chain and refuses to
      record. */
  lemma FilesAfterActs(setup: Setup, acts: seq<Act>) returns (k: nat, dropped: nat, end: Hash)
    requires setup.persistent && KeepsFiles(setup, acts) && !Gapped(setup, acts)
    ensures var s := RunActs(setup, acts);
            && HoldsSuffix(s.disk, k, Written(setup, acts), dropped)
            && ChainEnd(setup.codec, ZERO, Written(setup, acts)) == Some(end)
            && LinkedAcrossFiles(setup.codec, s.disk, MAX_ROTATED_FILES, end)
            && (ChainEnd(setup.codec, end, Pending(setup, acts)) == Some(s.lastHash) || (s.tampered && Midway(s.disk)))
  {
    end := ActsHold(setup, acts);
    DiskIsWritten(setup, acts);
    k, dropped := FilesHoldSuffix(setup.lineLength, Written(setup, acts));
    RotatedFilesStayLinked(setup.codec, setup.lineLength, ZERO, Written(setup, acts), end);
  }

  /** The requests of the records committed, by whichever process, in order. */
  function WrittenRequests(setup: Setup, acts: seq<Act>): seq<Request> {
    if acts == [] then []
    else
      var n := |acts| - 1;
      WrittenRequests(setup, acts[..n])
      + if acts[n].Do? && acts[n].command.Record? && Last(setup, acts).Committed? then [acts[n].command.request] else []
  }

  lemma {:induction false} WrittenTell(setup: Setup, acts: seq<Act>)
    ensures RequestsOf(Written(setup, acts)) == WrittenRequests(setup, acts)
  {
    hide StepCommand, RunActs;
    if acts != [] {
      var n := |acts| - 1;
      WrittenTell(setup, acts[..n]);
      if acts[n].Do? {
        StepTells(setup, RunActs(setup, acts[..n]), acts[n].command);
      }
    }
  }

  /** The files hold, oldest first, what the committed records of all processes asked for, but for what
      was dropped with the oldest files. */
  lemma FilesTell(setup: Setup, acts: seq<Act>) returns (dropped: nat)
    requires setup.persistent && KeepsFiles(setup, acts)
    ensures dropped <= |WrittenRequests(setup, acts)|
    ensures RequestsOf(History(RunActs(setup, acts).disk, MAX_ROTATED_FILES))
            == WrittenRequests(setup, acts)[dropped..]
  {
    hide RunActs, Written, WrittenRequests, History;
    var k;
    var w := Written(setup, acts);
    DiskIsWritten(setup, acts);
    WrittenTell(setup, acts);
    k, dropped := FilesHoldSuffix(setup.lineLength, w);
    assert RequestsOf(w[dropped..]) == RequestsOf(w)[dropped..];
  }

  // ---------------------------------------------------------------------------
  // Rotated files start in mid-chain
  // ---------------------------------------------------------------------------

  /** How one append changes what a restart would find. */
  ghost predicate AppendChanges(d: Disk, d': Disk, e: Event) {
    && (exists k: nat :: Generations(d', k))
    && (|| (1 in d' && FileOf(d', 0) == [e] && FileOf(d, 0) != [])
        || ((1 in d' <==> 1 in d) && FileOf(d', 0) == FileOf(d, 0) + [e]))
  }

  lemma AppendDoes(lineLength: Event -> nat, d: Disk, e: Event)
    requires exists k: nat :: Generations(d, k)
    ensures AppendChanges(d, Append(lineLength, d, e), e)
  {
    var k: nat :| Generations(d, k);
    AppendHistory(lineLength, d, k, e);
    if FileSize(lineLength, FileOf(d, 0)) >= MAX_LOG_FILE_BYTES {
      AppendShifts(lineLength, d, k, e);
    }
  }

  /** A process that may record holds a nonzero hash once there is a file, and a rotated log starts in
      mid-chain. */
  ghost predicate Nonzero(c: Codec, s: WorkerState) {
    && (exists k: nat :: Generations(s.disk, k))
    && (0 in s.disk <==> FileOf(s.disk, 0) != [])
    && (forall e | e in FileOf(s.disk, 0) :: EventHash(c, e) != Some(ZERO))
    && (FileOf(s.disk, 0) != [] ==> s.tampered || s.lastHash != ZERO)
    && (1 in s.disk ==> Midway(s.disk))
  }

  lemma DoKeepsNonzero(setup: Setup, s: WorkerState, c: Command)
    requires setup.persistent && StepKeepsFiles(s, Do(c)) && Nonzero(setup.codec, s)
    requires var o := StepCommand(setup, s, c).outcome; Chained(o) ==> EventHash(setup.codec, o.event) != Some(ZERO)
    ensures Nonzero(setup.codec, StepCommand(setup, s, c).state)
  {
    hide Append;
    StepWrites(setup, s, Do(c));
    StepChains(setup, s, c);
    var step := StepCommand(setup, s, c);
    if step.outcome.Committed? {
      assert !s.tampered;
      AppendDoes(setup.lineLength, s.disk, step.outcome.event);
    } else {
      assert s.tampered ==> step.state.tampered;
    }
  }

  lemma RestartKeepsNonzero(setup: Setup, s: WorkerState)
    requires Nonzero(setup.codec, s)
    ensures Nonzero(setup.codec, StepAct(setup, s, Restart))
  {
    if 0 in s.disk {
      var file := s.disk[0];
      LinesOfEvents(setup.codec, file);
      NonzeroEnd(setup.codec, ZERO, file);
    }
  }

  lemma {:induction false} ActsKeepNonzero(setup: Setup, acts: seq<Act>)
    requires setup.persistent && KeepsFiles(setup, acts) && NoZero(setup.codec, EventSet(ChainedIn(setup, acts)))
    ensures Nonzero(setup.codec, RunActs(setup, acts))
  {
    if acts == [] {
      assert Generations(map[], 0);
    } else {
      hide StepCommand, Started, Nonzero;
      var n := |acts| - 1;
      KeepsFilesPrefix(setup, acts, n);
      assert EventSet(ChainedIn(setup, acts[..n])) <= EventSet(ChainedIn(setup, acts));
      ActsKeepNonzero(setup, acts[..n]);
      var s := RunActs(setup, acts[..n]);
      match acts[n] {
        case Restart => RestartKeepsNonzero(setup, s);
        case Do(c) =>
          assert Chained(Last(setup, acts)) ==> Last(setup, acts).event in EventSet(ChainedIn(setup, acts));
          DoKeepsNonzero(setup, s, c);
      }
    }
  }

  // ---------------------------------------------------------------------------
  // Behind a missing event
  // ---------------------------------------------------------------------------

  lemma {:induction false} KnownEvents(setup: Setup, acts: seq<Act>)
    ensures forall e | e in Written(setup, acts) || e in Pending(setup, acts) :: e in ChainedIn(setup, acts)
  {
    if acts != [] {
      hide OutcomeOf, RunActs;
      KnownEvents(setup, acts[..|acts| - 1]);
    }
  }

  /** An event committed while others are pending does not fit behind what is written. */
  lemma GapDoesNotFit(c: Codec, w: seq<Event>, p: seq<Event>, e: Event)
    requires p != [] && ChainEnd(c, ZERO, w).Some? && ChainEnd(c, ChainEnd(c, ZERO, w).value, p) == Some(e.prev)
    requires Distinguishes(c, EventSet(w) + EventSet(w + p))
    ensures ChainEnd(c, ZERO, w + [e]).None?
  {
    ChainConcat(c, ZERO, w, p);
    assert (w + [e])[..|w|] == w && |w + p| > |w|;
    if ChainEnd(c, ZERO, w) == Some(e.prev) {
      SameEndSameHistory(c, w, w + p);
    }
  }

  lemma {:induction false} GapBreaks(setup: Setup, acts: seq<Act>)
    requires setup.persistent && KeepsFiles(setup, acts) && Gapped(setup, acts)
    requires Distinguishes(setup.codec, EventSet(ChainedIn(setup, acts)))
    ensures ChainEnd(setup.codec, ZERO, Written(setup, acts)).None?
  {
    hide StepAct, OutcomeOf, ChainEnd;
    var n := |acts| - 1;
    var before := acts[..n];
    KeepsFilesPrefix(setup, acts, n);
    assert EventSet(ChainedIn(setup, before)) <= EventSet(ChainedIn(setup, acts));
    var w := Written(setup, before);
    if Gapped(setup, before) {
      GapBreaks(setup, before);
      assert Written(setup, acts)[..|w|] == w;
      BrokenChainStays(setup.codec, ZERO, Written(setup, acts), |w|);
    } else {
      var end := ActsHold(setup, before);
      KnownEvents(setup, before);
      CommitsFromHash(setup, RunActs(setup, before), acts[n]);
      GapDoesNotFit(setup.codec, w, Pending(setup, before), Last(setup, acts).event);
    }
  }

  lemma CommitsFromHash(setup: Setup, s: WorkerState, a: Act)
    ensures var o := OutcomeOf(setup, s, a);
            o.Committed? ==> !s.tampered && o.event.prev == s.lastHash
  {
    hide Append;
  }

  // ---------------------------------------------------------------------------
  // Restarts
  // ---------------------------------------------------------------------------

  /** After any sequence of records and restarts in which failing writes leave the files alone: as long
      as there was no rotation and no event was committed behind a missing one, recovery returns the end
      of the one chain written, which is the hash the last worker held unless events of its own are still
      missing, and the restarted log continues from there. If the hash distinguishes the events chained,
      a restarted log refuses to record in every other case. */
  lemma RestartContinuesExactly(setup: Setup, acts: seq<Act>)
    requires setup.persistent && KeepsFiles(setup, acts)
    ensures var s := RunActs(setup, acts);
            var restarted, end := StepAct(setup, s, Restart), ChainEnd(setup.codec, ZERO, Written(setup, acts));
            && (1 !in s.disk && !Gapped(setup, acts) ==>
                  && FileOf(s.disk, 0) == Written(setup, acts) && end.Some?
                  && !restarted.tampered && restarted.lastHash == end.value
                  && (Pending(setup, acts) == [] ==> end == Some(s.lastHash)))
            && (Distinguishes(setup.codec, EventSet(ChainedIn(setup, acts))) ==>
                  (restarted.tampered <==> 1 in s.disk || Gapped(setup, acts)))
  {
    hide ChainEnd, Gapped, Distinguishes, RunActs, StepAct, Written, Pending, ChainedIn;
    if 1 !in RunActs(setup, acts).disk && !Gapped(setup, acts) {
      ContinuesWhole(setup, acts);
    } else if Distinguishes(setup.codec, EventSet(ChainedIn(setup, acts))) {
      RefusesRotatedOrGapped(setup, acts);
    }
  }

  lemma ContinuesWhole(setup: Setup, acts: seq<Act>)
    requires setup.persistent && KeepsFiles(setup, acts) && !Gapped(setup, acts) && 1 !in RunActs(setup, acts).disk
    ensures var s := RunActs(setup, acts);
            var restarted, end := StepAct(setup, s, Restart), ChainEnd(setup.codec, ZERO, Written(setup, acts));
            && FileOf(s.disk, 0) == Written(setup, acts) && end.Some?
            && !restarted.tampered && restarted.lastHash == end.value
            && (Pending(setup, acts) == [] ==> end == Some(s.lastHash))
  {
    hide ChainEnd, Gapped, RunActs, Written, Pending, AppendAll, Recover, StepCommand;
    var w := Written(setup, acts);
    DiskIsWritten(setup, acts);
    UnrotatedFile(setup.lineLength, w);
    var end := ActsHold(setup, acts);
    UnrotatedStartsAtZero(setup.codec, setup.lineLength, w);
    FileVerdict(setup.codec, setup.lineLength, w, end);
    NothingReplayed(setup.codec, end);
  }

  lemma RefusesRotatedOrGapped(setup: Setup, acts: seq<Act>)
    requires setup.persistent && KeepsFiles(setup, acts)
    requires Distinguishes(setup.codec, EventSet(ChainedIn(setup, acts)))
    requires 1 in RunActs(setup, acts).disk || Gapped(setup, acts)
    ensures StepAct(setup, RunActs(setup, acts), Restart).tampered
  {
    hide ChainEnd, Gapped, NoCollision;
    var s, w := RunActs(setup, acts), Written(setup, acts);
    if 1 in s.disk {
      ActsKeepNonzero(setup, acts);
      MidwayIsBroken(setup.codec, s.disk);
    } else {
      DiskIsWritten(setup, acts);
      UnrotatedFile(setup.lineLength, w);
      GapBreaks(setup, acts);
      NothingReplayed(setup.codec, ZERO);
      LinesOfEvents(setup.codec, w);
    }
  }

  /** No disk call fails. */
  predicate FailureFree(acts: seq<Act>) {
    forall i | 0 <= i < |acts| :: acts[i].Do? && acts[i].command.Record? ==> acts[i].command.env.io.Completes?
  }

  lemma {:induction false} NothingMissing(setup: Setup, acts: seq<Act>)
    requires FailureFree(acts)
    ensures KeepsFiles(setup, acts) && !Gapped(setup, acts) && Pending(setup, acts) == []
    ensures ChainedIn(setup, acts) == Written(setup, acts)
  {
    hide RunActs, StepAct, Append;
    if acts != [] {
      var n := |acts| - 1;
      NothingMissing(setup, acts[..n]);
      forall i | 0 <= i < |acts|
        ensures StepKeepsFiles(RunActs(setup, acts[..i]), acts[i])
      {
      }
    }
  }

  /** If no disk call fails, recovery returns the hash the last worker held, and the restart continues
      the one chain from zero, as long as path.1 does not exist. Once it does, and if no event written
      hashes to zero, recovery reports the first line broken and a restarted log refuses to record. */
  lemma RestartContinuesUnlessRotated(setup: Setup, acts: seq<Act>)
    requires setup.persistent && FailureFree(acts)
    ensures var s := RunActs(setup, acts);
            var restarted, found := StepAct(setup, s, Restart), Recover(setup.codec, CurrentFile(s.disk));
            && (1 !in s.disk ==>
                  && found == (if s.lastHash == ZERO then NoFile else Verified(s.lastHash))
                  && !restarted.tampered && restarted.lastHash == s.lastHash
                  && ChainEnd(setup.codec, ZERO, FileOf(s.disk, 0)) == Some(s.lastHash))
            && (1 in s.disk && NoZero(setup.codec, EventSet(Written(setup, acts))) ==>
                  found == Broken(1) && restarted.tampered)
  {
    hide ChainEnd, RunActs, Gapped, Written, Pending, ChainedIn, StepCommand;
    NothingMissing(setup, acts);
    var s := RunActs(setup, acts);
    if 1 !in s.disk {
      ContinuesWhole(setup, acts);
    } else if NoZero(setup.codec, EventSet(Written(setup, acts))) {
      ActsKeepNonzero(setup, acts);
      MidwayIsBroken(setup.codec, s.disk);
    }
  }

  lemma OneMore(setup: Setup, acts: seq<Act>, a: Act)
    ensures RunActs(setup, acts + [a]) == StepAct(setup, RunActs(setup, acts), a)
    ensures Last(setup, acts + [a]) == OutcomeOf(setup, RunActs(setup, acts), a)
    ensures Written(setup, acts + [a])
            == Written(setup, acts) + if Last(setup, acts + [a]).Committed? then [Last(setup, acts + [a]).event] else []
  {
    assert (acts + [a])[..|acts|] == acts;
  }

  lemma SomeGenerations(setup: Setup, acts: seq<Act>) returns (k: nat)
    requires setup.persistent && KeepsFiles(setup, acts)
    ensures Generations(RunActs(setup, acts).disk, k)
  {
    DiskIsWritten(setup, acts);
    var dropped;
    k, dropped := FilesHoldSuffix(setup.lineLength, Written(setup, acts));
  }

  lemma {:induction false} RotationStays(setup: Setup, acts: seq<Act>, more: seq<Act>)
    requires setup.persistent && KeepsFiles(setup, acts + more) && 1 in RunActs(setup, acts).disk
    ensures 1 in RunActs(setup, acts + more).disk
  {
    hide StepAct, RunActs, KeepsFiles;
    if more == [] {
      assert acts + more == acts;
    } else {
      var n := |more| - 1;
      var before := acts + more[..n];
      assert acts + more == before + [more[n]] && (acts + more)[..|before|] == before;
      KeepsFilesPrefix(setup, acts + more, |before|);
      RotationStays(setup, acts, more[..n]);
      OneMore(setup, before, more[n]);
      var k := SomeGenerations(setup, before);
      LastKeepsFiles(setup, before, more[n]);
      StepKeepsRotated(setup, RunActs(setup, before), more[n], k);
    }
  }

  lemma LastKeepsFiles(setup: Setup, acts: seq<Act>, a: Act)
    requires KeepsFiles(setup, acts + [a])
    ensures KeepsFiles(setup, acts) && StepKeepsFiles(RunActs(setup, acts), a)
  {
    assert (acts + [a])[..|acts|] == acts && (acts + [a])[|acts|] == a;
    KeepsFilesPrefix(setup, acts + [a], |acts|);
  }

  lemma StepKeepsRotated(setup: Setup, s: WorkerState, a: Act, k: nat)
    requires setup.persistent && StepKeepsFiles(s, a) && Generations(s.disk, k) && 1 in s.disk
    ensures 1 in StepAct(setup, s, a).disk
  {
    hide Append, OutcomeOf;
    StepWrites(setup, s, a);
    if OutcomeOf(setup, s, a).Committed? {
      AppendDoes(setup.lineLength, s.disk, OutcomeOf(setup, s, a).event);
    }
  }

  lemma FullFileRotates(setup: Setup, s: WorkerState, a: Act, k: nat)
    requires setup.persistent && StepKeepsFiles(s, a) && Generations(s.disk, k) && OutcomeOf(setup, s, a).Committed?
    requires FileSize(setup.lineLength, FileOf(s.disk, 0)) >= MAX_LOG_FILE_BYTES
    ensures 1 in StepAct(setup, s, a).disk
  {
    hide FileSize, Append, OutcomeOf;
    StepWrites(setup, s, a);
    AppendShifts(setup.lineLength, s.disk, k, OutcomeOf(setup, s, a).event);
  }

  /** The first record after the file has reached its size limit rotates it, and from then on,
      whatever else happens, no restarted log records anything, if no event hashes to zero. */
  lemma FullFileEndsRestarts(setup: Setup, acts: seq<Act>, a: Act, more: seq<Act>)
    requires setup.persistent && KeepsFiles(setup, acts + [a] + more)
    requires NoZero(setup.codec, EventSet(ChainedIn(setup, acts + [a] + more)))
    requires var s := RunActs(setup, acts);
             && FileSize(setup.lineLength, FileOf(s.disk, 0)) >= MAX_LOG_FILE_BYTES
             && OutcomeOf(setup, s, a).Committed?
    ensures RunActs(setup, acts + [a] + more + [Restart]).tampered
  {
    hide FileSize, OutcomeOf, RunActs, ChainedIn, KeepsFiles, StepCommand;
    var all := acts + [a] + more;
    assert all[..|acts| + 1] == acts + [a];
    KeepsFilesPrefix(setup, all, |acts| + 1);
    LastKeepsFiles(setup, acts, a);
    var k := SomeGenerations(setup, acts);
    FullFileRotates(setup, RunActs(setup, acts), a, k);
    OneMore(setup, acts, a);
    RotationStays(setup, acts + [a], more);
    ActsKeepNonzero(setup, all);
    MidwayIsBroken(setup.codec, RunActs(setup, all).disk);
    OneMore(setup, all, Restart);
  }

  // ---------------------------------------------------------------------------
  // Concrete runs
  // ---------------------------------------------------------------------------

  function RecordAt(q: Request, reading: nat): Act {
    Do(Record(q, Env(reading, Completes), true))
  }

  /** n successful records of one request, with a clock that ticks once per record. */
  function Records(q: Request, n: nat): seq<Act> {
    seq(n, i requires 0 <= i => RecordAt(q, i + 1))
  }

  lemma StepCommits(setup: Setup, s: WorkerState, q: Request, reading: nat)
    requires !s.tampered && s.lastTimestamp < reading <= U64_MAX
    requires forall p :: setup.codec.payloadBytes(p).Some?
    ensures var o, s' := OutcomeOf(setup, s, RecordAt(q, reading)), StepAct(setup, s, RecordAt(q, reading));
            && o.Committed? && o.event.payload.timestamp == reading
            && !s'.tampered && s'.lastTimestamp == reading
  {
    hide Append;
  }

  lemma FileGrows(lineLength: Event -> nat, d: Disk, e: Event)
    requires FileSize(lineLength, FileOf(d, 0)) < MAX_LOG_FILE_BYTES
    ensures FileSize(lineLength, FileOf(Append(lineLength, d, e), 0)) > FileSize(lineLength, FileOf(d, 0))
  {
    var file := FileOf(d, 0);
    assert (file + [e])[..|file|] == file;
    assert FileOf(Append(lineLength, d, e), 0) == file + [e];
  }

  lemma RecordsComplete(q: Request, n: nat)
    ensures FailureFree(Records(q, n))
  {
  }

  /** Each line takes a byte at least, so that as many records as the file may have bytes rotate it. */
  lemma {:induction false} FillsOrRotates(setup: Setup, q: Request, n: nat)
    requires setup.persistent && n <= U64_MAX && forall p :: setup.codec.payloadBytes(p).Some?
    ensures var s := RunActs(setup, Records(q, n));
            && !s.tampered && s.lastTimestamp == n
            && (1 in s.disk || (n <= MAX_LOG_FILE_BYTES && n <= FileSize(setup.lineLength, FileOf(s.disk, 0))))
  {
    hide FileSize, StepAct, OutcomeOf, Append, KeepsFiles, Gapped, Pending, ChainedIn;
    if n == 0 {
      assert Records(q, 0) == [];
      StartsEmpty(setup);
    } else {
      var before := Records(q, n - 1);
      assert Records(q, n)[..n - 1] == before;
      FillsOrRotates(setup, q, n - 1);
      RecordsComplete(q, n - 1);
      NothingMissing(setup, before);
      var k := SomeGenerations(setup, before);
      var s, a := RunActs(setup, before), RecordAt(q, n);
      StepCommits(setup, s, q, n);
      StepWrites(setup, s, a);
      if 1 in s.disk {
        StepKeepsRotated(setup, s, a, k);
      } else if FileSize(setup.lineLength, FileOf(s.disk, 0)) >= MAX_LOG_FILE_BYTES {
        FullFileRotates(setup, s, a, k);
      } else {
        FileGrows(setup.lineLength, s.disk, OutcomeOf(setup, s, a).event);
      }
    }
  }

  /** Whatever the length of a line: one record more than the file may have bytes, and the restarted
      log refuses to record, unless one of these records hashes to zero. */
  lemma RestartAfterRotationRefuses(setup: Setup, q: Request)
    requires setup.persistent && forall p :: setup.codec.payloadBytes(p).Some?
    requires NoZero(setup.codec, EventSet(Written(setup, Records(q, MAX_LOG_FILE_BYTES + 1))))
    ensures RunActs(setup, Records(q, MAX_LOG_FILE_BYTES + 1) + [Restart]).tampered
  {
    hide RunActs, Records, Written, StepCommand;
    var acts := Records(q, MAX_LOG_FILE_BYTES + 1);
    FillsOrRotates(setup, q, MAX_LOG_FILE_BYTES + 1);
    RecordsComplete(q, MAX_LOG_FILE_BYTES + 1);
    RestartContinuesUnlessRotated(setup, acts);
    OneMore(setup, acts, Restart);
  }

  /** One failed write that leaves the files alone, then a successful one, and the restarted log refuses
      to record, unless the first event hashes to zero. */
  lemma FailedWriteStopsRestart(setup: Setup, q: Request)
    requires setup.persistent && forall p :: setup.codec.payloadBytes(p).Some?
    requires NoZero(setup.codec, {FirstEvent(q)})
    ensures var failing := Do(Record(q, Env(1, Fails(map[])), true));
            RunActs(setup, [failing] + [RecordAt(q, 2)] + [Restart]).tampered
  {
    hide RunActs, FileSize;
    var failing := Do(Record(q, Env(1, Fails(map[])), true));
    StartsEmpty(setup);
    RunNoActs(setup);
    OneMore(setup, [], failing);
    assert [] + [failing] == [failing];
    var s := RunActs(setup, [failing]);
    assert StepCommand(setup, RunActs(setup, []), failing.command).outcome == NotWritten(FirstEvent(q));
    assert s.lastHash != ZERO && s.disk == map[] && !s.tampered && s.lastTimestamp == 1;
    OneMore(setup, [failing], RecordAt(q, 2));
    FirstLine(setup, s, q);
    OneMore(setup, [failing] + [RecordAt(q, 2)], Restart);
    MidwayIsBroken(setup.codec, RunActs(setup, [failing] + [RecordAt(q, 2)]).disk);
  }

  lemma RunNoActs(setup: Setup)
    ensures RunActs(setup, []) == Started(setup, map[], Missing)
  {
  }

  lemma FirstLine(setup: Setup, s: WorkerState, q: Request)
    requires setup.persistent && s.disk == map[] && s.lastHash != ZERO && !s.tampered && s.lastTimestamp == 1
    requires forall p :: setup.codec.payloadBytes(p).Some?
    ensures Midway(StepAct(setup, s, RecordAt(q, 2)).disk)
  {
    var o := OutcomeOf(setup, s, RecordAt(q, 2));
    StepWrites(setup, s, RecordAt(q, 2));
    assert FileOf(s.disk, 0) == [] && FileSize(setup.lineLength, []) == 0;
    assert FileOf(Append(setup.lineLength, s.disk, o.event), 0) == [o.event];
  }

  // ---------------------------------------------------------------------------
  // One process
  // ---------------------------------------------------------------------------

  /** The commands of one process. */
  function Doing(cmds: seq<Command>): seq<Act> {
    seq(|cmds|, i requires 0 <= i < |cmds| => Do(cmds[i]))
  }

  lemma {:induction false} OneProcess(setup: Setup, cmds: seq<Command>)
    ensures var t := Run(setup, Started(setup, map[], Missing), cmds);
            && RunActs(setup, Doing(cmds)) == t.state
            && Written(setup, Doing(cmds)) == CommittedEvents(t.outcomes)
            && ChainedIn(setup, Doing(cmds)) == ChainedEvents(t.outcomes)
  {
    hide StepCommand, Started;
    if cmds != [] {
      var n := |cmds| - 1;
      OneProcess(setup, cmds[..n]);
      assert Doing(cmds)[..n] == Doing(cmds[..n]);
      RunUnfold(setup, Started(setup, map[], Missing), cmds);
    }
  }

  /** One process on an empty directory, no disk call failing: the files end at the worker's hash. */
  lemma FilesAfterRun(setup: Setup, cmds: seq<Command>) returns (k: nat, dropped: nat)
    requires setup.persistent && FailureFree(Doing(cmds))
    ensures var t := Run(setup, Started(setup, map[], Missing), cmds);
            && HoldsSuffix(t.state.disk, k, CommittedEvents(t.outcomes), dropped)
            && LinkedAcrossFiles(setup.codec, t.state.disk, MAX_ROTATED_FILES, t.state.lastHash)
  {
    hide Run, RunActs, Started, Gapped, Pending, Written, ChainedIn;
    var end;
    NothingMissing(setup, Doing(cmds));
    k, dropped, end := FilesAfterActs(setup, Doing(cmds));
    OneProcess(setup, cmds);
    StartsEmpty(setup);
    RunChains(setup, Started(setup, map[], Missing), cmds);
  }

  // ---------------------------------------------------------------------------
  // Timestamps
  // ---------------------------------------------------------------------------

  predicate Increasing(es: seq<Event>) {
    forall i, j | 0 <= i < j < |es| :: es[i].payload.timestamp < es[j].payload.timestamp
  }

  function LastStamp(es: seq<Event>): nat {
    if es == [] then 0 else es[|es| - 1].payload.timestamp
  }

  /** If the act commits an event, its clock reading, or the timestamp the process has got to, is not
      behind the last timestamp written. */
  predicate StepAhead(setup: Setup, acts: seq<Act>, a: Act) {
    var s, last := RunActs(setup, acts), LastStamp(Written(setup, acts));
    OutcomeOf(setup, s, a).Committed? ==>
      WallTimestamp(a.command.env.wallNanos) > last || s.lastTimestamp >= last
  }

  predicate ClockAhead(setup: Setup, acts: seq<Act>) {
    acts != [] ==>
      ClockAhead(setup, acts[..|acts| - 1]) && StepAhead(setup, acts[..|acts| - 1], acts[|acts| - 1])
  }

  lemma IncreasingMore(es: seq<Event>, e: Event)
    ensures Increasing(es + [e]) <==> Increasing(es) && (es == [] || LastStamp(es) < e.payload.timestamp)
  {
    var more := es + [e];
    if Increasing(more) {
      assert forall i, j | 0 <= i < j < |es| :: es[i] == more[i] && es[j] == more[j];
      assert es != [] ==> more[|es| - 1].payload.timestamp < more[|es|].payload.timestamp;
    }
  }

  lemma StampExceeds(setup: Setup, s: WorkerState, a: Act, last: nat)
    requires OutcomeOf(setup, s, a).Committed?
    ensures OutcomeOf(setup, s, a).event.payload.timestamp > last
            <==> WallTimestamp(a.command.env.wallNanos) > last || s.lastTimestamp >= last
    ensures OutcomeOf(setup, s, a).event.payload.timestamp > 0
  {
    hide Append;
  }

  /** Over any number of restarts the timestamps written strictly increase exactly if each committed
      record finds the clock, or its process, past the last timestamp written. */
  lemma {:induction false} TimestampsIncreaseExactly(setup: Setup, acts: seq<Act>)
    ensures Increasing(Written(setup, acts)) <==> ClockAhead(setup, acts)
    ensures Written(setup, acts) != [] ==> LastStamp(Written(setup, acts)) > 0
  {
    hide RunActs, OutcomeOf, Increasing, WallTimestamp;
    if acts == [] {
      NoneIncreasing();
    } else {
      var n := |acts| - 1;
      TimestampsIncreaseExactly(setup, acts[..n]);
      var w := Written(setup, acts[..n]);
      if Last(setup, acts).Committed? {
        StampExceeds(setup, RunActs(setup, acts[..n]), acts[n], LastStamp(w));
        IncreasingMore(w, Last(setup, acts).event);
      } else {
        assert w + [] == w;
      }
    }
  }

  lemma NoneIncreasing()
    ensures Increasing([])
  {
  }

  /** The first record after a restart decides: its clock reading must exceed the last timestamp
      written. */
  lemma FirstReadingDecides(setup: Setup, acts: seq<Act>, c: Command)
    requires OutcomeOf(setup, RunActs(setup, acts + [Restart]), Do(c)).Committed?
    ensures Increasing(Written(setup, acts + [Restart] + [Do(c)]))
            <==> && Increasing(Written(setup, acts))
                 && (Written(setup, acts) == []
                     || WallTimestamp(c.env.wallNanos) > LastStamp(Written(setup, acts)))
  {
    hide RunActs, Increasing, Written, WallTimestamp;
    var w := Written(setup, acts);
    OneMore(setup, acts, Restart);
    assert w + [] == w;
    OneMore(setup, acts + [Restart], Do(c));
    var s := RunActs(setup, acts + [Restart]);
    assert s.lastTimestamp == 0;
    TimestampsIncreaseExactly(setup, acts);
    StampExceeds(setup, s, Do(c), LastStamp(w));
    IncreasingMore(w, OutcomeOf(setup, s, Do(c)).event);
  }

  /** A clock set back between two processes sets the timestamps back. */
  lemma ClockSetBack(setup: Setup, q: Request)
    requires setup.persistent && forall p :: setup.codec.payloadBytes(p).Some?
    ensures !Increasing(Written(setup, [RecordAt(q, 5)] + [Restart] + [RecordAt(q, 3)]))
  {
    hide RunActs, Increasing, Written, StepAct, OutcomeOf, Gapped, ChainedIn, Pending;
    StartsEmpty(setup);
    RunNoActs(setup);
    OneMore(setup, [], RecordAt(q, 5));
    var first := [RecordAt(q, 5)];
    assert [] + first == first;
    StepCommits(setup, RunActs(setup, []), q, 5);
    NothingMissing(setup, first);
    UnrotatedFirst(setup, q);
    ContinuesWhole(setup, first);
    OneMore(setup, first, Restart);
    RestartForgets(setup, RunActs(setup, first));
    StepCommits(setup, RunActs(setup, first + [Restart]), q, 3);
    WrittenFirst(setup, q);
    FirstReadingDecides(setup, first, RecordAt(q, 3).command);
  }

  lemma RestartForgets(setup: Setup, s: WorkerState)
    ensures StepAct(setup, s, Restart).lastTimestamp == 0
  {
  }

  lemma WrittenFirst(setup: Setup, q: Request)
    requires forall p :: setup.codec.payloadBytes(p).Some?
    ensures Written(setup, [RecordAt(q, 5)]) != [] && LastStamp(Written(setup, [RecordAt(q, 5)])) == 5
  {
    hide OutcomeOf, StepAct;
    assert [RecordAt(q, 5)][..0] == [];
    StartsEmpty(setup);
    StepCommits(setup, RunActs(setup, []), q, 5);
  }

  lemma UnrotatedFirst(setup: Setup, q: Request)
    requires setup.persistent
    ensures 1 !in RunActs(setup, [RecordAt(q, 5)]).disk
  {
    hide StepAct, OutcomeOf;
    assert [RecordAt(q, 5)][..0] == [];
    StartsEmpty(setup);
    StepWrites(setup, RunActs(setup, []), RecordAt(q, 5));
    assert FileSize(setup.lineLength, []) == 0;
  }
}
