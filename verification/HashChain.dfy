/** The audit log's hash chain: computing a link, replaying a file at start-up, checking the
    in-memory list, and what each of them can and cannot notice. */
module HashChain {
  import opened Base

  type Hash = h: seq<byte> | |h| == 32 witness seq(32, _ => 0)

  const ZERO: Hash :=
    [0, 0, 0, 0, 0, 0, 0, 0, 0, 0, 0, 0, 0, 0, 0, 0,
     0, 0, 0, 0, 0, 0, 0, 0, 0, 0, 0, 0, 0, 0, 0, 0]

  /** Operation kind and its numeric parameters. */
  datatype Operation = Operation(name: string, parameters: seq<nat>)

  datatype OpResult = Success | Failure(code: nat)

  /** The hashed part of an event. */
  datatype Payload = Payload(
    timestamp: nat, session: nat, operation: Operation, keyId: Option<string>, result: OpResult)

  datatype Event = Event(payload: Payload, prev: Hash)

  /** The library calls: JSON encoding of a payload, which may fail, and SHA-256. */
  datatype Codec = Codec(payloadBytes: Payload -> Option<seq<byte>>, sha256: seq<byte> -> Hash)

  /** SHA-256(prev || payload), or None when the payload cannot be serialised. */
  function ChainHash(c: Codec, prev: Hash, p: Payload): Option<Hash> {
    match c.payloadBytes(p)
    case None => None
    case Some(bytes) => Some(c.sha256(prev + bytes))
  }

  /** The running hash after events es replayed from h; None once a link does not fit. */
  function ChainEnd(c: Codec, h: Hash, es: seq<Event>): Option<Hash> {
    if es == [] then Some(h)
    else
      var last := es[|es| - 1];
      match ChainEnd(c, h, es[..|es| - 1])
      case None => None
      case Some(r) => if last.prev != r then None else ChainHash(c, r, last.payload)
  }

  // ---------------------------------------------------------------------------
  // Recovery from a file and verification in memory
  // ---------------------------------------------------------------------------

  /** What the line reader makes of one line of the log file. */
  datatype Line = Unreadable | Blank | Garbled | Entry(event: Event)

  datatype File = Missing | Unopenable | Lines(lines: seq<Line>)

  /** Broken carries the number of the offending line, counted from 1; 0 for the file itself. */
  datatype Recovery = NoFile | Verified(hash: Hash) | Broken(line: nat)

  /** The running hash after one more line. */
  function LineEnd(c: Codec, h: Hash, line: Line): Option<Hash> {
    match line
    case Blank => Some(h)
    case Entry(e) => if e.prev != h then None else ChainHash(c, h, e.payload)
    case _ => None
  }

  /** The running hash after the lines, blank ones skipped; None once one of them is rejected. */
  function LinesEnd(c: Codec, lines: seq<Line>): Option<Hash> {
    if lines == [] then Some(ZERO)
    else
      match LinesEnd(c, lines[..|lines| - 1])
      case None => None
      case Some(r) => LineEnd(c, r, lines[|lines| - 1])
  }

  /** The first line, counted from 1, at which the replay stops. */
  function FirstRejected(c: Codec, lines: seq<Line>): (k: nat)
    requires LinesEnd(c, lines).None?
    ensures 1 <= k <= |lines|
    ensures LinesEnd(c, lines[..k - 1]).Some? && LinesEnd(c, lines[..k]).None?
  {
    if LinesEnd(c, lines[..|lines| - 1]).Some? then
      assert lines[..|lines|] == lines;
      |lines|
    else
      var k := FirstRejected(c, lines[..|lines| - 1]);
      PrefixOfPrefix(lines, |lines| - 1, k);
      PrefixOfPrefix(lines, |lines| - 1, k - 1);
      k
  }

  lemma PrefixOfPrefix<T>(s: seq<T>, j: nat, k: nat)
    requires k <= j <= |s|
    ensures s[..j][..k] == s[..k]
  {
  }

  function Recover(c: Codec, file: File): Recovery {
    match file
    case Missing => NoFile
    case Unopenable => Broken(0)
    case Lines(lines) =>
      match LinesEnd(c, lines)
      case None => Broken(FirstRejected(c, lines))
      case Some(h) => if h == ZERO then NoFile else Verified(h)
  }

  lemma {:induction false} RejectedStays(c: Codec, lines: seq<Line>, k: nat)
    requires k <= |lines| && LinesEnd(c, lines[..k]).None?
    ensures LinesEnd(c, lines).None?
    ensures FirstRejected(c, lines) <= k
  {
    if k == |lines| {
      assert lines[..k] == lines;
    } else {
      var init := lines[..|lines| - 1];
      assert init[..k] == lines[..k];
      RejectedStays(c, init, k);
    }
  }

  lemma FirstRejectedIs(c: Codec, lines: seq<Line>, k: nat)
    requires 1 <= k <= |lines|
    requires LinesEnd(c, lines[..k - 1]).Some? && LinesEnd(c, lines[..k]).None?
    ensures LinesEnd(c, lines).None? && FirstRejected(c, lines) == k
  {
    RejectedStays(c, lines, k);
    var j := FirstRejected(c, lines);
    if j < k {
      assert lines[..k - 1][..j] == lines[..j];
      RejectedStays(c, lines[..k - 1], j);
    }
  }

  lemma NextLine(c: Codec, lines: seq<Line>, n: nat, h: Hash)
    requires n < |lines| && LinesEnd(c, lines[..n]) == Some(h)
    ensures LinesEnd(c, lines[..n + 1]) == LineEnd(c, h, lines[n])
    ensures LinesEnd(c, lines[..n + 1]).None? ==> Recover(c, Lines(lines)) == Broken(n + 1)
  {
    PrefixOfPrefix(lines, n + 1, n);
    if LinesEnd(c, lines[..n + 1]).None? {
      FirstRejectedIs(c, lines, n + 1);
    }
  }

  /** Replay the log file line by line, stopping at the first line that does not fit. */
  method RecoverChainFromFile(c: Codec, file: File) returns (r: Recovery)
    ensures r == Recover(c, file)
  {
    match file {
      case Missing => return NoFile;
      case Unopenable => return Broken(0);
      case Lines(lines) =>
        var runningHash := ZERO;
        hide FirstRejected, ChainHash;
        for lineNum := 0 to |lines|
          invariant LinesEnd(c, lines[..lineNum]) == Some(runningHash)
        {
          NextLine(c, lines, lineNum, runningHash);
          match lines[lineNum] {
            case Unreadable => return Broken(lineNum + 1);
            case Blank =>
            case Garbled => return Broken(lineNum + 1);
            case Entry(event) =>
              if event.prev != runningHash {
                return Broken(lineNum + 1);
              }
              match ChainHash(c, runningHash, event.payload) {
                case Some(h) => runningHash := h;
                case None => return Broken(lineNum + 1);
              }
          }
        }
        assert lines[..|lines|] == lines;
        if runningHash == ZERO {
          return NoFile;
        }
        return Verified(runningHash);
    }
  }

  lemma {:induction false} BrokenChainStays(c: Codec, h: Hash, es: seq<Event>, k: nat)
    requires k <= |es| && ChainEnd(c, h, es[..k]).None?
    ensures ChainEnd(c, h, es).None?
  {
    if k == |es| {
      assert es[..k] == es;
    } else {
      assert es[..|es| - 1][..k] == es[..k];
      BrokenChainStays(c, h, es[..|es| - 1], k);
    }
  }

  /** Check the in-memory list from the zero hash: the number of entries when every link fits,
      otherwise the index of the first one that does not. */
  method VerifyChain(c: Codec, entries: seq<Event>) returns (r: Result<nat, nat>)
    ensures r.Ok? <==> ChainEnd(c, ZERO, entries).Some?
    ensures r.Ok? ==> r.value == |entries|
    ensures r.Err? ==> r.error < |entries|
                       && ChainEnd(c, ZERO, entries[..r.error]).Some?
                       && ChainEnd(c, ZERO, entries[..r.error + 1]).None?
  {
    var expectedHash := ZERO;
    for i := 0 to |entries|
      invariant ChainEnd(c, ZERO, entries[..i]) == Some(expectedHash)
    {
      assert entries[..i + 1][..i] == entries[..i];
      if ChainEnd(c, ZERO, entries[..i + 1]).None? {
        BrokenChainStays(c, ZERO, entries, i + 1);
      }
      if entries[i].prev != expectedHash {
        return Err(i);
      }
      match ChainHash(c, expectedHash, entries[i].payload) {
        case Some(h) => expectedHash := h;
        case None => return Err(i);
      }
    }
    assert entries[..|entries|] == entries;
    return Ok(|entries|);
  }

  // ---------------------------------------------------------------------------
  // Chain algebra
  // ---------------------------------------------------------------------------

  lemma {:induction false} ChainConcat(c: Codec, h: Hash, a: seq<Event>, b: seq<Event>)
    ensures ChainEnd(c, h, a).None? ==> ChainEnd(c, h, a + b).None?
    ensures ChainEnd(c, h, a).Some? ==> ChainEnd(c, h, a + b) == ChainEnd(c, ChainEnd(c, h, a).value, b)
  {
    if b == [] {
      assert a + b == a;
    } else {
      var b' := b[..|b| - 1];
      ChainConcat(c, h, a, b');
      assert (a + b)[..|a + b| - 1] == a + b';
    }
  }

  lemma ChainPrefix(c: Codec, h: Hash, es: seq<Event>, k: nat)
    requires ChainEnd(c, h, es).Some? && k <= |es|
    ensures ChainEnd(c, h, es[..k]).Some?
    ensures k < |es| ==> ChainEnd(c, h, es[..k]) == Some(es[k].prev)
  {
    assert es[..k] + es[k..] == es;
    ChainConcat(c, h, es[..k], es[k..]);
    if k < |es| {
      assert es[..k + 1] + es[k + 1..] == es;
      ChainConcat(c, h, es[..k + 1], es[k + 1..]);
      assert es[..k + 1][..k] == es[..k];
    }
  }

  /** Events read from lines that are all entries. */
  function Entries(es: seq<Event>): seq<Line> {
    seq(|es|, i requires 0 <= i < |es| => Entry(es[i]))
  }

  lemma {:induction false} LinesOfEvents(c: Codec, es: seq<Event>)
    ensures LinesEnd(c, Entries(es)) == ChainEnd(c, ZERO, es)
  {
    if es != [] {
      LinesOfEvents(c, es[..|es| - 1]);
      assert Entries(es)[..|es| - 1] == Entries(es[..|es| - 1]);
    }
  }

  // ---------------------------------------------------------------------------
  // Recovery of any file
  // ---------------------------------------------------------------------------

  predicate Bad(line: Line) {
    line.Unreadable? || line.Garbled?
  }

  /** The events of the lines that hold one, in order. */
  function EventsOf(lines: seq<Line>): seq<Event> {
    if lines == [] then []
    else EventsOf(lines[..|lines| - 1]) + if lines[|lines| - 1].Entry? then [lines[|lines| - 1].event] else []
  }

  lemma {:induction false} LinesEndMeaning(c: Codec, lines: seq<Line>)
    ensures LinesEnd(c, lines)
            == if exists i | 0 <= i < |lines| :: Bad(lines[i]) then None else ChainEnd(c, ZERO, EventsOf(lines))
  {
    if lines != [] {
      var n := |lines| - 1;
      LinesEndMeaning(c, lines[..n]);
      assert forall i | 0 <= i < n :: lines[..n][i] == lines[i];
      var es := EventsOf(lines[..n]);
      if lines[n].Entry? {
        assert (es + [lines[n].event])[..|es|] == es;
      } else {
        assert es + [] == es;
      }
    }
  }

  /** Recovery of a file, whatever its lines: it finds the file in order exactly if it is missing, or can
      be read, holds no unreadable or garbled line, and the events in it replay from zero; it then
      returns the hash they end at, or that there is nothing yet. */
  lemma RecoveryExactly(c: Codec, file: File)
    ensures var end := if file.Lines? then ChainEnd(c, ZERO, EventsOf(file.lines)) else None;
            var good := file.Lines? && (forall i | 0 <= i < |file.lines| :: !Bad(file.lines[i])) && end.Some?;
            && (!Recover(c, file).Broken? <==> file.Missing? || good)
            && (Recover(c, file) == NoFile <==> file.Missing? || (good && end.value == ZERO))
            && (forall h :: Recover(c, file) == Verified(h) <==> good && end.value == h && h != ZERO)
  {
    hide ChainEnd, FirstRejected;
    if file.Lines? {
      LinesEndMeaning(c, file.lines);
    }
  }

  /** A line that cannot be read or parsed is reported at the latest where it stands. */
  lemma BadLineIsReported(c: Codec, lines: seq<Line>, i: nat)
    requires i < |lines| && Bad(lines[i])
    ensures Recover(c, Lines(lines)).Broken? && 1 <= Recover(c, Lines(lines)).line <= i + 1
  {
    var upTo := lines[..i + 1];
    assert upTo[i] == lines[i];
    LinesEndMeaning(c, upTo);
    RejectedStays(c, lines, i + 1);
  }

  // ---------------------------------------------------------------------------
  // Tamper evidence
  // ---------------------------------------------------------------------------

  /** The link computed from an event. */
  function EventHash(c: Codec, e: Event): Option<Hash> {
    ChainHash(c, e.prev, e.payload)
  }

  /** No two of the given events produce the same link. */
  ghost predicate NoCollision(c: Codec, events: set<Event>) {
    forall x, y | x in events && y in events && EventHash(c, x).Some? && EventHash(c, x) == EventHash(c, y) :: x == y
  }

  /** None of the given events produces the zero link. */
  ghost predicate NoZero(c: Codec, events: set<Event>) {
    forall e | e in events :: EventHash(c, e) != Some(ZERO)
  }

  /** The hash tells the given events from one another and from the start of the chain. */
  ghost predicate Distinguishes(c: Codec, events: set<Event>) {
    NoCollision(c, events) && NoZero(c, events)
  }

  function EventSet(es: seq<Event>): set<Event> {
    set e | e in es
  }

  /** Absence of collisions between links reduces to SHA-256 not colliding on the byte strings
      hashed for these events, and to payloads being recoverable from their encoding. */
  lemma NoCollisionFromSha256(c: Codec, events: set<Event>)
    requires forall p, q :: c.payloadBytes(p).Some? && c.payloadBytes(p) == c.payloadBytes(q) ==> p == q
    requires forall x, y | x in events && y in events
                           && c.payloadBytes(x.payload).Some? && c.payloadBytes(y.payload).Some?
                           && c.sha256(x.prev + c.payloadBytes(x.payload).value)
                              == c.sha256(y.prev + c.payloadBytes(y.payload).value)
               :: x.prev + c.payloadBytes(x.payload).value == y.prev + c.payloadBytes(y.payload).value
    ensures NoCollision(c, events)
  {
    forall x, y | x in events && y in events && EventHash(c, x).Some? && EventHash(c, x) == EventHash(c, y)
      ensures x == y
    {
      var bytesX, bytesY := c.payloadBytes(x.payload).value, c.payloadBytes(y.payload).value;
      assert x.prev == (x.prev + bytesX)[..32] && y.prev == (y.prev + bytesY)[..32];
      assert bytesX == (x.prev + bytesX)[32..] && bytesY == (y.prev + bytesY)[32..];
    }
  }

  /** A chain does not end at zero if none of its events hashes to zero. */
  lemma NonzeroEnd(c: Codec, h: Hash, es: seq<Event>)
    requires NoZero(c, EventSet(es))
    ensures es != [] ==> ChainEnd(c, h, es) != Some(ZERO)
  {
    if es != [] {
      assert es[|es| - 1] in EventSet(es);
    }
  }

  /** Two histories that replay from zero to the same final hash are the same history. */
  lemma {:induction false} SameEndSameHistory(c: Codec, a: seq<Event>, b: seq<Event>)
    requires Distinguishes(c, EventSet(a) + EventSet(b))
    requires ChainEnd(c, ZERO, a).Some? && ChainEnd(c, ZERO, a) == ChainEnd(c, ZERO, b)
    ensures a == b
    decreases |a|
  {
    NonzeroEnd(c, ZERO, a);
    NonzeroEnd(c, ZERO, b);
    if a != [] && b != [] {
      var a', b' := a[..|a| - 1], b[..|b| - 1];
      var x, y := a[|a| - 1], b[|b| - 1];
      assert x in EventSet(a) && y in EventSet(b);
      assert EventSet(a') <= EventSet(a) && EventSet(b') <= EventSet(b);
      assert EventHash(c, x) == EventHash(c, y);
      SameEndSameHistory(c, a', b');
      assert a == a' + [x] && b == b' + [y];
    }
  }

  /** Replacing one entry by a different one is reported no later than at the next entry. */
  lemma AlteredEntryIsReported(c: Codec, lines: seq<Line>, altered: seq<Line>, i: nat, j: nat)
    requires |altered| == |lines| && i < j < |lines| && lines[i].Entry? && lines[j].Entry?
    requires altered[i].Entry? && altered[i] != lines[i]
    requires forall k | 0 <= k < |lines| && k != i :: altered[k] == lines[k]
    requires forall k | i < k < j :: lines[k] == Blank
    requires LinesEnd(c, lines).Some?
    requires NoCollision(c, {lines[i].event, altered[i].event})
    ensures Recover(c, Lines(altered)).Broken? && Recover(c, Lines(altered)).line <= j + 1
  {
    assert EventHash(c, lines[i].event) == Some(lines[j].event.prev) by {
      LinesPrefix(c, lines, j + 1);
      AcceptedPair(c, lines, i, j);
    }
    AlteredStops(c, altered, i, j, lines[i].event);
    RejectedStays(c, altered, j + 1);
  }

  lemma AlteredStops(c: Codec, altered: seq<Line>, i: nat, j: nat, original: Event)
    requires i < j < |altered| && altered[i].Entry? && altered[j].Entry? && altered[i].event != original
    requires forall k | i < k < j :: altered[k] == Blank
    requires EventHash(c, original) == Some(altered[j].event.prev)
    requires NoCollision(c, {original, altered[i].event})
    ensures LinesEnd(c, altered[..j + 1]).None?
  {
    if LinesEnd(c, altered[..j + 1]).Some? {
      AcceptedPair(c, altered, i, j);
    }
  }

  /** Replay accepts two successive entries only when the second names the first one's link. */
  lemma AcceptedPair(c: Codec, lines: seq<Line>, i: nat, j: nat)
    requires i < j < |lines| && lines[i].Entry? && lines[j].Entry?
    requires forall k | i < k < j :: lines[k] == Blank
    requires LinesEnd(c, lines[..j + 1]).Some?
    ensures EventHash(c, lines[i].event) == Some(lines[j].event.prev)
  {
    PrefixOfPrefix(lines, j + 1, j);
    SkipBlanks(c, lines[..j], i + 1);
    PrefixOfPrefix(lines, j, i + 1);
    PrefixOfPrefix(lines, i + 1, i);
  }

  lemma LinesPrefix(c: Codec, lines: seq<Line>, k: nat)
    requires LinesEnd(c, lines).Some? && k <= |lines|
    ensures LinesEnd(c, lines[..k]).Some?
  {
    if LinesEnd(c, lines[..k]).None? {
      RejectedStays(c, lines, k);
    }
  }

  lemma {:induction false} SkipBlanks(c: Codec, lines: seq<Line>, k: nat)
    requires k <= |lines| && forall i | k <= i < |lines| :: lines[i] == Blank
    ensures LinesEnd(c, lines) == LinesEnd(c, lines[..k])
  {
    if k < |lines| {
      SkipBlanks(c, lines[..|lines| - 1], k);
      assert lines[..|lines| - 1][..k] == lines[..k];
    } else {
      assert lines[..k] == lines;
    }
  }

  /** Deleting, repeating or reordering entries of a good log goes unnoticed exactly when what is
      left is a prefix of it: cutting off the end is the only edit of this kind that recovery accepts. */
  lemma {:induction false} OnlyTruncationIsAccepted(c: Codec, log: seq<Event>, edited: seq<Event>)
    requires Distinguishes(c, EventSet(log))
    requires ChainEnd(c, ZERO, log).Some?
    requires forall e | e in edited :: e in log
    ensures Recover(c, Lines(Entries(edited))).Broken? <==> !(edited <= log)
  {
    LinesOfEvents(c, edited);
    if edited <= log {
      ChainPrefix(c, ZERO, log, |edited|);
      assert edited == log[..|edited|];
    } else if ChainEnd(c, ZERO, edited).Some? {
      EditedIsPrefix(c, log, edited);
    }
  }

  lemma {:induction false} EditedIsPrefix(c: Codec, log: seq<Event>, edited: seq<Event>)
    requires Distinguishes(c, EventSet(log))
    requires ChainEnd(c, ZERO, log).Some? && ChainEnd(c, ZERO, edited).Some?
    requires forall e | e in edited :: e in log
    ensures edited <= log
  {
    if edited != [] {
      var m := |edited| - 1;
      EditedIsPrefix(c, log, edited[..m]);
      assert edited[..m] == log[..m];
      assert edited[m] in log;
      var j :| 0 <= j < |log| && log[j] == edited[m];
      ChainPrefix(c, ZERO, log, j);
      ChainPrefix(c, ZERO, log, m);
      PositionIsUnique(c, log, j, m);
    }
  }

  lemma PositionIsUnique(c: Codec, log: seq<Event>, j: nat, m: nat)
    requires Distinguishes(c, EventSet(log))
    requires j <= |log| && m <= |log| && ChainEnd(c, ZERO, log).Some?
    requires ChainEnd(c, ZERO, log[..j]) == ChainEnd(c, ZERO, log[..m])
    ensures j == m
  {
    ChainPrefix(c, ZERO, log, j);
    assert EventSet(log[..j]) + EventSet(log[..m]) <= EventSet(log);
    SameEndSameHistory(c, log[..j], log[..m]);
  }
}
