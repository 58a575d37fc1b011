/** The audit log's files: the current file and up to five rotated generations. */
module LogFiles {
  import opened Base
  import opened HashChain

  const MAX_LOG_FILE_BYTES := 100 * 1024 * 1024
  const MAX_ROTATED_FILES := 5

  /** Generation 0 is the current file `path`, generation g the file `path.g`. */
  type Disk = d: map<nat, seq<Event>> | forall g | g in d :: g <= MAX_ROTATED_FILES witness map[]

  function FileOf(d: Disk, g: nat): seq<Event> {
    if g in d then d[g] else []
  }

  /** Bytes of a file: each event takes one line, a newline included. */
  function FileSize(lineLength: Event -> nat, file: seq<Event>): nat {
    if file == [] then 0
    else FileSize(lineLength, file[..|file| - 1]) + lineLength(file[|file| - 1]) + 1
  }

  /** After a rotation generation g exists when generation g - 1 did before; generation 5 also
      when it existed and was not replaced. */
  predicate ExistsAfterRotation(d: Disk, g: nat) {
    1 <= g <= MAX_ROTATED_FILES && (g - 1 in d || (g == MAX_ROTATED_FILES && g in d))
  }

  /** The disk after shifting every generation up by one, the current file becoming generation 1. */
  function Rotated(d: Disk): Disk {
    map g: nat | g <= MAX_ROTATED_FILES && ExistsAfterRotation(d, g) :: if g - 1 in d then d[g - 1] else d[g]
  }

  function Rename(d: Disk, from: nat, to: nat): Disk
    requires from in d && to <= MAX_ROTATED_FILES && from != to
  {
    d[to := d[from]] - {from}
  }

  /** Rename the generations in turn, oldest first, then the current file. */
  method RotateLogFiles(d: Disk) returns (r: Disk)
    requires 0 in d
    ensures r == Rotated(d)
  {
    r := d;
    var gen := MAX_ROTATED_FILES - 1;
    while gen >= 1
      invariant 0 <= gen <= MAX_ROTATED_FILES - 1
      invariant forall g | 0 <= g <= gen :: (g in r <==> g in d) && (g in d ==> r[g] == d[g])
      invariant gen == MAX_ROTATED_FILES - 1 ==> r == d
      invariant gen < MAX_ROTATED_FILES - 1 ==> gen + 1 !in r
      invariant gen < MAX_ROTATED_FILES - 1 ==>
                  forall g | gen + 2 <= g <= MAX_ROTATED_FILES ::
                    (g in r <==> g in Rotated(d)) && (g in r ==> r[g] == Rotated(d)[g])
    {
      if gen in r {
        r := Rename(r, gen, gen + 1);
      }
      gen := gen - 1;
    }
    r := Rename(r, 0, 1);
  }

  /** Open or create the current file, rotate it first when it has reached the size limit,
      and write one more event. */
  function Append(lineLength: Event -> nat, d: Disk, e: Event): (r: Disk)
    ensures 0 in r && r[0] != []
  {
    var ensured := d[0 := FileOf(d, 0)];
    var ready := if FileSize(lineLength, ensured[0]) >= MAX_LOG_FILE_BYTES then Rotated(ensured)[0 := []] else ensured;
    ready[0 := ready[0] + [e]]
  }

  function AppendAll(lineLength: Event -> nat, d: Disk, es: seq<Event>): Disk {
    if es == [] then d
    else Append(lineLength, AppendAll(lineLength, d, es[..|es| - 1]), es[|es| - 1])
  }

  // ---------------------------------------------------------------------------
  // What reading path.5 down to path.1 and then path gives
  // ---------------------------------------------------------------------------

  /** The events of generations g, g - 1, …, 0, oldest first. */
  function History(d: Disk, g: nat): seq<Event> {
    FileOf(d, g) + if g == 0 then [] else History(d, g - 1)
  }

  /** Exactly generations 1 to k exist, none of them empty. */
  predicate Generations(d: Disk, k: nat) {
    && k <= MAX_ROTATED_FILES
    && (forall g: nat | 1 <= g <= MAX_ROTATED_FILES :: g in d <==> g <= k)
    && (forall g: nat | 1 <= g <= k :: d[g] != [])
    && (k > 0 ==> FileOf(d, 0) != [])
  }

  /** Append adds the event at the end of the history. Only a rotation with five generations
      present drops anything, and then it drops the oldest file. */
  lemma AppendHistory(lineLength: Event -> nat, d: Disk, k: nat, e: Event)
    requires Generations(d, k)
    ensures var rotates := FileSize(lineLength, FileOf(d, 0)) >= MAX_LOG_FILE_BYTES;
            var d' := Append(lineLength, d, e);
            && Generations(d', if rotates then Min(k + 1, MAX_ROTATED_FILES) else k)
            && History(d', MAX_ROTATED_FILES)
               == History(d, if rotates then MAX_ROTATED_FILES - 1 else MAX_ROTATED_FILES) + [e]
            && (rotates && k < MAX_ROTATED_FILES ==> History(d, MAX_ROTATED_FILES - 1) == History(d, MAX_ROTATED_FILES))
  {
    var d' := Append(lineLength, d, e);
    if FileSize(lineLength, FileOf(d, 0)) >= MAX_LOG_FILE_BYTES {
      AppendShifts(lineLength, d, k, e);
      ShiftedHistory(d, d', MAX_ROTATED_FILES, e);
    } else {
      GrownHistory(d, d', MAX_ROTATED_FILES, e);
    }
  }

  lemma RotatedFile(d: Disk, k: nat, g: nat)
    requires Generations(d, k) && 0 in d && 1 <= g <= MAX_ROTATED_FILES
    ensures g in Rotated(d) <==> g <= Min(k + 1, MAX_ROTATED_FILES)
    ensures FileOf(Rotated(d), g) == FileOf(d, g - 1)
  {
    assert g - 1 in d <==> g - 1 <= k;
    assert ExistsAfterRotation(d, g) <==> g - 1 in d;
  }

  lemma AppendShifts(lineLength: Event -> nat, d: Disk, k: nat, e: Event)
    requires Generations(d, k) && FileSize(lineLength, FileOf(d, 0)) >= MAX_LOG_FILE_BYTES
    ensures var d' := Append(lineLength, d, e);
            && FileOf(d', 0) == [e]
            && (forall g: nat | 1 <= g <= MAX_ROTATED_FILES :: FileOf(d', g) == FileOf(d, g - 1))
            && Generations(d', Min(k + 1, MAX_ROTATED_FILES))
  {
    assert FileOf(d, 0) != [];
    forall g: nat | 1 <= g <= MAX_ROTATED_FILES
      ensures g in Rotated(d) <==> g <= Min(k + 1, MAX_ROTATED_FILES)
      ensures FileOf(Rotated(d), g) == FileOf(d, g - 1)
    {
      RotatedFile(d, k, g);
    }
    assert 0 in d && d[0 := FileOf(d, 0)] == d;
    assert Append(lineLength, d, e) == Rotated(d)[0 := []][0 := [] + [e]];
  }

  lemma {:induction false} ShiftedHistory(d: Disk, d': Disk, g: nat, e: Event)
    requires FileOf(d', 0) == [e] && forall i: nat | 1 <= i <= g :: FileOf(d', i) == FileOf(d, i - 1)
    requires g > 0
    ensures History(d', g) == History(d, g - 1) + [e]
  {
    if g > 1 {
      ShiftedHistory(d, d', g - 1, e);
    }
  }

  lemma {:induction false} GrownHistory(d: Disk, d': Disk, g: nat, e: Event)
    requires FileOf(d', 0) == FileOf(d, 0) + [e] && forall i: nat | 1 <= i <= g :: FileOf(d', i) == FileOf(d, i)
    ensures History(d', g) == History(d, g) + [e]
  {
    if g > 0 {
      GrownHistory(d, d', g - 1, e);
    }
  }

  lemma {:induction false} EmptyHistory(g: nat)
    ensures History(map[], g) == []
  {
    if g > 0 {
      EmptyHistory(g - 1);
    }
  }

  /** The k generations and the current file hold all of `written` but its first `dropped` events,
      and nothing is dropped while fewer than five generations exist. */
  ghost predicate HoldsSuffix(d: Disk, k: nat, written: seq<Event>, dropped: nat) {
    && Generations(d, k)
    && (0 in d ==> d[0] != [])
    && dropped <= |written|
    && History(d, MAX_ROTATED_FILES) == written[dropped..]
    && (k < MAX_ROTATED_FILES ==> dropped == 0)
  }

  lemma SuffixStep(lineLength: Event -> nat, d: Disk, k: nat, written: seq<Event>, dropped: nat, e: Event)
    returns (k': nat, dropped': nat)
    requires HoldsSuffix(d, k, written, dropped)
    ensures HoldsSuffix(Append(lineLength, d, e), k', written + [e], dropped')
  {
    hide Append, FileSize, History;
    AppendHistory(lineLength, d, k, e);
    OldestFirst(d);
    k', dropped' := k, dropped;
    if FileSize(lineLength, FileOf(d, 0)) >= MAX_LOG_FILE_BYTES {
      var oldest := |FileOf(d, MAX_ROTATED_FILES)|;
      DropOldest(written, dropped, FileOf(d, MAX_ROTATED_FILES), History(d, MAX_ROTATED_FILES - 1));
      k', dropped' := Min(k + 1, MAX_ROTATED_FILES), dropped + oldest;
    }
    SuffixGrows(written, dropped', e);
  }

  lemma OldestFirst(d: Disk)
    ensures History(d, MAX_ROTATED_FILES) == FileOf(d, MAX_ROTATED_FILES) + History(d, MAX_ROTATED_FILES - 1)
  {
  }

  lemma DropOldest(written: seq<Event>, dropped: nat, oldest: seq<Event>, kept: seq<Event>)
    requires dropped <= |written| && written[dropped..] == oldest + kept
    ensures dropped + |oldest| <= |written| && written[dropped + |oldest|..] == kept
  {
    assert |written| - dropped == |oldest| + |kept|;
    assert written[dropped + |oldest|..] == written[dropped..][|oldest|..];
  }

  lemma SuffixGrows(written: seq<Event>, dropped: nat, e: Event)
    requires dropped <= |written|
    ensures (written + [e])[dropped..] == written[dropped..] + [e]
  {
  }

  /** Whatever the number of rotations, the files together hold a contiguous suffix of all
      events written, and all of them until a sixth generation would be needed. */
  lemma {:induction false} FilesHoldSuffix(lineLength: Event -> nat, es: seq<Event>) returns (k: nat, dropped: nat)
    ensures HoldsSuffix(AppendAll(lineLength, map[], es), k, es, dropped)
  {
    if es == [] {
      k, dropped := 0, 0;
      EmptyHistory(MAX_ROTATED_FILES);
    } else {
      var n := |es| - 1;
      k, dropped := FilesHoldSuffix(lineLength, es[..n]);
      k, dropped := SuffixStep(lineLength, AppendAll(lineLength, map[], es[..n]), k, es[..n], dropped, es[n]);
      assert es[..n] + [es[n]] == es;
    }
  }

  /** The hash at which file g should end: the one named by the first event of the next younger
      file, or the last hash of all for the current file. */
  function ExpectedEnd(d: Disk, g: nat, end: Hash): Hash {
    if g > 0 && FileOf(d, g - 1) != [] then FileOf(d, g - 1)[0].prev else end
  }

  predicate FileLinked(c: Codec, d: Disk, g: nat, end: Hash)
    requires g in d
  {
    d[g] != [] && ChainEnd(c, d[g][0].prev, d[g]) == Some(ExpectedEnd(d, g, end))
  }

  /** The check described for rotated logs: each file replays from the hash named by its first
      event to the hash named by the first event of the next younger file. */
  predicate LinkedAcrossFiles(c: Codec, d: Disk, g: nat, end: Hash) {
    forall i: nat | i <= g && i in d :: FileLinked(c, d, i, end)
  }

  lemma {:induction false} HistoryLinks(c: Codec, d: Disk, k: nat, g: nat, start: Hash, end: Hash)
    requires Generations(d, k) && g <= MAX_ROTATED_FILES && (0 in d ==> d[0] != [])
    requires ChainEnd(c, start, History(d, g)) == Some(end)
    ensures LinkedAcrossFiles(c, d, g, end)
  {
    var middle := FileLinks(c, d, k, g, start, end);
    if g > 0 {
      HistoryLinks(c, d, k, g - 1, middle, end);
    }
    forall i: nat | i <= g && i in d
      ensures FileLinked(c, d, i, end)
    {
      assert i < g ==> LinkedAcrossFiles(c, d, g - 1, end);
    }
  }

  lemma FirstNamesStart(c: Codec, start: Hash, file: seq<Event>, rest: seq<Event>)
    requires file != [] && ChainEnd(c, start, file + rest).Some?
    ensures file[0].prev == start
  {
    ChainPrefix(c, start, file + rest, 0);
    assert (file + rest)[..0] == [];
  }

  lemma FileLinks(c: Codec, d: Disk, k: nat, g: nat, start: Hash, end: Hash) returns (middle: Hash)
    requires Generations(d, k) && g <= MAX_ROTATED_FILES && (0 in d ==> d[0] != [])
    requires ChainEnd(c, start, History(d, g)) == Some(end)
    ensures g > 0 ==> ChainEnd(c, middle, History(d, g - 1)) == Some(end)
    ensures g in d ==> FileLinked(c, d, g, end)
  {
    var rest := if g == 0 then [] else History(d, g - 1);
    ChainConcat(c, start, FileOf(d, g), rest);
    middle := ChainEnd(c, start, FileOf(d, g)).value;
    if g in d {
      FirstNamesStart(c, start, d[g], rest);
      if g > 0 {
        FirstNamesStart(c, middle, FileOf(d, g - 1), if g == 1 then [] else History(d, g - 2));
      }
    }
  }

  /** Events written in one unbroken chain stay linked from file to file, up to the last hash. */
  lemma RotatedFilesStayLinked(c: Codec, lineLength: Event -> nat, start: Hash, es: seq<Event>, end: Hash)
    requires ChainEnd(c, start, es) == Some(end)
    ensures LinkedAcrossFiles(c, AppendAll(lineLength, map[], es), MAX_ROTATED_FILES, end)
  {
    var d := AppendAll(lineLength, map[], es);
    var k, dropped := FilesHoldSuffix(lineLength, es);
    assert es == es[..dropped] + es[dropped..];
    ChainConcat(c, start, es[..dropped], es[dropped..]);
    HistoryLinks(c, d, k, MAX_ROTATED_FILES, ChainEnd(c, start, es[..dropped]).value, end);
  }
}
