/** HMAC_DRBG of section 10.1.2 of NIST SP 800-90A Rev. 1, reseeded before every output. */
module HmacDrbg {
  import opened Base

  const BLOCK_LENGTH := 32
  const RESEED_INTERVAL := 0x1_0000_0000_0000
  const ZEROS: seq<byte> :=
    [0, 0, 0, 0, 0, 0, 0, 0, 0, 0, 0, 0, 0, 0, 0, 0,
     0, 0, 0, 0, 0, 0, 0, 0, 0, 0, 0, 0, 0, 0, 0, 0]
  const ONES: seq<byte> :=
    [1, 1, 1, 1, 1, 1, 1, 1, 1, 1, 1, 1, 1, 1, 1, 1,
     1, 1, 1, 1, 1, 1, 1, 1, 1, 1, 1, 1, 1, 1, 1, 1]

  type Block = b: seq<byte> | |b| == BLOCK_LENGTH witness ZEROS

  /** HMAC-SHA256 under a key. */
  type Hmac = (Block, seq<byte>) -> Block

  // ---------------------------------------------------------------------------
  // The standard
  // ---------------------------------------------------------------------------

  /** Section 10.1.2.2: the pair of key and value after an update. */
  function Updated(hmac: Hmac, key: Block, value: Block, data: seq<byte>): (Block, Block) {
    var key1 := hmac(key, value + [0] + data);
    var value1 := hmac(key1, value);
    if data == [] then (key1, value1)
    else
      var key2 := hmac(key1, value1 + [1] + data);
      (key2, hmac(key2, value1))
  }

  /** One round: a new key from the value, a separator and the data, then a new value under it. */
  function Round(hmac: Hmac, kv: (Block, Block), separator: byte, data: seq<byte>): (Block, Block) {
    var key := hmac(kv.0, kv.1 + [separator] + data);
    (key, hmac(key, kv.1))
  }

  function Rounds(hmac: Hmac, kv: (Block, Block), separators: seq<byte>, data: seq<byte>): (Block, Block) {
    if separators == [] then kv
    else
      var n := |separators| - 1;
      Round(hmac, Rounds(hmac, kv, separators[..n], data), separators[n], data)
  }

  /** An update is one round with separator 0, and with data a second one with separator 1. */
  lemma UpdatedIsRounds(hmac: Hmac, key: Block, value: Block, data: seq<byte>)
    ensures Updated(hmac, key, value, data)
            == Rounds(hmac, (key, value), if data == [] then [0] else [0, 1], data)
  {
    var kv := (key, value);
    var zero: seq<byte> := [0];
    var both: seq<byte> := [0, 1];
    assert zero[..0] == [] && both[..1] == zero;
    assert Rounds(hmac, kv, zero, data) == Round(hmac, kv, 0, data);
  }

  /** Section 10.1.2.5: the value after i output blocks; block i of the output is the value after it. */
  function BlockAt(hmac: Hmac, key: Block, value: Block, i: nat): Block {
    if i == 0 then value else hmac(key, BlockAt(hmac, key, value, i - 1))
  }

  function Blocks(hmac: Hmac, key: Block, value: Block, count: nat): (blocks: seq<Block>)
    ensures |blocks| == count
    ensures forall i | 0 <= i < count :: blocks[i] == BlockAt(hmac, key, value, i + 1)
  {
    if count == 0 then [] else Blocks(hmac, key, value, count - 1) + [BlockAt(hmac, key, value, count)]
  }

  function Bytes(blocks: seq<Block>): (s: seq<byte>)
    ensures |s| == BLOCK_LENGTH * |blocks|
  {
    if blocks == [] then [] else Bytes(blocks[..|blocks| - 1]) + blocks[|blocks| - 1]
  }

  function BlocksFor(n: nat): (count: nat)
    ensures BLOCK_LENGTH * count < n + BLOCK_LENGTH && n <= BLOCK_LENGTH * count
  {
    (n + BLOCK_LENGTH - 1) / BLOCK_LENGTH
  }

  // ---------------------------------------------------------------------------
  // The generator
  // ---------------------------------------------------------------------------

  datatype State = State(key: Block, value: Block, reseedCounter: nat, lastOutput: Block, hasOutput: bool)

  function New(hmac: Hmac, seed: seq<byte>): State {
    var (key, value) := Updated(hmac, ZEROS, ONES, seed);
    State(key, value, 1, ZEROS, false)
  }

  function Reseed(hmac: Hmac, s: State, entropy: seq<byte>): State {
    var (key, value) := Updated(hmac, s.key, s.value, entropy);
    s.(key := key, value := value, reseedCounter := 1)
  }

  /** What the block loop has reached: the state, the blocks put out, and whether one repeated. */
  datatype Filled = Filled(state: State, emitted: seq<Block>, stuck: bool)

  function NextBlock(hmac: Hmac, f: Filled): Filled {
    var s := f.state;
    var block := hmac(s.key, s.value);
    if s.hasOutput && block == s.lastOutput then Filled(s.(value := block), f.emitted, true)
    else Filled(s.(value := block, lastOutput := block, hasOutput := true), f.emitted + [block], false)
  }

  function Fill(hmac: Hmac, s: State, count: nat): Filled {
    if count == 0 then Filled(s, [], false)
    else
      var f := Fill(hmac, s, count - 1);
      if f.stuck then f else NextBlock(hmac, f)
  }

  /** The reseeds at the start of a call; `spare` is for the one that the interval asks for. */
  function Prepared(hmac: Hmac, s: State, spare: seq<byte>, entropy: seq<byte>): State {
    Reseed(hmac, if s.reseedCounter > RESEED_INTERVAL then Reseed(hmac, s, spare) else s, entropy)
  }

  function Finished(hmac: Hmac, s: State): State {
    var (key, value) := Updated(hmac, s.key, s.value, []);
    s.(key := key, value := value, reseedCounter := s.reseedCounter + 1)
  }

  function Generated(hmac: Hmac, s: State, n: nat, spare: seq<byte>, entropy: seq<byte>): Filled {
    var f := Fill(hmac, Prepared(hmac, s, spare, entropy), BlocksFor(n));
    if f.stuck then f else f.(state := Finished(hmac, f.state))
  }

  class HmacDrbg {
    const hmac: Hmac
    var key: Block
    var value: Block
    var reseedCounter: nat
    var lastOutput: Block
    var hasOutput: bool

    function Value(): State
      reads this
    {
      State(key, value, reseedCounter, lastOutput, hasOutput)
    }

    constructor (h: Hmac, seed: seq<byte>)
      ensures hmac == h && Value() == New(h, seed)
    {
      hmac := h;
      key, value, reseedCounter, lastOutput, hasOutput := ZEROS, ONES, 0, ZEROS, false;
      new;
      Update(seed);
      reseedCounter := 1;
    }

    method Update(data: seq<byte>)
      modifies this
      ensures var (k, v) := Updated(hmac, old(key), old(value), data);
              Value() == old(Value()).(key := k, value := v)
    {
      key := hmac(key, value + [0] + data);
      value := hmac(key, value);
      if data != [] {
        key := hmac(key, value + [1] + data);
        value := hmac(key, value);
      }
    }

    method ReseedFrom(entropy: seq<byte>)
      modifies this
      ensures Value() == Reseed(hmac, old(Value()), entropy)
    {
      Update(entropy);
      reseedCounter := 1;
    }

    /** One block, with the comparison to the block before it. */
    method NextOutput(ghost f: Filled) returns (ok: bool)
      requires Value() == f.state
      modifies this
      ensures var f' := NextBlock(hmac, f); Value() == f'.state && ok == !f'.stuck
    {
      value := hmac(key, value);
      if hasOutput && value == lastOutput {
        return false;
      }
      lastOutput := value;
      hasOutput := true;
      ok := true;
    }

    /** The block loop of `Generate`. */
    method FillOutput(out: array<byte>) returns (ok: bool)
      modifies this, out
      ensures var f := Fill(hmac, old(Value()), BlocksFor(out.Length));
              && Value() == f.state && ok == !f.stuck
              && (ok ==> IsPrefix(out[..], f.emitted))
    {
      hide Bytes, NextBlock, BlocksFor;
      ghost var start := Value();
      ghost var f := Filled(start, [], false);
      ghost var i := 0;
      var pos := 0;
      NoBlocks();
      while pos < out.Length
        invariant pos == Min(BLOCK_LENGTH * i, out.Length) && (0 < i ==> BLOCK_LENGTH * (i - 1) < out.Length)
        invariant f == Fill(hmac, start, i) && !f.stuck && Value() == f.state && |f.emitted| == i
        invariant IsPrefix(out[..pos], f.emitted)
      {
        ok := NextOutput(f);
        ghost var before := f;
        f := NextBlock(hmac, f);
        i := i + 1;
        CountBlocks(out.Length, i);
        if !ok {
          StuckStays(hmac, start, i, BlocksFor(out.Length));
          return;
        }
        EmittedBlock(hmac, before);
        var copyLen := Min(out.Length - pos, BLOCK_LENGTH);
        ghost var filled := out[..pos];
        CopyBlock(out, pos, copyLen, value);
        PrefixGrows(before.emitted, value, filled, copyLen);
        pos := pos + copyLen;
      }
      CountBlocks(out.Length, i);
      assert out[..pos] == out[..];
      ok := true;
    }

    method Generate(out: array<byte>, spare: seq<byte>, entropy: seq<byte>) returns (r: Result<(), HsmError>)
      modifies this, out
      ensures var f := Generated(hmac, old(Value()), out.Length, spare, entropy);
              && Value() == f.state
              && (r == if f.stuck then Err(GeneralError) else Ok(()))
              && (r.Ok? ==> IsPrefix(out[..], f.emitted))
    {
      hide Updated, Fill, IsPrefix;
      if reseedCounter > RESEED_INTERVAL {
        ReseedFrom(spare);
      }
      ReseedFrom(entropy);
      var ok := FillOutput(out);
      if !ok {
        return Err(GeneralError);
      }
      Update([]);
      reseedCounter := reseedCounter + 1;
      r := Ok(());
    }
  }

  /** The bytes are the first ones of these blocks, and reach into the last of them. */
  predicate IsPrefix(bytes: seq<byte>, blocks: seq<Block>) {
    bytes <= Bytes(blocks) && |Bytes(blocks)| < |bytes| + BLOCK_LENGTH
  }

  lemma NoBlocks()
    ensures IsPrefix([], [])
  {
  }

  /** `i` blocks are too few, or just enough. */
  lemma CountBlocks(n: nat, i: nat)
    requires 0 < i ==> BLOCK_LENGTH * (i - 1) < n
    ensures i <= BlocksFor(n) && (n <= BLOCK_LENGTH * i ==> i == BlocksFor(n))
  {
  }

  lemma EmittedBlock(hmac: Hmac, f: Filled)
    requires !NextBlock(hmac, f).stuck
    ensures NextBlock(hmac, f).emitted == f.emitted + [NextBlock(hmac, f).state.value]
  {
  }

  lemma PrefixGrows(blocks: seq<Block>, block: Block, bytes: seq<byte>, len: nat)
    requires bytes == Bytes(blocks) && 0 < len <= BLOCK_LENGTH
    ensures IsPrefix(bytes + block[..len], blocks + [block])
  {
    assert (blocks + [block])[..|blocks|] == blocks;
    assert bytes + block == bytes + block[..len] + block[len..];
  }

  method CopyBlock(out: array<byte>, pos: nat, len: nat, block: Block)
    requires pos + len <= out.Length && len <= BLOCK_LENGTH
    modifies out
    ensures out[..pos + len] == old(out[..pos]) + block[..len]
    ensures out[pos + len..] == old(out[pos + len..])
  {
    forall i | 0 <= i < len {
      out[pos + i] := block[i];
    }
  }

  lemma {:induction false} StuckStays(hmac: Hmac, s: State, a: nat, b: nat)
    requires a <= b && Fill(hmac, s, a).stuck
    ensures Fill(hmac, s, b) == Fill(hmac, s, a)
  {
    if a < b {
      StuckStays(hmac, s, a, b - 1);
    }
  }

  // ---------------------------------------------------------------------------
  // One call against the standard
  // ---------------------------------------------------------------------------

  /** Output block i, counted from 1, repeats the block put out before it. */
  predicate Repeats(hmac: Hmac, s: State, i: nat)
    requires 0 < i
  {
    var block := BlockAt(hmac, s.key, s.value, i);
    if i == 1 then s.hasOutput && block == s.lastOutput else block == BlockAt(hmac, s.key, s.value, i - 1)
  }

  ghost predicate RepeatsWithin(hmac: Hmac, s: State, count: nat) {
    exists i | 1 <= i <= count :: Repeats(hmac, s, i)
  }

  /** The state after `count` blocks none of which repeated. */
  function Advanced(hmac: Hmac, s: State, count: nat): State {
    if count == 0 then s
    else
      var block := BlockAt(hmac, s.key, s.value, count);
      s.(value := block, lastOutput := block, hasOutput := true)
  }

  lemma {:induction false} FillMeaning(hmac: Hmac, s: State, count: nat)
    ensures var f := Fill(hmac, s, count);
            && f.stuck == RepeatsWithin(hmac, s, count)
            && |f.emitted| <= count
            && f.emitted == Blocks(hmac, s.key, s.value, |f.emitted|)
            && (!f.stuck ==> |f.emitted| == count && f.state == Advanced(hmac, s, count))
            && (f.stuck ==> |f.emitted| < count && Repeats(hmac, s, |f.emitted| + 1))
  {
    if count > 0 {
      FillMeaning(hmac, s, count - 1);
      var f := Fill(hmac, s, count - 1);
      if f.stuck {
        assert Repeats(hmac, s, |f.emitted| + 1);
      } else {
        assert NextBlock(hmac, f).stuck == Repeats(hmac, s, count);
        var emitted := f.emitted + [BlockAt(hmac, s.key, s.value, count)];
        assert emitted[..count - 1] == f.emitted;
      }
    }
  }

  /** A call of any length returns the first n bytes of the blocks that the standard defines after
      the fresh reseed, or fails exactly if one of these blocks repeats the one put out before it. */
  lemma GenerateMatchesStandard(hmac: Hmac, s: State, out: seq<byte>, spare: seq<byte>, entropy: seq<byte>)
    ensures var f := Generated(hmac, s, |out|, spare, entropy);
            var p := Prepared(hmac, s, spare, entropy);
            var blocks := Blocks(hmac, p.key, p.value, BlocksFor(|out|));
            && f.stuck == RepeatsWithin(hmac, p, BlocksFor(|out|))
            && (!f.stuck ==> f.emitted == blocks && (IsPrefix(out, f.emitted) <==> out == Bytes(blocks)[..|out|]))
  {
    hide Blocks, Fill, RepeatsWithin, BlockAt;
    var p := Prepared(hmac, s, spare, entropy);
    FillMeaning(hmac, p, BlocksFor(|out|));
    var blocks := Blocks(hmac, p.key, p.value, BlocksFor(|out|));
    assert out <= Bytes(blocks) <==> out == Bytes(blocks)[..|out|];
  }

  // ---------------------------------------------------------------------------
  // Runs
  // ---------------------------------------------------------------------------

  datatype Call = ReseedCall(entropy: seq<byte>) | GenerateCall(n: nat, spare: seq<byte>, entropy: seq<byte>)

  /** The state and every block put out so far, those of failed calls included. */
  datatype Trace = Trace(state: State, emitted: seq<Block>)

  function Next(hmac: Hmac, t: Trace, c: Call): Trace {
    match c
    case ReseedCall(entropy) => t.(state := Reseed(hmac, t.state, entropy))
    case GenerateCall(n, spare, entropy) =>
      var f := Generated(hmac, t.state, n, spare, entropy);
      Trace(f.state, t.emitted + f.emitted)
  }

  function Run(hmac: Hmac, seed: seq<byte>, calls: seq<Call>): Trace {
    if calls == [] then Trace(New(hmac, seed), [])
    else Next(hmac, Run(hmac, seed, calls[..|calls| - 1]), calls[|calls| - 1])
  }

  ghost predicate NoRepeats(blocks: seq<Block>) {
    forall i | 0 < i < |blocks| :: blocks[i] != blocks[i - 1]
  }

  /** The state remembers the last block of a sequence without repeats. */
  ghost predicate Remembers(s: State, emitted: seq<Block>) {
    && NoRepeats(emitted)
    && s.hasOutput == (emitted != [])
    && (emitted != [] ==> s.lastOutput == emitted[|emitted| - 1])
  }

  lemma BlockRemembers(hmac: Hmac, f: Filled, emitted: seq<Block>)
    requires Remembers(f.state, emitted + f.emitted)
    ensures var f' := NextBlock(hmac, f);
            Remembers(f'.state, emitted + f'.emitted) && f'.state.reseedCounter == f.state.reseedCounter
  {
    var log := emitted + f.emitted;
    var block := hmac(f.state.key, f.state.value);
    assert emitted + (f.emitted + [block]) == log + [block];
  }

  lemma {:induction false} FillRemembers(hmac: Hmac, s: State, emitted: seq<Block>, count: nat)
    requires Remembers(s, emitted)
    ensures var f := Fill(hmac, s, count);
            Remembers(f.state, emitted + f.emitted) && f.state.reseedCounter == s.reseedCounter
  {
    hide Remembers, NextBlock;
    if count > 0 {
      FillRemembers(hmac, s, emitted, count - 1);
      BlockRemembers(hmac, Fill(hmac, s, count - 1), emitted);
    } else {
      assert emitted + [] == emitted;
    }
  }

  lemma NextKeeps(hmac: Hmac, t: Trace, c: Call)
    requires Remembers(t.state, t.emitted)
    ensures var t' := Next(hmac, t, c);
            Remembers(t'.state, t'.emitted) && 1 <= t'.state.reseedCounter <= 2
  {
    hide Updated, Fill, NoRepeats;
    if c.GenerateCall? {
      FillRemembers(hmac, Prepared(hmac, t.state, c.spare, c.entropy), t.emitted, BlocksFor(c.n));
    }
  }

  /** Over all calls of a run no two adjacent blocks are equal, and the reseed counter is 1 or 2. */
  lemma {:induction false} RunNeverRepeats(hmac: Hmac, seed: seq<byte>, calls: seq<Call>)
    ensures var t := Run(hmac, seed, calls);
            && NoRepeats(t.emitted) && Remembers(t.state, t.emitted)
            && 1 <= t.state.reseedCounter <= 2
  {
    if calls != [] {
      RunNeverRepeats(hmac, seed, calls[..|calls| - 1]);
      NextKeeps(hmac, Run(hmac, seed, calls[..|calls| - 1]), calls[|calls| - 1]);
    }
  }

  /** So the reseed interval never asks for entropy of its own. */
  lemma IntervalNeverFires(hmac: Hmac, seed: seq<byte>, calls: seq<Call>, n: nat, spare: seq<byte>, other: seq<byte>,
                           entropy: seq<byte>)
    ensures var s := Run(hmac, seed, calls).state;
            && s.reseedCounter <= RESEED_INTERVAL
            && Generated(hmac, s, n, spare, entropy) == Generated(hmac, s, n, other, entropy)
  {
    RunNeverRepeats(hmac, seed, calls);
  }
}
