/** Detection of repeated initialisation vectors for AES-CBC and AES-CTR, shared by both modes. */
module IvTracker {
  import opened Base

  const MAX_TRACKED_IVS_PER_KEY := 100_000
  const MAX_TRACKED_KEYS := 10_000
  const MAX_PLAINTEXT := 256 * 1024 * 1024

  datatype KeyHash = KeyHash(digest: seq<byte>)
  datatype Iv = Iv(bytes: seq<byte>)

  /** IVs accepted so far, per SHA-256 of the key. */
  type Tracker = map<KeyHash, set<Iv>>

  datatype Verdict = Verdict(tracker: Tracker, result: Result<(), HsmError>)

  function Tracked(t: Tracker, k: KeyHash): set<Iv> {
    if k in t then t[k] else {}
  }

  function CheckIv(t: Tracker, k: KeyHash, iv: Iv): Verdict {
    if k !in t && |t| >= MAX_TRACKED_KEYS then Verdict(t, Err(GeneralError))
    else if iv in Tracked(t, k) then Verdict(t, Err(MechanismParamInvalid))
    else if |Tracked(t, k)| >= MAX_TRACKED_IVS_PER_KEY then Verdict(t, Err(GeneralError))
    else Verdict(t[k := Tracked(t, k) + {iv}], Ok(()))
  }

  predicate AesKeyLength(n: nat) {
    n == 16 || n == 24 || n == 32
  }

  predicate AllZero(iv: seq<byte>) {
    forall i | 0 <= i < |iv| :: iv[i] == 0
  }

  /** The argument checks both modes make first. */
  function CheckArguments(iv: seq<byte>, plaintextLength: nat): Result<(), HsmError> {
    if plaintextLength > MAX_PLAINTEXT then Err(DataLenRange)
    else if |iv| != 16 then Err(MechanismParamInvalid)
    else if AllZero(iv) then Err(MechanismParamInvalid)
    else Ok(())
  }

  datatype Mode = Cbc | Ctr

  /** CTR checks the key length before the IV, CBC only after it. */
  function Encrypt(sha256: seq<byte> -> KeyHash, t: Tracker, mode: Mode, key: seq<byte>, iv: seq<byte>, length: nat)
    : Verdict
  {
    var arguments := CheckArguments(iv, length);
    if arguments.Err? then Verdict(t, arguments)
    else if mode.Ctr? && !AesKeyLength(|key|) then Verdict(t, Err(KeySizeRange))
    else
      var v := CheckIv(t, sha256(key), Iv(iv));
      if v.result.Ok? && !AesKeyLength(|key|) then Verdict(v.tracker, Err(KeySizeRange)) else v
  }

  class Cipher {
    const sha256: seq<byte> -> KeyHash
    var tracker: Tracker

    constructor (sha256: seq<byte> -> KeyHash)
      ensures this.sha256 == sha256 && tracker == map[]
    {
      this.sha256 := sha256;
      this.tracker := map[];
    }

    method CheckIvReuse(key: seq<byte>, iv: Iv) returns (r: Result<(), HsmError>)
      modifies this
      ensures Verdict(tracker, r) == CheckIv(old(tracker), sha256(key), iv)
    {
      var k := sha256(key);
      if k !in tracker && |tracker| >= MAX_TRACKED_KEYS {
        return Err(GeneralError);
      }
      if k !in tracker {
        tracker := tracker[k := {}];
      }
      var ivs := tracker[k];
      if iv in ivs {
        return Err(MechanismParamInvalid);
      }
      if |ivs| >= MAX_TRACKED_IVS_PER_KEY {
        return Err(GeneralError);
      }
      tracker := tracker[k := ivs + {iv}];
      return Ok(());
    }

    method AesCbcEncrypt(key: seq<byte>, iv: seq<byte>, length: nat) returns (r: Result<(), HsmError>)
      modifies this
      ensures Verdict(tracker, r) == Encrypt(sha256, old(tracker), Cbc, key, iv, length)
    {
      r := CheckArguments(iv, length);
      if r.Err? {
        return;
      }
      r := CheckIvReuse(key, Iv(iv));
      if r.Err? {
        return;
      }
      if !AesKeyLength(|key|) {
        r := Err(KeySizeRange);
      }
    }

    method AesCtrEncrypt(key: seq<byte>, iv: seq<byte>, length: nat) returns (r: Result<(), HsmError>)
      modifies this
      ensures Verdict(tracker, r) == Encrypt(sha256, old(tracker), Ctr, key, iv, length)
    {
      r := CheckArguments(iv, length);
      if r.Err? {
        return;
      }
      if !AesKeyLength(|key|) {
        return Err(KeySizeRange);
      }
      r := CheckIvReuse(key, Iv(iv));
    }

    method RemoveKey(key: seq<byte>)
      modifies this
      ensures tracker == old(tracker) - {sha256(key)}
    {
      tracker := tracker - {sha256(key)};
    }

    method ResetIvTrackers()
      modifies this
      ensures tracker == map[]
    {
      tracker := map[];
    }
  }

  // ---------------------------------------------------------------------------
  // Runs
  // ---------------------------------------------------------------------------

  datatype Op = Encryption(mode: Mode, key: seq<byte>, iv: seq<byte>, length: nat) | KeyRemoval(key: seq<byte>) | Reset

  function StepOp(sha256: seq<byte> -> KeyHash, t: Tracker, op: Op): Verdict {
    match op
    case Encryption(mode, key, iv, length) => Encrypt(sha256, t, mode, key, iv, length)
    case KeyRemoval(key) => Verdict(t - {sha256(key)}, Ok(()))
    case Reset => Verdict(map[], Ok(()))
  }

  function TrackerAfter(sha256: seq<byte> -> KeyHash, ops: seq<Op>): Tracker {
    if ops == [] then map[]
    else StepOp(sha256, TrackerAfter(sha256, ops[..|ops| - 1]), ops[|ops| - 1]).tracker
  }

  /** Operation i of the run is an encryption that is carried out. */
  predicate Accepted(sha256: seq<byte> -> KeyHash, ops: seq<Op>, i: nat)
    requires i < |ops|
  {
    ops[i].Encryption? && StepOp(sha256, TrackerAfter(sha256, ops[..i]), ops[i]).result.Ok?
  }

  /** The operation forgets the IVs of the key with hash k. */
  predicate Forgets(sha256: seq<byte> -> KeyHash, op: Op, k: KeyHash) {
    op.Reset? || (op.KeyRemoval? && sha256(op.key) == k)
  }

  lemma StepTracks(sha256: seq<byte> -> KeyHash, t: Tracker, op: Op)
    requires op.Encryption? && StepOp(sha256, t, op).result.Ok?
    ensures Iv(op.iv) in Tracked(StepOp(sha256, t, op).tracker, sha256(op.key))
    ensures Iv(op.iv) !in Tracked(t, sha256(op.key))
  {
  }

  lemma StepKeepsTracked(sha256: seq<byte> -> KeyHash, t: Tracker, op: Op, k: KeyHash, iv: Iv)
    requires iv in Tracked(t, k) && !Forgets(sha256, op, k)
    ensures iv in Tracked(StepOp(sha256, t, op).tracker, k)
  {
  }

  lemma {:induction false} IvStaysTracked(sha256: seq<byte> -> KeyHash, ops: seq<Op>, i: nat, k: KeyHash, iv: Iv)
    requires i <= |ops| && iv in Tracked(TrackerAfter(sha256, ops[..i]), k)
    requires forall j | i <= j < |ops| :: !Forgets(sha256, ops[j], k)
    ensures iv in Tracked(TrackerAfter(sha256, ops), k)
  {
    hide StepOp;
    if i < |ops| {
      var n := |ops| - 1;
      assert ops[..n][..i] == ops[..i];
      IvStaysTracked(sha256, ops[..n], i, k, iv);
      StepKeepsTracked(sha256, TrackerAfter(sha256, ops[..n]), ops[n], k, iv);
    } else {
      assert ops[..i] == ops;
    }
  }

  /** No (key, IV) pair is accepted twice, in whatever modes, unless in between the key is removed
      or the trackers are reset. */
  lemma IvNeverAcceptedTwice(sha256: seq<byte> -> KeyHash, ops: seq<Op>, i: nat, j: nat)
    requires i < j < |ops| && Accepted(sha256, ops, i) && Accepted(sha256, ops, j)
    requires ops[i].key == ops[j].key && ops[i].iv == ops[j].iv
    ensures exists m | i < m < j :: Forgets(sha256, ops[m], sha256(ops[i].key))
  {
    var k := sha256(ops[i].key);
    StepTracks(sha256, TrackerAfter(sha256, ops[..i]), ops[i]);
    StepTracks(sha256, TrackerAfter(sha256, ops[..j]), ops[j]);
    if forall m | i < m < j :: !Forgets(sha256, ops[m], k) {
      assert ops[..i + 1][..i] == ops[..i] && ops[..j][..i + 1] == ops[..i + 1];
      IvStaysTracked(sha256, ops[..j], i + 1, k, Iv(ops[i].iv));
    }
  }

  /** After a removal of its key or a reset, an encryption with good arguments is accepted whatever IVs
      were used before, exactly if there is room for one more key; no other key is touched by a removal. */
  lemma ForgottenKeyStartsOver(sha256: seq<byte> -> KeyHash, ops: seq<Op>, op: Op)
    requires ops != [] && op.Encryption? && Forgets(sha256, ops[|ops| - 1], sha256(op.key))
    requires CheckArguments(op.iv, op.length).Ok? && AesKeyLength(|op.key|)
    ensures Accepted(sha256, ops + [op], |ops|) <==> |TrackerAfter(sha256, ops)| < MAX_TRACKED_KEYS
    ensures forall k | ops[|ops| - 1].KeyRemoval? && k != sha256(op.key) ::
              Tracked(TrackerAfter(sha256, ops), k) == Tracked(TrackerAfter(sha256, ops[..|ops| - 1]), k)
  {
    assert (ops + [op])[..|ops|] == ops;
    assert Tracked(TrackerAfter(sha256, ops), sha256(op.key)) == {};
  }

  predicate Bounded(t: Tracker) {
    |t| <= MAX_TRACKED_KEYS && forall k | k in t :: |t[k]| <= MAX_TRACKED_IVS_PER_KEY
  }

  lemma GrowthKeepsBound(t: Tracker, k: KeyHash, ivs: set<Iv>)
    requires Bounded(t) && |ivs| <= MAX_TRACKED_IVS_PER_KEY && (k in t || |t| < MAX_TRACKED_KEYS)
    ensures Bounded(t[k := ivs])
  {
    assert t[k := ivs].Keys == t.Keys + {k};
    assert k in t ==> t.Keys + {k} == t.Keys;
  }

  lemma CheckKeepsBound(t: Tracker, k: KeyHash, iv: Iv)
    requires Bounded(t)
    ensures Bounded(CheckIv(t, k, iv).tracker)
  {
    if CheckIv(t, k, iv).result.Ok? {
      GrowthKeepsBound(t, k, Tracked(t, k) + {iv});
    }
  }

  lemma RemovalKeepsBound(t: Tracker, k: KeyHash)
    requires Bounded(t)
    ensures Bounded(t - {k})
  {
    SubsetSize((t - {k}).Keys, t.Keys);
  }

  /** At most 10,000 keys and 100,000 IVs per key are ever tracked. */
  lemma {:induction false} TrackerIsBounded(sha256: seq<byte> -> KeyHash, ops: seq<Op>)
    ensures Bounded(TrackerAfter(sha256, ops))
  {
    if ops != [] {
      var t := TrackerAfter(sha256, ops[..|ops| - 1]);
      TrackerIsBounded(sha256, ops[..|ops| - 1]);
      match ops[|ops| - 1] {
        case Encryption(mode, key, iv, length) => CheckKeepsBound(t, sha256(key), Iv(iv));
        case KeyRemoval(key) => RemovalKeepsBound(t, sha256(key));
        case Reset =>
      }
    }
  }

  /** A refused call leaves the tracker alone, with one exception: CBC with a key of the wrong length
      has the IV tracked before the key length is looked at. */
  lemma RefusalKeepsTracker(
    sha256: seq<byte> -> KeyHash, t: Tracker, mode: Mode, key: seq<byte>, iv: seq<byte>, length: nat)
    requires Encrypt(sha256, t, mode, key, iv, length).result.Err?
    ensures Encrypt(sha256, t, mode, key, iv, length).tracker == t
            <==> !(&& mode.Cbc? && !AesKeyLength(|key|)
                   && CheckArguments(iv, length).Ok? && CheckIv(t, sha256(key), Iv(iv)).result.Ok?)
  {
    var v := CheckIv(t, sha256(key), Iv(iv));
    if v.result.Ok? {
      assert Iv(iv) in Tracked(v.tracker, sha256(key)) && Iv(iv) !in Tracked(t, sha256(key));
    }
  }

  /** A concrete refused call that changes the tracker: CBC with an 8-byte key. */
  lemma CbcTracksBeforeRefusing(sha256: seq<byte> -> KeyHash)
    ensures var key, iv := seq(8, i => 0), seq(16, i => 1);
            var v := Encrypt(sha256, map[], Cbc, key, iv, 0);
            v.result == Err(KeySizeRange) && v.tracker == map[sha256(key) := {Iv(iv)}]
  {
    var iv: seq<byte> := seq(16, i => 1);
    assert iv[0] == 1;
  }

  /** Exactly which encryptions of a run are carried out: 16 IV bytes not all zero, at most 256 MiB, an
      AES key, an IV not tracked for it, and room for one more of both. */
  lemma AcceptedExactly(sha256: seq<byte> -> KeyHash, ops: seq<Op>, i: nat)
    requires i < |ops|
    ensures var t := TrackerAfter(sha256, ops[..i]);
            Accepted(sha256, ops, i) <==>
              && ops[i].Encryption?
              && |ops[i].iv| == 16 && (exists j | 0 <= j < 16 :: ops[i].iv[j] != 0)
              && ops[i].length <= 268_435_456
              && |ops[i].key| in {16, 24, 32}
              && (if sha256(ops[i].key) in t then Iv(ops[i].iv) !in t[sha256(ops[i].key)] else |t| < 10_000)
              && |Tracked(t, sha256(ops[i].key))| < 100_000
  {
  }

  /** Which refusal an encryption meets. */
  lemma RefusedWith(sha256: seq<byte> -> KeyHash, t: Tracker, mode: Mode, key: seq<byte>, iv: seq<byte>, length: nat)
    ensures var r, k := Encrypt(sha256, t, mode, key, iv, length).result, sha256(key);
            var badIv := |iv| != 16 || forall j | 0 <= j < 16 :: iv[j] == 0;
            var badKey := |key| !in {16, 24, 32};
            var noRoom := if k in t then Iv(iv) !in t[k] && |t[k]| >= 100_000 else |t| >= 10_000;
            var reused := k in t && Iv(iv) in t[k];
            && (r == Err(DataLenRange) <==> length > 268_435_456)
            && (r == Err(MechanismParamInvalid) <==>
                  length <= 268_435_456 && (badIv || (reused && (mode.Ctr? ==> !badKey))))
            && (r == Err(GeneralError) <==>
                  length <= 268_435_456 && !badIv && noRoom && (mode.Ctr? ==> !badKey))
            && (r == Err(KeySizeRange) <==>
                  length <= 268_435_456 && !badIv && badKey && (mode.Cbc? ==> !reused && !noRoom))
  {
    assert |key| in {16, 24, 32} <==> AesKeyLength(|key|);
  }
}
