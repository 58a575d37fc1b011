/** RSA operations through the key caches, against the same operations without them. */
module RsaKeyCache {
  import opened Base
  import opened LruCache
  import opened RsaModulus

  const SIGN_MAX_DATA_SIZE := 64 * 1024 * 1024

  datatype HashAlg = Sha256 | Sha384 | Sha512

  datatype PrivateKey = PrivateKey(modulus: nat, secret: nat)
  datatype PublicKey = PublicKey(modulus: nat, exponent: nat)
  datatype Key = Private(privateKey: PrivateKey) | Public(publicKey: PublicKey)

  /** What an object handle stands for: PKCS#8 bytes of a private key, or the two big-endian
      components of a public one. */
  datatype Material = Der(der: seq<byte>) | Components(modulus: seq<byte>, exponent: seq<byte>)

  datatype Op =
    | Pkcs1Sign(data: seq<byte>, alg: Option<HashAlg>)
    | PssSign(data: seq<byte>, hash: HashAlg)
    | Pkcs1SignPrehashed(digest: seq<byte>, hash: HashAlg)
    | PssSignPrehashed(digest: seq<byte>, hash: HashAlg)
    | OaepDecrypt(data: seq<byte>, hash: HashAlg)
    | Pkcs1Verify(data: seq<byte>, signature: seq<byte>, alg: Option<HashAlg>)
    | PssVerify(data: seq<byte>, signature: seq<byte>, hash: HashAlg)
    | Pkcs1VerifyPrehashed(digest: seq<byte>, signature: seq<byte>, hash: HashAlg)
    | PssVerifyPrehashed(digest: seq<byte>, signature: seq<byte>, hash: HashAlg)
    | OaepEncrypt(data: seq<byte>, hash: HashAlg)

  datatype Answer = Bytes(bytes: seq<byte>) | Accepted(valid: bool)

  type Outcome = Result<Answer, HsmError>

  /** The RSA library. The last argument of an operation is what its random generator yields;
      the operation decides what becomes of a generator that fails. */
  datatype Library = Library(
    parsePrivate: seq<byte> -> Option<PrivateKey>,
    buildPublic: (nat, nat) -> Option<PublicKey>,
    withPrivate: (Op, PrivateKey, seq<byte>) -> Outcome,
    withPublic: (Op, PublicKey, seq<byte>) -> Outcome)

  predicate UsesPrivate(op: Op) {
    op.Pkcs1Sign? || op.PssSign? || op.Pkcs1SignPrehashed? || op.PssSignPrehashed? || op.OaepDecrypt?
  }

  function DigestLength(h: HashAlg): nat {
    match h
    case Sha256 => 32
    case Sha384 => 48
    case Sha512 => 64
  }

  function CheckData(data: seq<byte>): Result<(), HsmError> {
    if |data| > SIGN_MAX_DATA_SIZE then Err(DataLenRange) else Ok(())
  }

  function CheckDigest(digest: seq<byte>, h: HashAlg): Result<(), HsmError> {
    if |digest| != DigestLength(h) then Err(DataLenRange) else Ok(())
  }

  function CheckInput(op: Op): Result<(), HsmError> {
    match op
    case Pkcs1Sign(data, _) => CheckData(data)
    case PssSign(data, _) => CheckData(data)
    case Pkcs1Verify(data, _, _) => CheckData(data)
    case PssVerify(data, _, _) => CheckData(data)
    case Pkcs1SignPrehashed(digest, h) => CheckDigest(digest, h)
    case PssSignPrehashed(digest, h) => CheckDigest(digest, h)
    case Pkcs1VerifyPrehashed(digest, _, h) => CheckDigest(digest, h)
    case PssVerifyPrehashed(digest, _, h) => CheckDigest(digest, h)
    case OaepDecrypt(_, _) => Ok(())
    case OaepEncrypt(_, _) => Ok(())
  }

  /** The checks made before a key is fetched. */
  function Before(op: Op, m: Material): Result<(), HsmError> {
    var input := CheckInput(op);
    if input.Err? then input
    else if m.Components? then ValidatePublicKeySize(m.modulus)
    else Ok(())
  }

  function Build(lib: Library, m: Material): Option<Key> {
    match m
    case Der(der) => (match lib.parsePrivate(der) case None => None case Some(k) => Some(Private(k)))
    case Components(n, e) =>
      (match lib.buildPublic(BigEndian(n), BigEndian(e)) case None => None case Some(k) => Some(Public(k)))
  }

  /** The size check on a fetched private key, and the operation itself. */
  function After(lib: Library, op: Op, key: Key, randomness: seq<byte>): Outcome {
    match key
    case Private(k) =>
      if ValidatePrivateKeySize(k.modulus).Err? then Err(KeySizeRange)
      else if op.Pkcs1Sign? && op.alg.None? then Err(MechanismParamInvalid)
      else lib.withPrivate(op, k, randomness)
    case Public(k) =>
      if op.Pkcs1Verify? && op.alg.None? then Err(MechanismParamInvalid)
      else lib.withPublic(op, k, randomness)
  }

  /** An operation that parses or builds its key afresh. */
  function Uncached(lib: Library, op: Op, m: Material, randomness: seq<byte>): Outcome {
    match Before(op, m)
    case Err(e) => Err(e)
    case Ok(_) =>
      match Build(lib, m)
      case None => Err(KeyHandleInvalid)
      case Some(key) => After(lib, op, key, randomness)
  }

  // ---------------------------------------------------------------------------
  // Concurrent use of the handle caches
  // ---------------------------------------------------------------------------

  /** Slot and object handle. */
  datatype Handle = Handle(slot: nat, object: nat)

  datatype Call = Call(handle: Handle, material: Material, op: Op)

  /** A thread between the lookup and the insertion has missed; then it holds a key. */
  datatype Pc = Idle | Missed(call: Call) | Holding(call: Call, key: Key)

  datatype Done = Done(call: Call, randomness: seq<byte>, outcome: Outcome)

  datatype State = State(
    bound: map<Handle, Material>,
    privateCache: Slots<Handle, Key>,
    publicCache: Slots<Handle, Key>,
    threads: map<nat, Pc>,
    results: seq<Done>)

  datatype Action =
    | Bind(handle: Handle, material: Material)
    | Unbind(handle: Handle)
    | Start(thread: nat, call: Call)
    | BuildAndCache(thread: nat)
    | Finish(thread: nat, randomness: seq<byte>)
    | EvictPrivate(handle: Handle)
    | EvictPublic(handle: Handle)
    | ClearPrivate
    | ClearPublic

  const INITIAL := State(map[], [], [], map[], [])

  function PcOf(s: State, t: nat): Pc {
    if t in s.threads then s.threads[t] else Idle
  }

  function CacheOf(s: State, m: Material): Slots<Handle, Key> {
    if m.Der? then s.privateCache else s.publicCache
  }

  function WithCache(s: State, m: Material, slots: Slots<Handle, Key>): State {
    if m.Der? then s.(privateCache := slots) else s.(publicCache := slots)
  }

  function Goto(s: State, t: nat, pc: Pc): State {
    s.(threads := s.threads[t := pc])
  }

  predicate InFlight(s: State, h: Handle) {
    exists t | t in s.threads :: !s.threads[t].Idle? && s.threads[t].call.handle == h
  }

  /** One atomic step; impossible actions leave the state as it is. A call is made with the bytes its
      handle is bound to. A handle is given up only once it is evicted and no call on it is running. */
  function Next(lib: Library, s: State, a: Action): State {
    match a
    case Bind(h, m) => if h in s.bound then s else s.(bound := s.bound[h := m])
    case Unbind(h) =>
      if InFlight(s, h) || Contains(s.privateCache, h) || Contains(s.publicCache, h) then s
      else s.(bound := s.bound - {h})
    case Start(t, c) =>
      if !PcOf(s, t).Idle? || c.handle !in s.bound || s.bound[c.handle] != c.material
         || UsesPrivate(c.op) != c.material.Der? then s
      else (match Before(c.op, c.material)
            case Err(e) => s.(results := s.results + [Done(c, [], Err(e))])
            case Ok(_) =>
              var slots := CacheOf(s, c.material);
              var s' := WithCache(s, c.material, Promote(slots, c.handle));
              match Get(slots, c.handle)
              case Some(key) => Goto(s', t, Holding(c, key))
              case None => Goto(s', t, Missed(c)))
    case BuildAndCache(t) =>
      (match PcOf(s, t)
       case Missed(c) =>
         (match Build(lib, c.material)
          case None => Goto(s.(results := s.results + [Done(c, [], Err(KeyHandleInvalid))]), t, Idle)
          case Some(key) =>
            Goto(WithCache(s, c.material, Insert(CacheOf(s, c.material), c.handle, key)), t, Holding(c, key)))
       case _ => s)
    case Finish(t, randomness) =>
      (match PcOf(s, t)
       case Holding(c, key) =>
         Goto(s.(results := s.results + [Done(c, randomness, After(lib, c.op, key, randomness))]), t, Idle)
       case _ => s)
    case EvictPrivate(h) => s.(privateCache := Remove(s.privateCache, h))
    case EvictPublic(h) => s.(publicCache := Remove(s.publicCache, h))
    case ClearPrivate => s.(privateCache := [])
    case ClearPublic => s.(publicCache := [])
  }

  function Run(lib: Library, actions: seq<Action>): State {
    if actions == [] then INITIAL else Next(lib, Run(lib, actions[..|actions| - 1]), actions[|actions| - 1])
  }

  /** Every cached key is what its handle's bytes give. */
  ghost predicate SlotsOk(lib: Library, bound: map<Handle, Material>, slots: Slots<Handle, Key>) {
    forall x | x in slots :: x.key in bound && Build(lib, bound[x.key]) == Some(x.value)
  }

  ghost predicate PcOk(lib: Library, bound: map<Handle, Material>, pc: Pc) {
    && (!pc.Idle? ==>
          && pc.call.handle in bound && bound[pc.call.handle] == pc.call.material
          && UsesPrivate(pc.call.op) == pc.call.material.Der?
          && Before(pc.call.op, pc.call.material).Ok?)
    && (pc.Holding? ==> Build(lib, pc.call.material) == Some(pc.key))
  }

  ghost predicate Inv(lib: Library, s: State) {
    && SlotsOk(lib, s.bound, s.privateCache)
    && SlotsOk(lib, s.bound, s.publicCache)
    && (forall t | t in s.threads :: PcOk(lib, s.bound, s.threads[t]))
    && (forall d | d in s.results :: DoneOk(lib, d))
  }

  ghost predicate DoneOk(lib: Library, d: Done) {
    && d.outcome == Uncached(lib, d.call.op, d.call.material, d.randomness)
    && UsesPrivate(d.call.op) == d.call.material.Der?
  }

  lemma InsertedSlots<K, V>(m: Slots<K, V>, k: K, v: V)
    ensures forall x | x in Insert(m, k, v) :: x in m || x == Slot(k, v)
  {
  }

  lemma PromotedSlots<K, V>(m: Slots<K, V>, k: K)
    ensures forall x | x in Promote(m, k) :: x in m
    ensures forall x | x in Remove(m, k) :: x in m
    ensures Get(m, k).Some? ==> Slot(k, Get(m, k).value) in m
  {
  }

  lemma StartKeepsInv(lib: Library, s: State, t: nat, c: Call)
    requires Inv(lib, s)
    ensures Inv(lib, Next(lib, s, Start(t, c)))
  {
    PromotedSlots(CacheOf(s, c.material), c.handle);
  }

  lemma BuildKeepsInv(lib: Library, s: State, t: nat)
    requires Inv(lib, s)
    ensures Inv(lib, Next(lib, s, BuildAndCache(t)))
  {
    if PcOf(s, t).Missed? && Build(lib, PcOf(s, t).call.material).Some? {
      var c := PcOf(s, t).call;
      InsertedSlots(CacheOf(s, c.material), c.handle, Build(lib, c.material).value);
    }
  }

  lemma UnbindKeepsInv(lib: Library, s: State, h: Handle)
    requires Inv(lib, s)
    ensures Inv(lib, Next(lib, s, Unbind(h)))
  {
    hide Contains;
    if !InFlight(s, h) && !Contains(s.privateCache, h) && !Contains(s.publicCache, h) {
      AbsentKey(s.privateCache, h);
      AbsentKey(s.publicCache, h);
    }
  }

  lemma AbsentKey<K, V>(m: Slots<K, V>, k: K)
    requires !Contains(m, k)
    ensures forall x | x in m :: x.key != k
  {
  }

  lemma NextKeepsInv(lib: Library, s: State, a: Action)
    requires Inv(lib, s)
    ensures Inv(lib, Next(lib, s, a))
  {
    match a {
      case Bind(h, m) =>
      case Unbind(h) => UnbindKeepsInv(lib, s, h);
      case Start(t, c) => StartKeepsInv(lib, s, t, c);
      case BuildAndCache(t) => BuildKeepsInv(lib, s, t);
      case Finish(t, randomness) =>
      case EvictPrivate(h) => PromotedSlots(s.privateCache, h);
      case EvictPublic(h) => PromotedSlots(s.publicCache, h);
      case ClearPrivate =>
      case ClearPublic =>
    }
  }

  /** In every interleaving of cached operations, evictions and clears, with handles rebound only
      after eviction and with no operation on them running, each operation returns what its
      uncached form returns on the same arguments and randomness, errors included. */
  lemma {:induction false} CachedEqualsUncached(lib: Library, actions: seq<Action>)
    ensures Inv(lib, Run(lib, actions))
    ensures forall d | d in Run(lib, actions).results ::
              d.outcome == Uncached(lib, d.call.op, d.call.material, d.randomness)
  {
    if actions != [] {
      CachedEqualsUncached(lib, actions[..|actions| - 1]);
      NextKeepsInv(lib, Run(lib, actions[..|actions| - 1]), actions[|actions| - 1]);
    }
  }

  // ---------------------------------------------------------------------------
  // Which calls are refused, and with what
  // ---------------------------------------------------------------------------

  /** Data to be hashed is over 64 MiB. */
  predicate TooMuchData(op: Op) {
    (op.Pkcs1Sign? || op.PssSign? || op.Pkcs1Verify? || op.PssVerify?) && |op.data| > 67_108_864
  }

  predicate Prehashed(op: Op) {
    op.Pkcs1SignPrehashed? || op.PssSignPrehashed? || op.Pkcs1VerifyPrehashed? || op.PssVerifyPrehashed?
  }

  /** A digest does not have the 32, 48 or 64 bytes of its hash function. */
  predicate WrongDigest(op: Op) {
    && Prehashed(op)
    && !(op.hash.Sha256? && |op.digest| == 32)
    && !(op.hash.Sha384? && |op.digest| == 48)
    && !(op.hash.Sha512? && |op.digest| == 64)
  }

  predicate NoHash(op: Op) {
    (op.Pkcs1Sign? || op.Pkcs1Verify?) && op.alg.None?
  }

  lemma InputChecked(op: Op)
    ensures CheckInput(op) == if TooMuchData(op) || WrongDigest(op) then Err(DataLenRange) else Ok(())
  {
  }

  lemma SmallPrivate(n: nat)
    ensures ValidatePrivateKeySize(n).Err? <==> n < Pow2(2047)
  {
    BitLengthAtLeast(n, 2047);
  }

  /** Every private-key call, whether its key came from the cache or not: which error it returns, and
      otherwise that it returns what the library makes of the key parsed from the call's own bytes. */
  lemma PrivateOutcomes(lib: Library, actions: seq<Action>, d: Done)
    requires d in Run(lib, actions).results && d.call.material.Der?
    ensures var op, parsed := d.call.op, lib.parsePrivate(d.call.material.der);
            && UsesPrivate(op)
            && d.outcome == if TooMuchData(op) || WrongDigest(op) then Err(DataLenRange)
                            else if parsed.None? then Err(KeyHandleInvalid)
                            else if parsed.value.modulus < Pow2(2047) then Err(KeySizeRange)
                            else if NoHash(op) then Err(MechanismParamInvalid)
                            else lib.withPrivate(op, parsed.value, d.randomness)
  {
    hide CheckInput, ValidatePrivateKeySize, Pow2, Run;
    CachedEqualsUncached(lib, actions);
    InputChecked(d.call.op);
    var parsed := lib.parsePrivate(d.call.material.der);
    if parsed.Some? {
      SmallPrivate(parsed.value.modulus);
    }
  }

  /** Likewise every public-key call, with the key built from the call's own components. */
  lemma PublicOutcomes(lib: Library, actions: seq<Action>, d: Done)
    requires d in Run(lib, actions).results && d.call.material.Components?
    ensures var op, m := d.call.op, d.call.material;
            var built := lib.buildPublic(BigEndian(m.modulus), BigEndian(m.exponent));
            && !UsesPrivate(op)
            && d.outcome == if TooMuchData(op) || WrongDigest(op) then Err(DataLenRange)
                            else if BigEndian(m.modulus) < Pow2(2047) then Err(KeySizeRange)
                            else if built.None? then Err(KeyHandleInvalid)
                            else if NoHash(op) then Err(MechanismParamInvalid)
                            else lib.withPublic(op, built.value, d.randomness)
  {
    hide CheckInput, ValidatePublicKeySize, Pow2, BigEndian, Run;
    CachedEqualsUncached(lib, actions);
    InputChecked(d.call.op);
    SizeChecksAgree(d.call.material.modulus);
  }

  /** No call succeeds with a modulus under 2048 bits, with over 64 MiB of data to hash or with a digest
      of the wrong length. */
  lemma SuccessNeedsLargeKey(lib: Library, actions: seq<Action>, d: Done)
    requires d in Run(lib, actions).results && d.outcome.Ok?
    ensures var m := d.call.material;
            && !TooMuchData(d.call.op) && !WrongDigest(d.call.op) && !NoHash(d.call.op)
            && (m.Der? ==> var k := lib.parsePrivate(m.der);
                           && k.Some? && k.value.modulus >= Pow2(2047)
                           && d.outcome == lib.withPrivate(d.call.op, k.value, d.randomness))
            && (m.Components? ==> var k := lib.buildPublic(BigEndian(m.modulus), BigEndian(m.exponent));
                                  && k.Some? && BigEndian(m.modulus) >= Pow2(2047)
                                  && d.outcome == lib.withPublic(d.call.op, k.value, d.randomness))
  {
    hide *;
    if d.call.material.Der? {
      PrivateOutcomes(lib, actions, d);
    } else {
      PublicOutcomes(lib, actions, d);
    }
  }

  // ---------------------------------------------------------------------------
  // Every call is answered once
  // ---------------------------------------------------------------------------

  predicate Begins(s: State, a: Action) {
    && a.Start? && PcOf(s, a.thread).Idle?
    && a.call.handle in s.bound && s.bound[a.call.handle] == a.call.material
    && UsesPrivate(a.call.op) == a.call.material.Der?
  }

  /** The calls begun in a run. */
  function Begun(lib: Library, actions: seq<Action>): nat {
    if actions == [] then 0
    else
      var n := |actions| - 1;
      Begun(lib, actions[..n]) + if Begins(Run(lib, actions[..n]), actions[n]) then 1 else 0
  }

  ghost function Busy(threads: map<nat, Pc>): set<nat> {
    set t | t in threads && !threads[t].Idle?
  }

  lemma BusyMoves(threads: map<nat, Pc>, t: nat, pc: Pc)
    ensures |Busy(threads[t := pc])| + (if t in threads && !threads[t].Idle? then 1 else 0)
            == |Busy(threads)| + if pc.Idle? then 0 else 1
  {
    var before, after := Busy(threads), Busy(threads[t := pc]);
    if pc.Idle? {
      assert after == before - {t};
    } else {
      assert after == before + {t};
    }
  }

  /** A step leaves the threads alone or moves its own; an answer comes with going idle, or at once. */
  lemma NextMoves(lib: Library, s: State, a: Action)
    ensures var s' := Next(lib, s, a);
            var moves := a.Start? || a.BuildAndCache? || a.Finish?;
            && (s'.threads == s.threads || (moves && s'.threads == s.threads[a.thread := PcOf(s', a.thread)]))
            && |s'.results| + (if moves && !PcOf(s', a.thread).Idle? then 1 else 0)
               == |s.results| + (if moves && !PcOf(s, a.thread).Idle? then 1 else 0) + (if Begins(s, a) then 1 else 0)
  {
    hide Before, Build, After, Promote, Insert, Get, Remove, Contains, InFlight;
  }

  lemma NextAnswers(lib: Library, s: State, a: Action)
    ensures var s' := Next(lib, s, a);
            |s'.results| + |Busy(s'.threads)|
            == |s.results| + |Busy(s.threads)| + if Begins(s, a) then 1 else 0
  {
    hide Next, Begins, Busy;
    NextMoves(lib, s, a);
    if a.Start? || a.BuildAndCache? || a.Finish? {
      BusyMoves(s.threads, a.thread, PcOf(Next(lib, s, a), a.thread));
    }
  }

  /** In every run each call begun has been answered exactly once or is still being worked on. */
  lemma {:induction false} CallsAnswered(lib: Library, actions: seq<Action>)
    ensures Begun(lib, actions) == |Run(lib, actions).results| + |Busy(Run(lib, actions).threads)|
  {
    if actions == [] {
      assert Busy(map[]) == {};
    } else {
      hide Next, Begins, Busy;
      var n := |actions| - 1;
      CallsAnswered(lib, actions[..n]);
      NextAnswers(lib, Run(lib, actions[..n]), actions[n]);
    }
  }

  /** A call in progress is answered within two more steps of its own thread. */
  lemma CallFinishes(lib: Library, s: State, t: nat, randomness: seq<byte>)
    requires !PcOf(s, t).Idle?
    ensures var s' := Next(lib, Next(lib, s, BuildAndCache(t)), Finish(t, randomness));
            && PcOf(s', t).Idle? && |s'.results| == |s.results| + 1
            && s'.results[|s.results|].call == PcOf(s, t).call
  {
    hide Build, After, Insert;
  }

  // ---------------------------------------------------------------------------
  // The handle caches as bounded maps
  // ---------------------------------------------------------------------------

  function Cache(s: State, private: bool): Slots<Handle, Key> {
    if private then s.privateCache else s.publicCache
  }

  /** What an action does to one of the two caches: a call whose arguments pass looks its handle up; a
      miss whose key can be built puts it in. */
  function CacheOp(lib: Library, s: State, a: Action, private: bool): seq<LruCache.Op<Handle, Key>> {
    match a
    case Start(t, c) =>
      if Begins(s, a) && Before(c.op, c.material).Ok? && c.material.Der? == private then [Lookup(c.handle)] else []
    case BuildAndCache(t) =>
      var pc := PcOf(s, t);
      if pc.Missed? && pc.call.material.Der? == private && Build(lib, pc.call.material).Some?
      then [Put(pc.call.handle, Build(lib, pc.call.material).value)]
      else []
    case EvictPrivate(h) => if private then [Drop(h)] else []
    case EvictPublic(h) => if private then [] else [Drop(h)]
    case ClearPrivate => if private then [Clear] else []
    case ClearPublic => if private then [] else [Clear]
    case _ => []
  }

  function CacheOps(lib: Library, actions: seq<Action>, private: bool): seq<LruCache.Op<Handle, Key>> {
    if actions == [] then []
    else
      var n := |actions| - 1;
      CacheOps(lib, actions[..n], private) + CacheOp(lib, Run(lib, actions[..n]), actions[n], private)
  }

  lemma NextIsCacheOp(lib: Library, s: State, a: Action, private: bool)
    ensures var ops, slots := CacheOp(lib, s, a, private), Cache(s, private);
            && |ops| <= 1
            && Cache(Next(lib, s, a), private)
               == if ops == [] then slots else Apply(Use(slots, []), ops[0]).slots
  {
    hide Before, Build, After, Promote, Insert, Get, Remove, Contains;
  }

  lemma ApplySlots<K, V>(u: Use<K, V>, op: LruCache.Op<K, V>)
    ensures Apply(u, op).slots == Apply(Use(u.slots, []), op).slots
  {
    hide Promote, Insert, Remove, Contains;
  }

  /** In every interleaving each handle cache is a bounded map under its own lookups, insertions and
      evictions: at most 64 keys, no handle twice, in the order last used. */
  lemma {:induction false} CachesAreLru(lib: Library, actions: seq<Action>, private: bool)
    ensures var u := LruCache.Run(CacheOps(lib, actions, private));
            Cache(Run(lib, actions), private) == u.slots && Distinct(u.slots) && |u.slots| <= 64 && InTouchOrder(u)
  {
    if actions != [] {
      hide Next, CacheOp, Apply, Distinct, InTouchOrder;
      var n := |actions| - 1;
      CachesAreLru(lib, actions[..n], private);
      var s, before := Run(lib, actions[..n]), CacheOps(lib, actions[..n], private);
      var ops := CacheOp(lib, s, actions[n], private);
      NextIsCacheOp(lib, s, actions[n], private);
      if ops != [] {
        assert ops == [ops[0]] && (before + ops)[..|before|] == before;
        ApplySlots(LruCache.Run(before), ops[0]);
      } else {
        assert before + ops == before;
      }
    }
    RunKeepsOrder(CacheOps(lib, actions, private));
    OrderedIsDistinct(LruCache.Run(CacheOps(lib, actions, private)));
  }

  // ---------------------------------------------------------------------------
  // The content-hash cache
  // ---------------------------------------------------------------------------

  datatype Digest = Digest(bytes: seq<byte>)

  datatype Parsed = Parsed(der: seq<byte>, outcome: Result<PrivateKey, HsmError>)

  /** A thread in `parsing` has missed and is parsing these bytes outside the lock. */
  datatype ContentState = ContentState(
    slots: Slots<Digest, PrivateKey>,
    parsing: map<nat, seq<byte>>,
    results: seq<Parsed>)

  datatype ContentAction = Look(thread: nat, der: seq<byte>) | ParseAndCache(thread: nat) | ClearAll

  function PlainParse(lib: Library, der: seq<byte>): Result<PrivateKey, HsmError> {
    match lib.parsePrivate(der)
    case None => Err(KeyHandleInvalid)
    case Some(k) => Ok(k)
  }

  function ContentNext(lib: Library, sha256: seq<byte> -> Digest, s: ContentState, a: ContentAction): ContentState {
    match a
    case Look(t, der) =>
      if t in s.parsing then s
      else (match Get(s.slots, sha256(der))
            case Some(k) =>
              s.(slots := Promote(s.slots, sha256(der)), results := s.results + [Parsed(der, Ok(k))])
            case None => s.(parsing := s.parsing[t := der]))
    case ParseAndCache(t) =>
      if t !in s.parsing then s
      else
        var der := s.parsing[t];
        var r := PlainParse(lib, der);
        s.(slots := if r.Ok? then Insert(s.slots, sha256(der), r.value) else s.slots,
           parsing := s.parsing - {t},
           results := s.results + [Parsed(der, r)])
    case ClearAll => s.(slots := [])
  }

  function ContentRun(lib: Library, sha256: seq<byte> -> Digest, actions: seq<ContentAction>): ContentState {
    if actions == [] then ContentState([], map[], [])
    else ContentNext(lib, sha256, ContentRun(lib, sha256, actions[..|actions| - 1]), actions[|actions| - 1])
  }

  /** The byte strings looked up in a run. */
  ghost function DersOf(actions: seq<ContentAction>): set<seq<byte>> {
    set a | a in actions && a.Look? :: a.der
  }

  ghost predicate NoCollision(sha256: seq<byte> -> Digest, ders: set<seq<byte>>) {
    forall x, y | x in ders && y in ders && sha256(x) == sha256(y) :: x == y
  }

  ghost predicate ContentInv(lib: Library, sha256: seq<byte> -> Digest, ders: set<seq<byte>>, s: ContentState) {
    && (forall x | x in s.slots ::
          exists der :: der in ders && sha256(der) == x.key && PlainParse(lib, der) == Ok(x.value))
    && (forall t | t in s.parsing :: s.parsing[t] in ders)
    && (forall r | r in s.results :: r.outcome == PlainParse(lib, r.der))
  }

  lemma LookKeepsInv(
    lib: Library, sha256: seq<byte> -> Digest, ders: set<seq<byte>>, s: ContentState, t: nat, der: seq<byte>)
    requires ContentInv(lib, sha256, ders, s) && NoCollision(sha256, ders) && der in ders
    ensures ContentInv(lib, sha256, ders, ContentNext(lib, sha256, s, Look(t, der)))
  {
    hide Contains, IndexOf, Promote, Get;
    PromotedSlots(s.slots, sha256(der));
    if t !in s.parsing && Get(s.slots, sha256(der)).Some? {
      var x := Slot(sha256(der), Get(s.slots, sha256(der)).value);
      assert x in s.slots;
      var y :| y in ders && sha256(y) == x.key && PlainParse(lib, y) == Ok(x.value);
    }
  }

  lemma ParseKeepsInv(lib: Library, sha256: seq<byte> -> Digest, ders: set<seq<byte>>, s: ContentState, t: nat)
    requires ContentInv(lib, sha256, ders, s)
    ensures ContentInv(lib, sha256, ders, ContentNext(lib, sha256, s, ParseAndCache(t)))
  {
    hide Contains, IndexOf, Insert;
    if t in s.parsing && PlainParse(lib, s.parsing[t]).Ok? {
      InsertedSlots(s.slots, sha256(s.parsing[t]), PlainParse(lib, s.parsing[t]).value);
    }
  }

  lemma {:induction false} ContentRunKeepsInv(
    lib: Library, sha256: seq<byte> -> Digest, actions: seq<ContentAction>, ders: set<seq<byte>>)
    requires DersOf(actions) <= ders && NoCollision(sha256, ders)
    ensures ContentInv(lib, sha256, ders, ContentRun(lib, sha256, actions))
  {
    if actions != [] {
      var n := |actions| - 1;
      assert forall a | a in actions[..n] :: a in actions;
      ContentRunKeepsInv(lib, sha256, actions[..n], ders);
      var s := ContentRun(lib, sha256, actions[..n]);
      match actions[n] {
        case Look(t, der) =>
          assert der in DersOf(actions);
          LookKeepsInv(lib, sha256, ders, s, t, der);
        case ParseAndCache(t) => ParseKeepsInv(lib, sha256, ders, s, t);
        case ClearAll =>
      }
    }
  }

  /** As long as SHA-256 does not collide on the byte strings looked up, the content-hash cache
      returns what plain parsing returns, in every interleaving. */
  lemma ContentCacheEqualsParsing(lib: Library, sha256: seq<byte> -> Digest, actions: seq<ContentAction>)
    requires NoCollision(sha256, DersOf(actions))
    ensures forall r | r in ContentRun(lib, sha256, actions).results :: r.outcome == PlainParse(lib, r.der)
  {
    ContentRunKeepsInv(lib, sha256, actions, DersOf(actions));
  }

  /** The lookups begun in a run. */
  function LooksBegun(lib: Library, sha256: seq<byte> -> Digest, actions: seq<ContentAction>): nat {
    if actions == [] then 0
    else
      var n := |actions| - 1;
      LooksBegun(lib, sha256, actions[..n])
      + if actions[n].Look? && actions[n].thread !in ContentRun(lib, sha256, actions[..n]).parsing then 1 else 0
  }

  lemma ContentNextAnswers(lib: Library, sha256: seq<byte> -> Digest, s: ContentState, a: ContentAction)
    ensures var s' := ContentNext(lib, sha256, s, a);
            |s'.results| + |s'.parsing|
            == |s.results| + |s.parsing| + if a.Look? && a.thread !in s.parsing then 1 else 0
  {
    hide Promote, Insert, Get;
    if !a.ClearAll? {
      var t := a.thread;
      assert (s.parsing - {t}).Keys == s.parsing.Keys - {t};
      assert a.Look? ==> s.parsing[t := a.der].Keys == s.parsing.Keys + {t};
    }
  }

  /** In every run each lookup begun has been answered exactly once or is still parsing. */
  lemma {:induction false} LooksAnswered(lib: Library, sha256: seq<byte> -> Digest, actions: seq<ContentAction>)
    ensures var s := ContentRun(lib, sha256, actions);
            LooksBegun(lib, sha256, actions) == |s.results| + |s.parsing|
  {
    if actions != [] {
      hide ContentNext;
      var n := |actions| - 1;
      LooksAnswered(lib, sha256, actions[..n]);
      ContentNextAnswers(lib, sha256, ContentRun(lib, sha256, actions[..n]), actions[n]);
    }
  }

  // ---------------------------------------------------------------------------
  // The uncached operations as the program has them
  // ---------------------------------------------------------------------------

  /** An operation without the handle cache, given what the content-hash cache made of its key. A public
      key is always built afresh. */
  function WithParsed(
    lib: Library, op: Op, m: Material, parsed: Result<PrivateKey, HsmError>, randomness: seq<byte>): Outcome
  {
    match Before(op, m)
    case Err(e) => Err(e)
    case Ok(_) =>
      if m.Components? then Uncached(lib, op, m, randomness)
      else match parsed
        case Err(e) => Err(e)
        case Ok(k) => After(lib, op, Private(k), randomness)
  }

  /** Whatever the two runs, a call through the handle cache and the same call through the
      content-hash cache return the same. */
  lemma HandleCacheEqualsContentCache(
    lib: Library, sha256: seq<byte> -> Digest, actions: seq<Action>, lookups: seq<ContentAction>, d: Done, p: Parsed)
    requires NoCollision(sha256, DersOf(lookups))
    requires d in Run(lib, actions).results && p in ContentRun(lib, sha256, lookups).results
    requires d.call.material.Der? ==> d.call.material.der == p.der
    ensures d.outcome == WithParsed(lib, d.call.op, d.call.material, p.outcome, d.randomness)
  {
    hide Before, After;
    CachedEqualsUncached(lib, actions);
    ContentCacheEqualsParsing(lib, sha256, lookups);
  }
}
