/** Nonce allocation for AES-256-GCM: threads of both encrypt functions share one counter and
    one random prefix per key. Every interleaving of their atomic steps is a sequence of actions. */
module GcmNonce {
  import opened Base

  const GCM_MAX_ENCRYPTIONS := 0x8000_0000

  /** SHA-256 of the key. */
  type KeyId = seq<byte>

  type Prefix = p: seq<byte> | |p| == 4 witness [0, 0, 0, 0]

  /** Where a thread is. From Loading on it holds the key's counter entry, until it returns. */
  datatype Pc =
    | Idle
    | Loading(kid: KeyId)
    | Comparing(kid: KeyId, current: nat)
    | NeedPrefix(kid: KeyId, count: nat)

  /** A nonce given to the cipher. The epoch numbers the lives of the key's counter. */
  datatype Issue = Issue(kid: KeyId, epoch: nat, count: nat, nonce: seq<byte>)

  /** A count whose thread could not draw a prefix. */
  datatype Loss = Loss(kid: KeyId, epoch: nat, count: nat)

  datatype State = State(
    counters: map<KeyId, nat>,
    prefixes: map<KeyId, Prefix>,
    threads: map<nat, Pc>,
    // History: completed lives per counter, counts handed out per life, nonces used, counts lost.
    epochs: map<KeyId, nat>,
    handedOut: map<(KeyId, nat), seq<nat>>,
    issued: seq<Issue>,
    lost: seq<Loss>)

  datatype Action =
    | Enter(thread: nat, kid: KeyId)
    | Load(thread: nat)
    | CompareExchange(thread: nat)
    | TakePrefix(thread: nat, drawn: Option<Prefix>)
    | RemoveCounter(kid: KeyId)
    | RemovePrefix(kid: KeyId)
    | Reinitialise

  const INITIAL := State(map[], map[], map[], map[], map[], [], [])

  function PcOf(s: State, t: nat): Pc {
    if t in s.threads then s.threads[t] else Idle
  }

  function Epoch(s: State, kid: KeyId): nat {
    if kid in s.epochs then s.epochs[kid] else 0
  }

  function Counter(s: State, kid: KeyId): nat {
    if kid in s.counters then s.counters[kid] else 0
  }

  /** The counts handed out in one life of a key's counter, in order. */
  function Allocated(s: State, kid: KeyId, epoch: nat): seq<nat> {
    if (kid, epoch) in s.handedOut then s.handedOut[(kid, epoch)] else []
  }

  predicate Holds(pc: Pc, kid: KeyId) {
    !pc.Idle? && pc.kid == kid
  }

  /** 4 bytes of prefix, then the count as 8 big-endian bytes. */
  function Nonce(prefix: Prefix, count: nat): seq<byte> {
    prefix + ToBigEndian(count, 8)
  }

  function Goto(s: State, t: nat, pc: Pc): State {
    s.(threads := s.threads[t := pc])
  }

  /** One atomic step; an action that is not possible in s leaves s as it is. */
  function Next(s: State, a: Action): State {
    match a
    case Enter(t, kid) =>
      if !PcOf(s, t).Idle? then s
      else Goto(s.(counters := s.counters[kid := Counter(s, kid)]), t, Loading(kid))
    case Load(t) =>
      (match PcOf(s, t)
       case Loading(kid) =>
         if Counter(s, kid) >= GCM_MAX_ENCRYPTIONS then Goto(s, t, Idle)
         else Goto(s, t, Comparing(kid, Counter(s, kid)))
       case _ => s)
    case CompareExchange(t) =>
      (match PcOf(s, t)
       case Comparing(kid, current) =>
         if Counter(s, kid) != current then Goto(s, t, Loading(kid))
         else
           var life := (kid, Epoch(s, kid));
           Goto(s.(counters := s.counters[kid := current + 1],
                   handedOut := s.handedOut[life := Allocated(s, kid, life.1) + [current]]),
                t, NeedPrefix(kid, current))
       case _ => s)
    case TakePrefix(t, drawn) =>
      (match PcOf(s, t)
       case NeedPrefix(kid, count) =>
         if kid !in s.prefixes && drawn.None? then Goto(s.(lost := s.lost + [Loss(kid, Epoch(s, kid), count)]), t, Idle)
         else
           var prefix := if kid in s.prefixes then s.prefixes[kid] else drawn.value;
           Goto(s.(prefixes := s.prefixes[kid := prefix],
                   issued := s.issued + [Issue(kid, Epoch(s, kid), count, Nonce(prefix, count))]),
                t, Idle)
       case _ => s)
    case RemoveCounter(kid) =>
      if exists t | t in s.threads :: Holds(s.threads[t], kid) then s
      else s.(counters := s.counters - {kid}, epochs := s.epochs[kid := Epoch(s, kid) + 1])
    case RemovePrefix(kid) => s.(prefixes := s.prefixes - {kid})
    case Reinitialise => s
  }

  function Run(actions: seq<Action>): State {
    if actions == [] then INITIAL else Next(Run(actions[..|actions| - 1]), actions[|actions| - 1])
  }

  // ---------------------------------------------------------------------------
  // Invariant
  // ---------------------------------------------------------------------------

  function CountUp(n: nat): seq<nat> {
    seq(n, i => i)
  }

  /** Every count handed out belongs to one thread or one issued nonce, never to two. */
  ghost predicate ThreadsOk(s: State) {
    && (forall t: nat :: PcOf(s, t).Comparing? ==> PcOf(s, t).current <= Counter(s, PcOf(s, t).kid))
    && (forall t: nat :: PcOf(s, t).NeedPrefix? ==> PcOf(s, t).count < Counter(s, PcOf(s, t).kid))
    && (forall t: nat, u: nat :: t != u && PcOf(s, t).NeedPrefix? ==> PcOf(s, t) != PcOf(s, u))
    && (forall t: nat :: PcOf(s, t).Comparing? ==> PcOf(s, t).current < GCM_MAX_ENCRYPTIONS)
  }

  ghost predicate IssuedOk(s: State) {
    && (forall i | 0 <= i < |s.issued| ::
          && s.issued[i].epoch <= Epoch(s, s.issued[i].kid)
          && (s.issued[i].epoch == Epoch(s, s.issued[i].kid) ==> s.issued[i].count < Counter(s, s.issued[i].kid))
          && s.issued[i].count < GCM_MAX_ENCRYPTIONS
          && |s.issued[i].nonce| == 12 && s.issued[i].nonce[4..] == ToBigEndian(s.issued[i].count, 8))
    && (forall i, t: nat | 0 <= i < |s.issued| && s.issued[i].epoch == Epoch(s, s.issued[i].kid) ::
          PcOf(s, t) != NeedPrefix(s.issued[i].kid, s.issued[i].count))
    && (forall i, j | 0 <= i < j < |s.issued| ::
          s.issued[i].kid == s.issued[j].kid && s.issued[i].epoch == s.issued[j].epoch ==>
            s.issued[i].count != s.issued[j].count)
  }

  ghost predicate CountersOk(s: State) {
    && (forall kid :: Counter(s, kid) <= GCM_MAX_ENCRYPTIONS)
    && (forall kid :: Allocated(s, kid, Epoch(s, kid)) == CountUp(Counter(s, kid)))
    && (forall kid, epoch: nat :: epoch > Epoch(s, kid) ==> Allocated(s, kid, epoch) == [])
    && (forall kid, epoch: nat ::
          && Allocated(s, kid, epoch) == CountUp(|Allocated(s, kid, epoch)|)
          && |Allocated(s, kid, epoch)| <= GCM_MAX_ENCRYPTIONS)
  }

  ghost predicate WasIssued(s: State, kid: KeyId, epoch: nat, count: nat) {
    exists i | 0 <= i < |s.issued| :: s.issued[i].kid == kid && s.issued[i].epoch == epoch && s.issued[i].count == count
  }

  ghost predicate IsHeld(s: State, kid: KeyId, epoch: nat, count: nat) {
    epoch == Epoch(s, kid) && exists t: nat :: PcOf(s, t) == NeedPrefix(kid, count)
  }

  /** A count was used, is about to be, or is lost. */
  ghost predicate Accounted(s: State, kid: KeyId, epoch: nat, count: nat) {
    WasIssued(s, kid, epoch, count) || IsHeld(s, kid, epoch, count) || Loss(kid, epoch, count) in s.lost
  }

  /** What was handed out and what was used agree. */
  ghost predicate LedgerOk(s: State) {
    && (forall i | 0 <= i < |s.issued| :: s.issued[i].count < |Allocated(s, s.issued[i].kid, s.issued[i].epoch)|)
    && (forall kid, epoch: nat, count: nat | count < |Allocated(s, kid, epoch)| :: Accounted(s, kid, epoch, count))
  }

  ghost predicate Inv(s: State) {
    CountersOk(s) && ThreadsOk(s) && IssuedOk(s)
  }

  // ---------------------------------------------------------------------------
  // The kinds of step, seen through the accessors
  // ---------------------------------------------------------------------------

  ghost predicate SameThreadsBut(s: State, s': State, t: nat) {
    forall u: nat :: u != t ==> PcOf(s', u) == PcOf(s, u)
  }

  ghost predicate SameBooks(s: State, s': State) {
    && (forall kid :: Counter(s', kid) == Counter(s, kid))
    && (forall kid :: Epoch(s', kid) == Epoch(s, kid))
    && (forall kid, epoch: nat :: Allocated(s', kid, epoch) == Allocated(s, kid, epoch))
  }

  /** A thread moves without touching the counts. */
  ghost predicate Moves(s: State, s': State, t: nat) {
    && SameThreadsBut(s, s', t) && SameBooks(s, s') && s'.issued == s.issued
    && (|| PcOf(s', t) == PcOf(s, t)
        || PcOf(s', t).Idle?
        || PcOf(s', t).Loading?
        || (PcOf(s', t).Comparing? && PcOf(s', t).current == Counter(s, PcOf(s', t).kid) < GCM_MAX_ENCRYPTIONS))
  }

  /** A compare-exchange succeeds. */
  ghost predicate Allocates(s: State, s': State, t: nat, kid: KeyId) {
    && SameThreadsBut(s, s', t) && s'.issued == s.issued
    && PcOf(s, t) == Comparing(kid, Counter(s, kid)) && PcOf(s', t) == NeedPrefix(kid, Counter(s, kid))
    && (forall k :: Epoch(s', k) == Epoch(s, k))
    && (forall k :: Counter(s', k) == Counter(s, k) + if k == kid then 1 else 0)
    && (forall k, e: nat ::
          Allocated(s', k, e)
          == Allocated(s, k, e) + if k == kid && e == Epoch(s, kid) then [Counter(s, kid)] else [])
  }

  /** A thread uses the count it holds. */
  ghost predicate Issues(s: State, s': State, t: nat, kid: KeyId, count: nat, prefix: Prefix) {
    && SameThreadsBut(s, s', t) && SameBooks(s, s')
    && PcOf(s, t) == NeedPrefix(kid, count) && PcOf(s', t) == Idle
    && s'.issued == s.issued + [Issue(kid, Epoch(s, kid), count, Nonce(prefix, count))]
  }

  /** A counter nobody holds is removed. */
  ghost predicate Drops(s: State, s': State, kid: KeyId) {
    && (forall t: nat :: PcOf(s', t) == PcOf(s, t) && !Holds(PcOf(s, t), kid))
    && s'.issued == s.issued
    && (forall k, e: nat :: Allocated(s', k, e) == Allocated(s, k, e))
    && (forall k :: Counter(s', k) == if k == kid then 0 else Counter(s, k))
    && (forall k :: Epoch(s', k) == if k == kid then Epoch(s, k) + 1 else Epoch(s, k))
  }

  lemma EnterMoves(s: State, t: nat, kid: KeyId)
    ensures Moves(s, Next(s, Enter(t, kid)), t)
  {
  }

  lemma LoadMoves(s: State, t: nat)
    ensures Moves(s, Next(s, Load(t)), t)
  {
  }

  lemma CasMovesOrAllocates(s: State, t: nat)
    ensures Moves(s, Next(s, CompareExchange(t)), t)
            || (PcOf(s, t).Comparing? && Allocates(s, Next(s, CompareExchange(t)), t, PcOf(s, t).kid))
  {
  }

  lemma PrefixMovesOrIssues(s: State, t: nat, drawn: Option<Prefix>) returns (prefix: Prefix)
    ensures Moves(s, Next(s, TakePrefix(t, drawn)), t)
            || (PcOf(s, t).NeedPrefix?
                && Issues(s, Next(s, TakePrefix(t, drawn)), t, PcOf(s, t).kid, PcOf(s, t).count, prefix))
  {
    prefix := if PcOf(s, t).NeedPrefix? && PcOf(s, t).kid in s.prefixes then s.prefixes[PcOf(s, t).kid]
              else if drawn.Some? then drawn.value else [0, 0, 0, 0];
  }

  lemma RemoveStaysOrDrops(s: State, kid: KeyId)
    ensures Next(s, RemoveCounter(kid)) == s || Drops(s, Next(s, RemoveCounter(kid)), kid)
  {
  }

  lemma NextKeepsInv(s: State, a: Action)
    requires Inv(s)
    ensures Inv(Next(s, a))
  {
    var s' := Next(s, a);
    match a {
      case Enter(t, kid) =>
        EnterMoves(s, t, kid);
        MoveKeepsInv(s, s', t);
      case Load(t) =>
        LoadMoves(s, t);
        MoveKeepsInv(s, s', t);
      case CompareExchange(t) =>
        CasMovesOrAllocates(s, t);
        if Moves(s, s', t) {
          MoveKeepsInv(s, s', t);
        } else {
          AllocationKeepsInv(s, s', t, PcOf(s, t).kid);
        }
      case TakePrefix(t, drawn) =>
        var prefix := PrefixMovesOrIssues(s, t, drawn);
        if Moves(s, s', t) {
          MoveKeepsInv(s, s', t);
        } else {
          IssueKeepsInv(s, s', t, PcOf(s, t).kid, PcOf(s, t).count, prefix);
        }
      case RemoveCounter(kid) =>
        RemoveStaysOrDrops(s, kid);
        if s' != s {
          DropKeepsInv(s, s', kid);
        }
      case RemovePrefix(kid) =>
        assert Moves(s, s', 0);
        MoveKeepsInv(s, s', 0);
      case Reinitialise =>
    }
  }

  lemma SameBooksKeepCounters(s: State, s': State)
    requires CountersOk(s) && SameBooks(s, s')
    ensures CountersOk(s')
  {
    forall kid
      ensures Allocated(s', kid, Epoch(s', kid)) == CountUp(Counter(s', kid))
    {
      assert Allocated(s, kid, Epoch(s, kid)) == CountUp(Counter(s, kid));
    }
    forall kid, epoch: nat | epoch > Epoch(s', kid)
      ensures Allocated(s', kid, epoch) == []
    {
      assert Allocated(s, kid, epoch) == [];
    }
  }

  lemma MoveKeepsThreads(s: State, s': State, t: nat)
    requires ThreadsOk(s) && Moves(s, s', t)
    ensures ThreadsOk(s')
  {
    hide Counter, Epoch, Allocated;
  }

  lemma MoveKeepsIssued(s: State, s': State, t: nat)
    requires IssuedOk(s) && Moves(s, s', t)
    ensures IssuedOk(s')
  {
    hide Counter, Epoch, Allocated, PcOf, ToBigEndian;
  }

  lemma MoveKeepsInv(s: State, s': State, t: nat)
    requires Inv(s) && Moves(s, s', t)
    ensures Inv(s')
  {
    hide ThreadsOk, IssuedOk, CountersOk;
    SameBooksKeepCounters(s, s');
    MoveKeepsThreads(s, s', t);
    MoveKeepsIssued(s, s', t);
  }

  lemma AllocationKeepsCounters(s: State, s': State, t: nat, kid: KeyId)
    requires CountersOk(s) && ThreadsOk(s) && Allocates(s, s', t, kid)
    ensures CountersOk(s')
  {
    var n, live := Counter(s, kid), Epoch(s, kid);
    assert CountUp(n) + [n] == CountUp(n + 1);
    assert n < GCM_MAX_ENCRYPTIONS;
    forall k, e: nat
      ensures Allocated(s', k, e) == if k == kid && e == live then CountUp(n + 1) else Allocated(s, k, e)
    {
      assert Allocated(s, kid, live) == CountUp(n);
    }
    forall k
      ensures Allocated(s', k, Epoch(s', k)) == CountUp(Counter(s', k))
    {
      assert Allocated(s, k, Epoch(s, k)) == CountUp(Counter(s, k));
    }
  }

  lemma AllocationKeepsInv(s: State, s': State, t: nat, kid: KeyId)
    requires Inv(s) && Allocates(s, s', t, kid)
    ensures Inv(s')
  {
    AllocationKeepsCounters(s, s', t, kid);
    assert ThreadsOk(s');
    assert IssuedOk(s');
  }

  lemma IssueKeepsInv(s: State, s': State, t: nat, kid: KeyId, count: nat, prefix: Prefix)
    requires Inv(s) && Issues(s, s', t, kid, count, prefix)
    ensures Inv(s')
  {
    SameBooksKeepCounters(s, s');
    assert ThreadsOk(s');
    var last := Issue(kid, Epoch(s, kid), count, Nonce(prefix, count));
    assert last.nonce[4..] == ToBigEndian(count, 8);
    forall i | 0 <= i < |s'.issued|
      ensures s'.issued[i] == last || s'.issued[i] == s.issued[i]
    {
    }
  }

  lemma DropKeepsInv(s: State, s': State, kid: KeyId)
    requires Inv(s) && Drops(s, s', kid)
    ensures Inv(s')
  {
    forall k
      ensures Allocated(s', k, Epoch(s', k)) == CountUp(Counter(s', k))
    {
      if k == kid {
        assert Allocated(s, k, Epoch(s, k) + 1) == [];
      } else {
        assert Allocated(s, k, Epoch(s, k)) == CountUp(Counter(s, k));
      }
    }
    assert CountersOk(s');
    assert ThreadsOk(s');
    assert IssuedOk(s');
  }

  // ---------------------------------------------------------------------------
  // The ledger
  // ---------------------------------------------------------------------------

  /** Nothing is handed out, and whoever needs a prefix still does or is accounted for otherwise. */
  ghost predicate KeepsAccounts(s: State, s': State) {
    && SameBooks(s, s') && s.issued <= s'.issued && s.lost <= s'.lost
    && (forall i | |s.issued| <= i < |s'.issued| ::
          s'.issued[i].count < |Allocated(s', s'.issued[i].kid, s'.issued[i].epoch)|)
    && (forall t: nat | PcOf(s, t).NeedPrefix? ::
          Accounted(s', PcOf(s, t).kid, Epoch(s, PcOf(s, t).kid), PcOf(s, t).count))
  }

  lemma IssuedStays(s: State, s': State, kid: KeyId, epoch: nat, count: nat)
    requires s.issued <= s'.issued && WasIssued(s, kid, epoch, count)
    ensures WasIssued(s', kid, epoch, count)
  {
    var i :| 0 <= i < |s.issued| && s.issued[i].kid == kid && s.issued[i].epoch == epoch && s.issued[i].count == count;
    assert s'.issued[i] == s.issued[i];
  }

  lemma AccountsKeepLedger(s: State, s': State)
    requires LedgerOk(s) && KeepsAccounts(s, s')
    ensures LedgerOk(s')
  {
    hide Allocated, Epoch, PcOf;
    forall kid, epoch: nat, count: nat | count < |Allocated(s', kid, epoch)|
      ensures Accounted(s', kid, epoch, count)
    {
      assert Allocated(s', kid, epoch) == Allocated(s, kid, epoch);
      assert Accounted(s, kid, epoch, count);
      if WasIssued(s, kid, epoch, count) {
        IssuedStays(s, s', kid, epoch, count);
      } else if IsHeld(s, kid, epoch, count) {
        var t: nat :| PcOf(s, t) == NeedPrefix(kid, count);
        assert Accounted(s', PcOf(s, t).kid, Epoch(s, PcOf(s, t).kid), PcOf(s, t).count);
      }
    }
    forall i | 0 <= i < |s'.issued|
      ensures s'.issued[i].count < |Allocated(s', s'.issued[i].kid, s'.issued[i].epoch)|
    {
      if i < |s.issued| {
        assert s'.issued[i] == s.issued[i];
      }
    }
  }

  /** A thread that holds a count and does not move still holds it. */
  lemma StillHeld(s: State, s': State, t: nat)
    requires PcOf(s, t).NeedPrefix? && PcOf(s', t) == PcOf(s, t)
    requires Epoch(s', PcOf(s, t).kid) == Epoch(s, PcOf(s, t).kid)
    ensures Accounted(s', PcOf(s, t).kid, Epoch(s, PcOf(s, t).kid), PcOf(s, t).count)
  {
    assert IsHeld(s', PcOf(s, t).kid, Epoch(s, PcOf(s, t).kid), PcOf(s, t).count);
  }

  lemma MoveKeepsAccounts(s: State, s': State, t: nat)
    requires Moves(s, s', t) && !PcOf(s, t).NeedPrefix? && s'.lost == s.lost
    ensures KeepsAccounts(s, s')
  {
    hide Allocated, Epoch, PcOf, Counter;
    forall u: nat | PcOf(s, u).NeedPrefix?
      ensures Accounted(s', PcOf(s, u).kid, Epoch(s, PcOf(s, u).kid), PcOf(s, u).count)
    {
      assert u != t;
      StillHeld(s, s', u);
    }
  }

  lemma PrefixKeepsAccounts(s: State, t: nat, drawn: Option<Prefix>)
    requires CountersOk(s) && ThreadsOk(s)
    ensures KeepsAccounts(s, Next(s, TakePrefix(t, drawn)))
  {
    var s' := Next(s, TakePrefix(t, drawn));
    if PcOf(s, t).NeedPrefix? {
      var kid, count := PcOf(s, t).kid, PcOf(s, t).count;
      assert |Allocated(s, kid, Epoch(s, kid))| == |CountUp(Counter(s, kid))|;
      if s'.issued != s.issued {
        assert s'.issued[|s.issued|].count == count && WasIssued(s', kid, Epoch(s, kid), count);
      }
    }
    forall u: nat | PcOf(s, u).NeedPrefix?
      ensures Accounted(s', PcOf(s, u).kid, Epoch(s, PcOf(s, u).kid), PcOf(s, u).count)
    {
      if u != t {
        StillHeld(s, s', u);
      }
    }
  }

  lemma AllocationKeepsLedger(s: State, s': State, t: nat, kid: KeyId)
    requires LedgerOk(s) && CountersOk(s) && Allocates(s, s', t, kid) && s'.lost == s.lost
    ensures LedgerOk(s')
  {
    hide Allocated, Epoch, PcOf, Counter;
    assert |Allocated(s, kid, Epoch(s, kid))| == |CountUp(Counter(s, kid))|;
    forall k, e: nat, c: nat | c < |Allocated(s', k, e)|
      ensures Accounted(s', k, e, c)
    {
      if c < |Allocated(s, k, e)| {
        assert Accounted(s, k, e, c);
        if IsHeld(s, k, e, c) {
          var u: nat :| PcOf(s, u) == NeedPrefix(k, c);
          StillHeld(s, s', u);
        }
      } else {
        assert IsHeld(s', kid, Epoch(s, kid), Counter(s, kid));
      }
    }
  }

  lemma DropKeepsLedger(s: State, s': State, kid: KeyId)
    requires LedgerOk(s) && Drops(s, s', kid) && s'.lost == s.lost
    ensures LedgerOk(s')
  {
    hide Allocated, Epoch, PcOf, Counter;
    forall k, e: nat, c: nat | c < |Allocated(s', k, e)|
      ensures Accounted(s', k, e, c)
    {
      assert Accounted(s, k, e, c);
      if IsHeld(s, k, e, c) {
        var t: nat :| PcOf(s, t) == NeedPrefix(k, c);
        assert !Holds(PcOf(s, t), kid);
        StillHeld(s, s', t);
      }
    }
  }

  lemma NextKeepsLedger(s: State, a: Action)
    requires Inv(s) && LedgerOk(s)
    ensures LedgerOk(Next(s, a))
  {
    hide LedgerOk, CountersOk, ThreadsOk, IssuedOk, KeepsAccounts, Moves, Allocates, Drops;
    var s' := Next(s, a);
    match a {
      case Enter(t, kid) =>
        EnterMoves(s, t, kid);
        if s' != s {
          MoveKeepsAccounts(s, s', t);
          AccountsKeepLedger(s, s');
        }
      case Load(t) =>
        LoadMoves(s, t);
        if s' != s {
          MoveKeepsAccounts(s, s', t);
          AccountsKeepLedger(s, s');
        }
      case CompareExchange(t) =>
        CasMovesOrAllocates(s, t);
        if s' != s && Moves(s, s', t) {
          MoveKeepsAccounts(s, s', t);
          AccountsKeepLedger(s, s');
        } else if s' != s {
          AllocationKeepsLedger(s, s', t, PcOf(s, t).kid);
        }
      case TakePrefix(t, drawn) =>
        PrefixKeepsAccounts(s, t, drawn);
        AccountsKeepLedger(s, s');
      case RemoveCounter(kid) =>
        RemoveStaysOrDrops(s, kid);
        if s' != s {
          DropKeepsLedger(s, s', kid);
        }
      case RemovePrefix(kid) =>
        PrefixRemovalKeepsAccounts(s, kid);
        AccountsKeepLedger(s, s');
      case Reinitialise =>
    }
  }

  lemma PrefixRemovalKeepsAccounts(s: State, kid: KeyId)
    ensures KeepsAccounts(s, Next(s, RemovePrefix(kid)))
  {
    var s' := Next(s, RemovePrefix(kid));
    forall u: nat | PcOf(s, u).NeedPrefix?
      ensures Accounted(s', PcOf(s, u).kid, Epoch(s, PcOf(s, u).kid), PcOf(s, u).count)
    {
      StillHeld(s, s', u);
    }
  }

  lemma {:induction false} RunKeepsInv(actions: seq<Action>)
    ensures Inv(Run(actions)) && LedgerOk(Run(actions))
  {
    if actions != [] {
      hide Next, CountersOk, ThreadsOk, IssuedOk, LedgerOk;
      var n := |actions| - 1;
      RunKeepsInv(actions[..n]);
      NextKeepsInv(Run(actions[..n]), actions[n]);
      NextKeepsLedger(Run(actions[..n]), actions[n]);
    }
  }

  lemma NonceDeterminesCount(a: nat, b: nat)
    requires a < GCM_MAX_ENCRYPTIONS && b < GCM_MAX_ENCRYPTIONS && ToBigEndian(a, 8) == ToBigEndian(b, 8)
    ensures a == b
  {
    assert Pow256(2) == 65536 && Pow256(4) == 0x1_0000_0000;
    assert Pow256(6) >= Pow256(4) && Pow256(8) >= Pow256(6);
    BigEndianRoundTrip(a, 8);
    BigEndianRoundTrip(b, 8);
  }

  /** In every interleaving: within one life of a key's counter all nonces differ, the counts handed
      out are 0, 1, 2, … in order, and the counter never passes the limit. Every nonce used has one of
      these counts, and every one of them was used, is held by a thread about to use it, or was lost
      because no prefix could be drawn. */
  lemma NoncesNeverRepeat(actions: seq<Action>)
    ensures var s := Run(actions);
            && (forall i, j | 0 <= i < j < |s.issued| ::
                  s.issued[i].kid == s.issued[j].kid && s.issued[i].epoch == s.issued[j].epoch ==>
                    s.issued[i].nonce != s.issued[j].nonce)
            && (forall kid, epoch: nat ::
                  && Allocated(s, kid, epoch) == CountUp(|Allocated(s, kid, epoch)|)
                  && |Allocated(s, kid, epoch)| <= GCM_MAX_ENCRYPTIONS)
            && (forall kid :: Counter(s, kid) == |Allocated(s, kid, Epoch(s, kid))| <= GCM_MAX_ENCRYPTIONS)
            && (forall i | 0 <= i < |s.issued| ::
                  s.issued[i].count < |Allocated(s, s.issued[i].kid, s.issued[i].epoch)|)
            && (forall kid, epoch: nat, count: nat | count < |Allocated(s, kid, epoch)| ::
                  Accounted(s, kid, epoch, count))
  {
    RunKeepsInv(actions);
    var s := Run(actions);
    forall i, j | 0 <= i < j < |s.issued|
                  && s.issued[i].kid == s.issued[j].kid && s.issued[i].epoch == s.issued[j].epoch
      ensures s.issued[i].nonce != s.issued[j].nonce
    {
      if s.issued[i].nonce == s.issued[j].nonce {
        NonceDeterminesCount(s.issued[i].count, s.issued[j].count);
      }
    }
  }

  // ---------------------------------------------------------------------------
  // What becomes of an encryption
  // ---------------------------------------------------------------------------

  /** An encryption with the key begins. */
  predicate EntersFor(s: State, a: Action, kid: KeyId) {
    a.Enter? && a.kid == kid && PcOf(s, a.thread).Idle?
  }

  /** An encryption with the key reads a counter that has reached 2^31. */
  predicate FindsLimit(s: State, a: Action, kid: KeyId) {
    a.Load? && PcOf(s, a.thread) == Loading(kid) && Counter(s, kid) == 0x8000_0000
  }

  /** Threads with an encryption of the key under way. */
  function Active(s: State, kid: KeyId): set<nat> {
    set t | t in s.threads && Holds(s.threads[t], kid)
  }

  function Entered(actions: seq<Action>, kid: KeyId): nat {
    if actions == [] then 0
    else
      var before := actions[..|actions| - 1];
      Entered(before, kid) + if EntersFor(Run(before), actions[|actions| - 1], kid) then 1 else 0
  }

  function Refused(actions: seq<Action>, kid: KeyId): nat {
    if actions == [] then 0
    else
      var before := actions[..|actions| - 1];
      Refused(before, kid) + if FindsLimit(Run(before), actions[|actions| - 1], kid) then 1 else 0
  }

  function IssuedFor(issued: seq<Issue>, kid: KeyId): nat {
    if issued == [] then 0
    else IssuedFor(issued[..|issued| - 1], kid) + if issued[|issued| - 1].kid == kid then 1 else 0
  }

  function LostFor(lost: seq<Loss>, kid: KeyId): nat {
    if lost == [] then 0
    else LostFor(lost[..|lost| - 1], kid) + if lost[|lost| - 1].kid == kid then 1 else 0
  }

  lemma IssuedMore(issued: seq<Issue>, x: Issue, kid: KeyId)
    ensures IssuedFor(issued + [x], kid) == IssuedFor(issued, kid) + if x.kid == kid then 1 else 0
  {
    assert (issued + [x])[..|issued|] == issued;
  }

  lemma LostMore(lost: seq<Loss>, x: Loss, kid: KeyId)
    ensures LostFor(lost + [x], kid) == LostFor(lost, kid) + if x.kid == kid then 1 else 0
  {
    assert (lost + [x])[..|lost|] == lost;
  }

  /** A thread changes its place. */
  lemma ActiveMoves(s: State, s': State, t: nat, kid: KeyId)
    requires s'.threads == s.threads[t := PcOf(s', t)]
    ensures |Active(s', kid)| + (if Holds(PcOf(s, t), kid) then 1 else 0)
            == |Active(s, kid)| + if Holds(PcOf(s', t), kid) then 1 else 0
  {
    var others := Active(s, kid) - {t};
    assert Active(s, kid) == if Holds(PcOf(s, t), kid) then others + {t} else others;
    assert Active(s', kid) == if Holds(PcOf(s', t), kid) then others + {t} else others;
  }

  /** A thread that is after a count goes back to Idle only if the counter has reached 2^31, and one
      that holds a count only by using or losing it. */
  lemma GivesUpOnlyAtLimit(s: State, a: Action, t: nat)
    requires CountersOk(s) && !PcOf(s, t).Idle? && PcOf(Next(s, a), t).Idle?
    ensures PcOf(s, t).Loading? ==> a == Load(t) && Counter(s, PcOf(s, t).kid) == 0x8000_0000
    ensures !PcOf(s, t).Comparing?
    ensures PcOf(s, t).NeedPrefix? ==>
              var kid, count, epoch := PcOf(s, t).kid, PcOf(s, t).count, Epoch(s, PcOf(s, t).kid);
              || Next(s, a).lost == s.lost + [Loss(kid, epoch, count)]
              || (&& |Next(s, a).issued| == |s.issued| + 1
                  && var last := Next(s, a).issued[|s.issued|];
                  last.kid == kid && last.epoch == epoch && last.count == count)
  {
    hide Nonce, Allocated;
  }

  /** Encryptions that have not been refused: under way, used or lost. */
  function Kept(s: State, kid: KeyId): nat {
    |Active(s, kid)| + IssuedFor(s.issued, kid) + LostFor(s.lost, kid)
  }

  lemma MoveBalances(s: State, s': State, t: nat, kid: KeyId)
    requires s'.threads == s.threads[t := PcOf(s', t)] && s'.issued == s.issued && s'.lost == s.lost
    ensures Kept(s', kid) + (if Holds(PcOf(s, t), kid) then 1 else 0)
            == Kept(s, kid) + if Holds(PcOf(s', t), kid) then 1 else 0
  {
    hide Active;
    ActiveMoves(s, s', t, kid);
  }

  lemma AllocateBalances(s: State, a: Action, kid: KeyId)
    requires a.Enter? || a.Load? || a.CompareExchange?
    requires forall k :: Counter(s, k) <= 0x8000_0000
    ensures Kept(Next(s, a), kid) + (if FindsLimit(s, a, kid) then 1 else 0)
            == Kept(s, kid) + if EntersFor(s, a, kid) then 1 else 0
  {
    hide Kept, Nonce, Allocated, Epoch;
    var s' := Next(s, a);
    if s' != s {
      MoveBalances(s, s', a.thread, kid);
    }
  }

  lemma PrefixBalances(s: State, t: nat, drawn: Option<Prefix>, kid: KeyId)
    ensures Kept(Next(s, TakePrefix(t, drawn)), kid) == Kept(s, kid)
  {
    hide Active, IssuedFor, LostFor, Nonce, Counter, Allocated, Epoch;
    var s' := Next(s, TakePrefix(t, drawn));
    if PcOf(s, t).NeedPrefix? {
      ActiveMoves(s, s', t, kid);
      if s'.issued != s.issued {
        IssuedMore(s.issued, s'.issued[|s.issued|], kid);
      }
      if s'.lost != s.lost {
        LostMore(s.lost, s'.lost[|s.lost|], kid);
      }
    }
  }

  lemma StepBalances(s: State, a: Action, kid: KeyId)
    requires CountersOk(s)
    ensures Kept(Next(s, a), kid) + (if FindsLimit(s, a, kid) then 1 else 0)
            == Kept(s, kid) + if EntersFor(s, a, kid) then 1 else 0
  {
    if a.Enter? || a.Load? || a.CompareExchange? {
      hide CountersOk, Next, Kept;
      BelowLimit(s);
      AllocateBalances(s, a, kid);
    } else if a.TakePrefix? {
      hide CountersOk, Next, Kept;
      PrefixBalances(s, a.thread, a.drawn, kid);
    } else {
      hide Active;
      SameActive(s, Next(s, a), kid);
    }
  }

  lemma BelowLimit(s: State)
    requires CountersOk(s)
    ensures forall kid :: Counter(s, kid) <= 0x8000_0000
  {
  }

  lemma SameActive(s: State, s': State, kid: KeyId)
    requires s'.threads == s.threads
    ensures Active(s', kid) == Active(s, kid)
  {
  }

  /** In every interleaving the encryptions entered with a key are those that used a nonce, those that
      lost their count for want of a prefix, those that found the limit reached, and those under way. */
  lemma {:induction false} EveryEncryptionEnds(actions: seq<Action>, kid: KeyId)
    ensures var s := Run(actions);
            Entered(actions, kid)
            == IssuedFor(s.issued, kid) + LostFor(s.lost, kid) + Refused(actions, kid) + |Active(s, kid)|
  {
    if actions == [] {
      assert Active(INITIAL, kid) == {};
    } else {
      hide Next, IssuedFor, LostFor, Active, EntersFor, FindsLimit;
      var n := |actions| - 1;
      EveryEncryptionEnds(actions[..n], kid);
      RunKeepsInv(actions[..n]);
      StepBalances(Run(actions[..n]), actions[n], kid);
    }
  }

  /** What is left of an encryption that nothing interrupts: at most one more round of the loop. */
  function Finish(s: State, t: nat, prefix: Prefix): State {
    Next(Next(Next(Next(s, CompareExchange(t)), Load(t)), CompareExchange(t)), TakePrefix(t, Some(prefix)))
  }

  lemma RoundEnds(s: State, t: nat)
    ensures var s' := Next(Next(s, Load(t)), CompareExchange(t));
            !PcOf(s, t).Comparing? ==> PcOf(s', t).Idle? || PcOf(s', t).NeedPrefix?
  {
    hide Allocated, Epoch;
    var s1 := Next(s, Load(t));
    if PcOf(s, t).Loading? {
      assert PcOf(s1, t).Idle? || PcOf(s1, t) == Comparing(PcOf(s, t).kid, Counter(s, PcOf(s, t).kid));
      assert Counter(s1, PcOf(s, t).kid) == Counter(s, PcOf(s, t).kid);
    }
  }

  /** A race is made good: from any point an encryption that is left alone ends. */
  lemma AloneFinishes(s: State, t: nat, prefix: Prefix)
    ensures PcOf(Finish(s, t, prefix), t).Idle?
  {
    hide Allocated, Epoch, Nonce, Counter;
    var s1 := Next(s, CompareExchange(t));
    assert !PcOf(s1, t).Comparing?;
    RoundEnds(s1, t);
    var s3 := Next(Next(s1, Load(t)), CompareExchange(t));
    TakesPrefix(s3, t, prefix);
  }

  lemma TakesPrefix(s: State, t: nat, prefix: Prefix)
    requires PcOf(s, t).Idle? || PcOf(s, t).NeedPrefix?
    ensures PcOf(Next(s, TakePrefix(t, Some(prefix))), t).Idle?
  {
    hide Nonce, Epoch;
  }

  // ---------------------------------------------------------------------------
  // Two lives of one key
  // ---------------------------------------------------------------------------

  /** The step hands a nonce of this key to the cipher. */
  ghost predicate IssuesFor(s: State, a: Action, kid: KeyId) {
    |Next(s, a).issued| == |s.issued| + 1 && Next(s, a).issued[|s.issued|].kid == kid
  }

  ghost function IssueBy(s: State, a: Action): Issue
    requires |Next(s, a).issued| == |s.issued| + 1
  {
    Next(s, a).issued[|s.issued|]
  }

  lemma IssueUsesPrefix(s: State, a: Action, kid: KeyId)
    requires IssuesFor(s, a, kid)
    ensures a.TakePrefix? && PcOf(s, a.thread).NeedPrefix? && PcOf(s, a.thread).kid == kid
    ensures kid in Next(s, a).prefixes && Next(s, a).issued == s.issued + [IssueBy(s, a)]
    ensures IssueBy(s, a).nonce == Nonce(Next(s, a).prefixes[kid], IssueBy(s, a).count)
    ensures Next(s, a).prefixes[kid] == if kid in s.prefixes then s.prefixes[kid] else a.drawn.value
    ensures kid !in s.prefixes ==> a.drawn.Some?
    ensures Epoch(Next(s, a), kid) == Epoch(s, kid) == IssueBy(s, a).epoch
  {
    hide Nonce, Counter, Allocated;
  }

  lemma PrefixStep(s: State, a: Action, kid: KeyId)
    requires kid in s.prefixes && a != RemovePrefix(kid)
    ensures var s' := Next(s, a);
            && kid in s'.prefixes && s'.prefixes[kid] == s.prefixes[kid]
            && (|| s'.issued == s.issued
                || (&& |s'.issued| == |s.issued| + 1 && s.issued <= s'.issued
                    && var last := s'.issued[|s.issued|];
                    last.kid == kid ==> last.nonce == Nonce(s.prefixes[kid], last.count)))
  {
    hide Nonce, Counter, Epoch, Allocated;
  }

  /** As long as a key's prefix is not removed, whatever becomes of its counter, every nonce of the key
      starts with it. */
  lemma {:induction false} PrefixStays(actions: seq<Action>, more: seq<Action>, kid: KeyId)
    requires kid in Run(actions).prefixes && RemovePrefix(kid) !in more
    ensures var s0, s := Run(actions), Run(actions + more);
            && kid in s.prefixes && s.prefixes[kid] == s0.prefixes[kid] && s0.issued <= s.issued
            && forall i | |s0.issued| <= i < |s.issued| && s.issued[i].kid == kid ::
                 s.issued[i].nonce == Nonce(s0.prefixes[kid], s.issued[i].count)
  {
    hide Next, Nonce, Run;
    if more == [] {
      assert actions + more == actions;
    } else {
      var n := |more| - 1;
      assert more[n] in more && forall a | a in more[..n] :: a in more;
      PrefixStays(actions, more[..n], kid);
      assert actions + more == (actions + more[..n]) + [more[n]];
      RunMore(actions + more[..n], more[n]);
      PrefixStep(Run(actions + more[..n]), more[n], kid);
    }
  }

  predicate Draws(actions: seq<Action>, prefix: Prefix) {
    exists i | 0 <= i < |actions| :: actions[i].TakePrefix? && actions[i].drawn == Some(prefix)
  }

  /** Once a key's prefix is removed, it comes back only by being drawn again. */
  lemma {:induction false} PrefixGone(actions: seq<Action>, more: seq<Action>, kid: KeyId, prefix: Prefix)
    requires kid !in Run(actions).prefixes && !Draws(more, prefix)
    ensures var s := Run(actions + more); kid in s.prefixes ==> s.prefixes[kid] != prefix
  {
    hide Next, Run;
    if more == [] {
      assert actions + more == actions;
    } else {
      var n := |more| - 1;
      assert forall i | 0 <= i < n :: more[..n][i] == more[i];
      PrefixGone(actions, more[..n], kid, prefix);
      assert actions + more == (actions + more[..n]) + [more[n]];
      RunMore(actions + more[..n], more[n]);
      PrefixOtherwise(Run(actions + more[..n]), more[n], kid, prefix);
    }
  }

  lemma PrefixOtherwise(s: State, a: Action, kid: KeyId, prefix: Prefix)
    requires (kid in s.prefixes ==> s.prefixes[kid] != prefix) && !(a.TakePrefix? && a.drawn == Some(prefix))
    ensures var s' := Next(s, a); kid in s'.prefixes ==> s'.prefixes[kid] != prefix
  {
    hide Nonce, Counter, Epoch, Allocated;
  }

  lemma NoncesEqualExactly(p: Prefix, q: Prefix, a: nat, b: nat)
    requires a < GCM_MAX_ENCRYPTIONS && b < GCM_MAX_ENCRYPTIONS
    ensures Nonce(p, a) == Nonce(q, b) <==> p == q && a == b
  {
    assert Nonce(p, a)[..4] == p && Nonce(q, b)[..4] == q;
    assert Nonce(p, a)[4..] == ToBigEndian(a, 8) && Nonce(q, b)[4..] == ToBigEndian(b, 8);
    if Nonce(p, a) == Nonce(q, b) {
      NonceDeterminesCount(a, b);
    }
  }

  lemma IssueAt(actions: seq<Action>, a: Action, kid: KeyId)
    requires IssuesFor(Run(actions), a, kid)
    ensures var s, issue := Run(actions + [a]), IssueBy(Run(actions), a);
            && kid in s.prefixes && issue.nonce == Nonce(s.prefixes[kid], issue.count)
            && issue.count < GCM_MAX_ENCRYPTIONS
            && (kid in Run(actions).prefixes ==> s.prefixes[kid] == Run(actions).prefixes[kid])
  {
    hide Run, Next, Nonce;
    RunMore(actions, a);
    IssueUsesPrefix(Run(actions), a, kid);
    IssuedBelowLimit(actions + [a], |Run(actions).issued|);
  }

  /** Two encryptions with one key, by step x and by a later step y, between which the key's prefix is
      not removed, use the same nonce exactly if they have the same count, whatever becomes of the
      counter. */
  lemma RepeatsExactly(before: seq<Action>, x: Action, more: seq<Action>, y: Action, kid: KeyId)
    requires IssuesFor(Run(before), x, kid) && IssuesFor(Run(before + [x] + more), y, kid)
    requires RemovePrefix(kid) !in more
    ensures var a, b := IssueBy(Run(before), x), IssueBy(Run(before + [x] + more), y);
            a.nonce == b.nonce <==> a.count == b.count
  {
    hide Run, Next, Nonce;
    var between := before + [x] + more;
    IssueAt(before, x, kid);
    IssueAt(between, y, kid);
    PrefixStays(before + [x], more, kid);
    NoncesEqualExactly(Run(before + [x]).prefixes[kid], Run(between + [y]).prefixes[kid],
                       IssueBy(Run(before), x).count, IssueBy(Run(between), y).count);
  }

  /** If the prefix is removed between them and not drawn again after that, they never do. */
  lemma RemovedNeverRepeats(
    before: seq<Action>, x: Action, more: seq<Action>, rest: seq<Action>, y: Action, kid: KeyId, prefix: Prefix)
    requires var between := before + [x] + more + [RemovePrefix(kid)] + rest;
             IssuesFor(Run(before), x, kid) && IssuesFor(Run(between), y, kid)
    requires kid in Run(before + [x]).prefixes && Run(before + [x]).prefixes[kid] == prefix
    requires !Draws(rest + [y], prefix)
    ensures IssueBy(Run(before), x).nonce
            != IssueBy(Run(before + [x] + more + [RemovePrefix(kid)] + rest), y).nonce
  {
    hide Run, Next, Nonce, Draws;
    var removed := before + [x] + more + [RemovePrefix(kid)];
    var between := removed + rest;
    IssueAt(before, x, kid);
    IssueAt(between, y, kid);
    RunMore(before + [x] + more, RemovePrefix(kid));
    PrefixRemoved(Run(before + [x] + more), kid);
    assert removed + (rest + [y]) == between + [y];
    PrefixGone(removed, rest + [y], kid, prefix);
    NoncesEqualExactly(prefix, Run(between + [y]).prefixes[kid],
                       IssueBy(Run(before), x).count, IssueBy(Run(between), y).count);
  }

  lemma PrefixRemoved(s: State, kid: KeyId)
    ensures kid !in Next(s, RemovePrefix(kid)).prefixes
  {
  }

  lemma IssuedBelowLimit(actions: seq<Action>, i: nat)
    requires i < |Run(actions).issued|
    ensures Run(actions).issued[i].count < GCM_MAX_ENCRYPTIONS
  {
    hide Run;
    RunKeepsInv(actions);
  }

  // ---------------------------------------------------------------------------
  // A discipline under which no nonce of a key ever repeats
  // ---------------------------------------------------------------------------

  /** The key's counter was removed since its prefix last was. */
  predicate CounterGone(actions: seq<Action>, kid: KeyId) {
    actions != []
    && var before := actions[..|actions| - 1];
    actions[|actions| - 1] != RemovePrefix(kid)
    && (Epoch(Run(actions), kid) != Epoch(Run(before), kid) || CounterGone(before, kid))
  }

  /** Whoever takes a prefix takes one that the counter was not removed from under, or draws one that
      the key has not used before. */
  predicate StepCareful(before: seq<Action>, a: Action) {
    var s := Run(before);
    a.TakePrefix? && PcOf(s, a.thread).NeedPrefix? ==>
      var kid := PcOf(s, a.thread).kid;
      if kid in s.prefixes then !CounterGone(before, kid)
      else a.drawn.Some? ==> forall i | 0 <= i < |s.issued| && s.issued[i].kid == kid ::
                               !(a.drawn.value <= s.issued[i].nonce)
  }

  predicate Careful(actions: seq<Action>) {
    actions != [] ==> Careful(actions[..|actions| - 1]) && StepCareful(actions[..|actions| - 1], actions[|actions| - 1])
  }

  /** Nonces that start with the prefix in force belong to the present life of the counter. */
  ghost predicate PrefixCurrent(actions: seq<Action>, kid: KeyId) {
    var s := Run(actions);
    kid in s.prefixes && !CounterGone(actions, kid) ==>
      forall i | 0 <= i < |s.issued| && s.issued[i].kid == kid && s.prefixes[kid] <= s.issued[i].nonce ::
        s.issued[i].epoch == Epoch(s, kid)
  }

  /** What a step that issues nothing for the key does to its prefix and its nonces. */
  lemma QuietStep(s: State, a: Action, kid: KeyId)
    requires !IssuesFor(s, a, kid)
    ensures var s' := Next(s, a);
            && (kid in s'.prefixes ==> kid in s.prefixes && s'.prefixes[kid] == s.prefixes[kid])
            && s.issued <= s'.issued && |s'.issued| <= |s.issued| + 1
            && (|s'.issued| > |s.issued| ==> s'.issued[|s.issued|].kid != kid)
            && (a == RemovePrefix(kid) ==> kid !in s'.prefixes)
  {
    hide Nonce, Counter, Allocated, Epoch;
  }

  lemma {:induction false} CarefulKeepsCurrent(actions: seq<Action>, kid: KeyId)
    requires Careful(actions)
    ensures PrefixCurrent(actions, kid)
  {
    hide Next, Nonce, Epoch;
    if actions != [] {
      var n := |actions| - 1;
      var before, a := actions[..n], actions[n];
      var s := Run(before);
      CarefulKeepsCurrent(before, kid);
      if IssuesFor(s, a, kid) {
        IssueUsesPrefix(s, a, kid);
        assert Epoch(Run(actions), kid) == Epoch(s, kid);
        forall i | 0 <= i < |s.issued| && s.issued[i].kid == kid && Run(actions).prefixes[kid] <= s.issued[i].nonce
          ensures s.issued[i].epoch == Epoch(s, kid)
        {
          assert kid in s.prefixes;
        }
      } else {
        QuietStep(s, a, kid);
      }
    }
  }

  /** In every careful run no two encryptions with one key use the same nonce, over all lives of its
      counter. */
  lemma {:induction false} CarefulNeverRepeats(actions: seq<Action>, i: nat, j: nat)
    requires Careful(actions) && i < j < |Run(actions).issued|
    requires Run(actions).issued[i].kid == Run(actions).issued[j].kid
    ensures Run(actions).issued[i].nonce != Run(actions).issued[j].nonce
  {
    hide Next, Nonce, Epoch;
    var n := |actions| - 1;
    var before, a := actions[..n], actions[n];
    var s, kid := Run(before), Run(actions).issued[j].kid;
    IssuesAtMostOne(s, a);
    if j < |s.issued| {
      CarefulNeverRepeats(before, i, j);
    } else {
      IssueUsesPrefix(s, a, kid);
      CarefulKeepsCurrent(before, kid);
      NoncesNeverRepeat(actions);
      PrefixOfNonce(Run(actions).prefixes[kid], IssueBy(s, a).count);
    }
  }

  lemma IssuesAtMostOne(s: State, a: Action)
    ensures s.issued <= Next(s, a).issued && |Next(s, a).issued| <= |s.issued| + 1
  {
    hide Nonce, Counter, Allocated, Epoch;
  }

  lemma PrefixOfNonce(p: Prefix, count: nat)
    ensures p <= Nonce(p, count)
  {
  }

  /** The four steps of one undisturbed encryption. */
  function Encrypt(t: nat, kid: KeyId, drawn: Option<Prefix>): seq<Action> {
    [Enter(t, kid)] + [Load(t)] + [CompareExchange(t)] + [TakePrefix(t, drawn)]
  }

  lemma RunMore(actions: seq<Action>, a: Action)
    ensures Run(actions + [a]) == Next(Run(actions), a)
  {
    assert (actions + [a])[..|actions|] == actions;
  }

  lemma AllocateSteps(s: State, kid: KeyId)
    requires PcOf(s, 1).Idle? && s.threads.Keys <= {1} && Counter(s, kid) < GCM_MAX_ENCRYPTIONS
    ensures var s' := Next(Next(Next(s, Enter(1, kid)), Load(1)), CompareExchange(1));
            && PcOf(s', 1) == NeedPrefix(kid, Counter(s, kid)) && s'.threads.Keys <= {1}
            && s'.prefixes == s.prefixes && s'.epochs == s.epochs && s'.issued == s.issued
  {
    var s1 := Next(s, Enter(1, kid));
    assert PcOf(s1, 1) == Loading(kid) && Counter(s1, kid) == Counter(s, kid);
    var s2 := Next(s1, Load(1));
    assert PcOf(s2, 1) == Comparing(kid, Counter(s, kid)) && Counter(s2, kid) == Counter(s, kid);
  }

  lemma IssueStep(s: State, kid: KeyId, count: nat, drawn: Option<Prefix>)
    requires PcOf(s, 1) == NeedPrefix(kid, count) && s.threads.Keys <= {1} && (kid in s.prefixes || drawn.Some?)
    ensures var s' := Next(s, TakePrefix(1, drawn));
            var prefix := if kid in s.prefixes then s.prefixes[kid] else drawn.value;
            && s'.issued == s.issued + [Issue(kid, Epoch(s, kid), count, Nonce(prefix, count))]
            && s'.prefixes == s.prefixes[kid := prefix] && s'.epochs == s.epochs
            && s'.threads.Keys <= {1} && PcOf(s', 1).Idle?
  {
    hide Nonce;
  }

  lemma EncryptIssues(actions: seq<Action>, kid: KeyId, drawn: Option<Prefix>)
    requires var s := Run(actions);
             && s.threads.Keys <= {1} && PcOf(s, 1).Idle? && Counter(s, kid) < GCM_MAX_ENCRYPTIONS
             && (kid in s.prefixes || drawn.Some?)
    ensures var s, s' := Run(actions), Run(actions + Encrypt(1, kid, drawn));
            var prefix := if kid in s.prefixes then s.prefixes[kid] else drawn.value;
            && s'.issued == s.issued + [Issue(kid, Epoch(s, kid), Counter(s, kid), Nonce(prefix, Counter(s, kid)))]
            && s'.prefixes == s.prefixes[kid := prefix] && s'.epochs == s.epochs
            && s'.threads.Keys <= {1} && PcOf(s', 1).Idle?
  {
    hide Run, Nonce;
    AllocateSteps(Run(actions), kid);
    var s3 := Next(Next(Next(Run(actions), Enter(1, kid)), Load(1)), CompareExchange(1));
    IssueStep(s3, kid, Counter(Run(actions), kid), drawn);
    hide Next;
    var a := actions + [Enter(1, kid)];
    RunMore(actions, Enter(1, kid));
    RunMore(a, Load(1));
    RunMore(a + [Load(1)], CompareExchange(1));
    RunMore(a + [Load(1)] + [CompareExchange(1)], TakePrefix(1, drawn));
    assert a + [Load(1)] + [CompareExchange(1)] + [TakePrefix(1, drawn)] == actions + Encrypt(1, kid, drawn);
  }

  /** An encryption between the two steps of a removal starts a new life with the old prefix, and
      repeats the first nonce of the life before. */
  lemma RemovalInTwoStepsRepeats(kid: KeyId, prefix: Prefix)
    ensures var s := Run(Encrypt(1, kid, Some(prefix)) + [RemoveCounter(kid)]
                         + Encrypt(1, kid, None) + [RemovePrefix(kid)]);
            |s.issued| == 2 && s.issued[0].nonce == s.issued[1].nonce && s.issued[0].epoch != s.issued[1].epoch
  {
    hide Run, Nonce, Encrypt;
    var first := [] + Encrypt(1, kid, Some(prefix));
    RunNone();
    EncryptIssues([], kid, Some(prefix));
    assert first == Encrypt(1, kid, Some(prefix));
    RunMore(first, RemoveCounter(kid));
    EncryptIssues(first + [RemoveCounter(kid)], kid, None);
    RunMore(first + [RemoveCounter(kid)] + Encrypt(1, kid, None), RemovePrefix(kid));
  }

  lemma RunNone()
    ensures Run([]) == INITIAL
  {
  }
}
