/** The add-then-roll-back gate on concurrent operations, over every interleaving of its steps. */
module ConcurrencyGate {
  import opened Base

  /** Operations are named by distinct numbers below this one, so that fewer than 2^64 are ever under
      way at once. */
  const OPERATION_SLOTS := U64_MAX

  /** The atomic counter, the operations that were let in and have not ended, and those that found
      the gate full and have not yet taken their increment back. */
  datatype State = State(counter: nat, granted: set<nat>, rollingBack: set<nat>)

  /** `Add` is the fetch-and-add of `begin_operation` with the comparison that follows on the value
      it returned; `Undo` its fetch-and-subtract; `End` the one of `end_operation`. */
  datatype Action = Add(op: nat) | Undo(op: nat) | End(op: nat)

  const INITIAL := State(0, {}, {})

  function FetchAdd(counter: nat): nat {
    (counter + 1) % U64_MODULUS
  }

  function FetchSub(counter: nat): nat {
    if counter == 0 then U64_MAX else counter - 1
  }

  predicate Idle(s: State, op: nat) {
    op < OPERATION_SLOTS && op !in s.granted && op !in s.rollingBack
  }

  /** One atomic step under a limit that is not zero; impossible actions change nothing. */
  function Next(limit: nat, s: State, a: Action): State {
    match a
    case Add(op) =>
      if !Idle(s, op) then s
      else if s.counter >= limit then State(FetchAdd(s.counter), s.granted, s.rollingBack + {op})
      else State(FetchAdd(s.counter), s.granted + {op}, s.rollingBack)
    case Undo(op) =>
      if op !in s.rollingBack then s
      else State(FetchSub(s.counter), s.granted, s.rollingBack - {op})
    case End(op) =>
      if op !in s.granted then s
      else State(FetchSub(s.counter), s.granted - {op}, s.rollingBack)
  }

  function Run(limit: nat, actions: seq<Action>): State {
    if actions == [] then INITIAL else Next(limit, Run(limit, actions[..|actions| - 1]), actions[|actions| - 1])
  }

  ghost predicate Inv(limit: nat, s: State) {
    && s.granted !! s.rollingBack
    && s.counter == |s.granted| + |s.rollingBack|
    && |s.granted| <= limit
    && (forall op | op in s.granted :: op < OPERATION_SLOTS)
    && (forall op | op in s.rollingBack :: op < OPERATION_SLOTS)
  }

  lemma {:induction false} BoundedSize(s: set<nat>, n: nat)
    requires forall x | x in s :: x < n
    ensures |s| <= n
  {
    if n > 0 {
      BoundedSize(s - {n - 1}, n - 1);
    } else {
      assert s == {};
    }
  }

  lemma UnionSize(a: set<nat>, b: set<nat>)
    requires a !! b
    ensures |a + b| == |a| + |b|
  {
  }

  /** There is always room for one more increment. */
  lemma NoOverflow(limit: nat, s: State, op: nat)
    requires Inv(limit, s) && Idle(s, op)
    ensures s.counter < U64_MAX
  {
    UnionSize(s.granted, s.rollingBack);
    BoundedSize(s.granted + s.rollingBack + {op}, OPERATION_SLOTS);
  }

  lemma AddKeepsInv(limit: nat, s: State, op: nat)
    requires Inv(limit, s)
    ensures Inv(limit, Next(limit, s, Add(op)))
  {
    if Idle(s, op) {
      NoOverflow(limit, s, op);
    }
  }

  lemma NextKeepsInv(limit: nat, s: State, a: Action)
    requires Inv(limit, s)
    ensures Inv(limit, Next(limit, s, a))
    ensures Next(limit, s, a).counter <= s.counter + 1 && s.counter <= Next(limit, s, a).counter + 1
  {
    match a {
      case Add(op) => AddKeepsInv(limit, s, op);
      case Undo(op) =>
      case End(op) =>
    }
  }

  /** In every interleaving the operations under way never exceed the limit, the counter is the
      operations under way plus the increments still to be taken back, and no step overflows or
      underflows it. */
  lemma {:induction false} GateHolds(limit: nat, actions: seq<Action>)
    ensures Inv(limit, Run(limit, actions))
    ensures |Run(limit, actions).granted| <= limit
    ensures Run(limit, actions).counter == |Run(limit, actions).granted| + |Run(limit, actions).rollingBack|
    ensures actions != [] ==>
              var before := Run(limit, actions[..|actions| - 1]).counter;
              -1 <= Run(limit, actions).counter - before <= 1
  {
    if actions != [] {
      GateHolds(limit, actions[..|actions| - 1]);
      NextKeepsInv(limit, Run(limit, actions[..|actions| - 1]), actions[|actions| - 1]);
    }
  }

  /** A new operation is let in exactly if fewer than `limit` operations are under way or rolling
      back: pending roll-backs can turn an operation away while there is room. */
  lemma LetInExactly(limit: nat, actions: seq<Action>, op: nat)
    requires Idle(Run(limit, actions), op)
    ensures op in Run(limit, actions + [Add(op)]).granted
            <==> |Run(limit, actions).granted| + |Run(limit, actions).rollingBack| < limit
  {
    GateHolds(limit, actions);
    assert (actions + [Add(op)])[..|actions|] == actions;
  }

  /** Operation 2 is turned away although the one slot is free. */
  lemma RollBackTurnsAway()
    ensures var s := Run(1, [Add(0), Add(1), End(0), Add(2)]);
            2 in s.rollingBack && s.granted == {}
  {
    assert [Add(0)][..0] == [];
    assert [Add(0), Add(1)][..1] == [Add(0)];
    assert [Add(0), Add(1), End(0)][..2] == [Add(0), Add(1)];
    assert [Add(0), Add(1), End(0), Add(2)][..3] == [Add(0), Add(1), End(0)];
  }

  /** Once every roll-back is done and every operation has ended, the counter is zero again. */
  lemma QuietGateIsOpen(limit: nat, actions: seq<Action>)
    ensures var s := Run(limit, actions);
            s.counter == 0 <==> s.granted == {} && s.rollingBack == {}
  {
    GateHolds(limit, actions);
  }
}
