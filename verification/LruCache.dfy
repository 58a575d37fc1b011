/** The bounded key caches: an insertion-ordered map in which a hit moves the entry to the back
    and an insertion into a full map evicts the entry at the front. */
module LruCache {
  import opened Base

  const RSA_KEY_CACHE_MAX := 64

  datatype Slot<K, V> = Slot(key: K, value: V)

  /** Slots front to back. */
  type Slots<K, V> = seq<Slot<K, V>>

  predicate Distinct<K(==), V>(m: Slots<K, V>) {
    forall i, j | 0 <= i < j < |m| :: m[i].key != m[j].key
  }

  predicate Contains<K(==), V>(m: Slots<K, V>, k: K) {
    exists i | 0 <= i < |m| :: m[i].key == k
  }

  function IndexOf<K(==), V>(m: Slots<K, V>, k: K): (i: nat)
    requires Contains(m, k)
    ensures i < |m| && m[i].key == k
    ensures forall j | 0 <= j < i :: m[j].key != k
  {
    if m[0].key == k then 0 else 1 + IndexOf(m[1..], k)
  }

  function Without<K, V>(m: Slots<K, V>, i: nat): Slots<K, V>
    requires i < |m|
  {
    m[..i] + m[i + 1..]
  }

  function Insert<K(==), V>(m: Slots<K, V>, k: K, v: V): Slots<K, V> {
    if Contains(m, k) then m[IndexOf(m, k) := Slot(k, v)]
    else (if |m| >= RSA_KEY_CACHE_MAX then m[1..] else m) + [Slot(k, v)]
  }

  function Get<K(==), V>(m: Slots<K, V>, k: K): Option<V> {
    if Contains(m, k) then Some(m[IndexOf(m, k)].value) else None
  }

  /** The map after a lookup of k. */
  function Promote<K(==), V>(m: Slots<K, V>, k: K): Slots<K, V> {
    if Contains(m, k) then Without(m, IndexOf(m, k)) + [m[IndexOf(m, k)]] else m
  }

  function Remove<K(==), V>(m: Slots<K, V>, k: K): Slots<K, V> {
    if Contains(m, k) then Without(m, IndexOf(m, k)) else m
  }

  class LruMap<K(==), V> {
    var slots: Slots<K, V>

    constructor ()
      ensures slots == []
    {
      slots := [];
    }

    method LruInsert(k: K, v: V)
      modifies this
      ensures slots == Insert(old(slots), k, v)
    {
      if !Contains(slots, k) && |slots| >= RSA_KEY_CACHE_MAX {
        slots := slots[1..];
        assert forall i | 0 <= i < |slots| :: slots[i] == old(slots)[i + 1];
      }
      if Contains(slots, k) {
        slots := slots[IndexOf(slots, k) := Slot(k, v)];
      } else {
        slots := slots + [Slot(k, v)];
      }
    }

    method LruGet(k: K) returns (r: Option<V>)
      modifies this
      ensures r == Get(old(slots), k) && slots == Promote(old(slots), k)
    {
      if !Contains(slots, k) {
        return None;
      }
      var idx := IndexOf(slots, k);
      var last := |slots| - 1;
      r := Some(slots[idx].value);
      if idx != last {
        slots := Without(slots, idx) + [slots[idx]];
      } else {
        assert Without(slots, idx) + [slots[idx]] == slots;
      }
    }

    method ShiftRemove(k: K)
      modifies this
      ensures slots == Remove(old(slots), k)
    {
      if Contains(slots, k) {
        slots := Without(slots, IndexOf(slots, k));
      }
    }
  }

  // ---------------------------------------------------------------------------
  // Runs, with the sequence of keys touched: hits and fresh insertions
  // ---------------------------------------------------------------------------

  datatype Op<K, V> = Put(key: K, value: V) | Lookup(key: K) | Drop(key: K) | Clear

  datatype Use<K, V> = Use(slots: Slots<K, V>, touched: seq<K>)

  function Apply<K(==), V>(u: Use<K, V>, op: Op<K, V>): Use<K, V> {
    match op
    case Put(k, v) => Use(Insert(u.slots, k, v), if Contains(u.slots, k) then u.touched else u.touched + [k])
    case Lookup(k) => Use(Promote(u.slots, k), if Contains(u.slots, k) then u.touched + [k] else u.touched)
    case Drop(k) => Use(Remove(u.slots, k), u.touched)
    case Clear => Use([], u.touched)
  }

  function Run<K(==), V>(ops: seq<Op<K, V>>): Use<K, V> {
    if ops == [] then Use([], []) else Apply(Run(ops[..|ops| - 1]), ops[|ops| - 1])
  }

  /** The position of the last touch of k, or -1. */
  function LastTouch<K(==)>(touched: seq<K>, k: K): (n: int)
    ensures -1 <= n < |touched|
    ensures n >= 0 ==> touched[n] == k
    ensures forall i | n < i < |touched| :: touched[i] != k
  {
    if touched == [] then -1
    else if touched[|touched| - 1] == k then |touched| - 1
    else LastTouch(touched[..|touched| - 1], k)
  }

  /** Map order is order of last touch. */
  predicate InTouchOrder<K(==), V>(u: Use<K, V>) {
    && |u.slots| <= RSA_KEY_CACHE_MAX
    && (forall i | 0 <= i < |u.slots| :: LastTouch(u.touched, u.slots[i].key) >= 0)
    && (forall i, j | 0 <= i < j < |u.slots| ::
          LastTouch(u.touched, u.slots[i].key) < LastTouch(u.touched, u.slots[j].key))
  }

  lemma TouchAppend<K>(touched: seq<K>, k: K, x: K)
    ensures LastTouch(touched + [k], x) == if x == k then |touched| else LastTouch(touched, x)
  {
    assert (touched + [k])[..|touched|] == touched;
  }

  lemma OrderedIsDistinct<K, V>(u: Use<K, V>)
    requires InTouchOrder(u)
    ensures Distinct(u.slots) && |u.slots| <= RSA_KEY_CACHE_MAX
  {
  }

  lemma WithoutLacks<K, V>(m: Slots<K, V>, i: nat)
    requires Distinct(m) && i < |m|
    ensures !Contains(Without(m, i), m[i].key)
  {
    var w := Without(m, i);
    assert forall j | 0 <= j < |w| :: w[j] == m[if j < i then j else j + 1];
  }

  /** Dropping slots keeps the order. */
  lemma WithoutKeepsOrder<K, V>(u: Use<K, V>, i: nat)
    requires InTouchOrder(u) && i < |u.slots|
    ensures InTouchOrder(Use(Without(u.slots, i), u.touched))
  {
    var w := Without(u.slots, i);
    assert forall j | 0 <= j < |w| :: w[j] == u.slots[if j < i then j else j + 1];
  }

  /** Touching a key that is not in the map and putting it at the back keeps the order. */
  lemma AppendKeepsOrder<K, V>(u: Use<K, V>, s: Slot<K, V>)
    requires InTouchOrder(u) && |u.slots| < RSA_KEY_CACHE_MAX && !Contains(u.slots, s.key)
    ensures InTouchOrder(Use(u.slots + [s], u.touched + [s.key]))
  {
    var u' := Use(u.slots + [s], u.touched + [s.key]);
    forall i | 0 <= i < |u'.slots|
      ensures LastTouch(u'.touched, u'.slots[i].key)
              == if i < |u.slots| then LastTouch(u.touched, u.slots[i].key) else |u.touched|
    {
      TouchAppend(u.touched, s.key, u'.slots[i].key);
    }
  }

  lemma PutKeepsOrder<K, V>(u: Use<K, V>, k: K, v: V)
    requires InTouchOrder(u)
    ensures InTouchOrder(Apply(u, Put(k, v)))
  {
    if Contains(u.slots, k) {
      var s := u.slots[IndexOf(u.slots, k) := Slot(k, v)];
      assert forall j | 0 <= j < |s| :: s[j].key == u.slots[j].key;
    } else if |u.slots| >= RSA_KEY_CACHE_MAX {
      WithoutKeepsOrder(u, 0);
      assert Without(u.slots, 0) == u.slots[1..];
      AppendKeepsOrder(Use(u.slots[1..], u.touched), Slot(k, v));
    } else {
      AppendKeepsOrder(u, Slot(k, v));
    }
  }

  lemma LookupKeepsOrder<K, V>(u: Use<K, V>, k: K)
    requires InTouchOrder(u)
    ensures InTouchOrder(Apply(u, Lookup(k)))
  {
    hide InTouchOrder;
    if Contains(u.slots, k) {
      OrderedIsDistinct(u);
      var i := IndexOf(u.slots, k);
      WithoutKeepsOrder(u, i);
      WithoutLacks(u.slots, i);
      AppendKeepsOrder(Use(Without(u.slots, i), u.touched), u.slots[i]);
    }
  }

  lemma ApplyKeepsOrder<K, V>(u: Use<K, V>, op: Op<K, V>)
    requires InTouchOrder(u)
    ensures InTouchOrder(Apply(u, op))
  {
    match op {
      case Put(k, v) => PutKeepsOrder(u, k, v);
      case Lookup(k) => LookupKeepsOrder(u, k);
      case Drop(k) =>
        if Contains(u.slots, k) {
          WithoutKeepsOrder(u, IndexOf(u.slots, k));
        }
      case Clear =>
    }
  }

  /** After any run the map holds at most 64 keys, in the order in which they were last touched. */
  lemma {:induction false} RunKeepsOrder<K, V>(ops: seq<Op<K, V>>)
    ensures InTouchOrder(Run(ops)) && Distinct(Run(ops).slots)
  {
    if ops != [] {
      RunKeepsOrder(ops[..|ops| - 1]);
      ApplyKeepsOrder(Run(ops[..|ops| - 1]), ops[|ops| - 1]);
    }
    OrderedIsDistinct(Run(ops));
  }

  function Keys<K(==), V>(m: Slots<K, V>): set<K> {
    set i | 0 <= i < |m| :: m[i].key
  }

  lemma {:induction false} KeysSize<K, V>(m: Slots<K, V>)
    requires Distinct(m)
    ensures |Keys(m)| == |m|
  {
    if m != [] {
      var n := |m| - 1;
      KeysSize(m[..n]);
      assert Keys(m) == Keys(m[..n]) + {m[n].key};
    }
  }

  /** Keys touched after position n. */
  function TouchedSince<K(==)>(touched: seq<K>, n: int): set<K>
    requires -1 <= n < |touched|
  {
    set i | n < i < |touched| :: touched[i]
  }

  /** A key leaves the map, other than by being dropped or cleared, only when 64 distinct other keys
      have been touched since its own last touch. */
  lemma EvictionNeedsSixtyFourOthers<K, V>(ops: seq<Op<K, V>>, op: Op<K, V>, x: K)
    requires Contains(Run(ops).slots, x) && !Contains(Apply(Run(ops), op).slots, x)
    requires !op.Clear? && op != Drop(x)
    ensures op.Put?
    ensures var touched := Apply(Run(ops), op).touched;
            var others := TouchedSince(touched, LastTouch(touched, x));
            x !in others && |others| >= RSA_KEY_CACHE_MAX
  {
    var u := Run(ops);
    RunKeepsOrder(ops);
    if !(op.Put? && !Contains(u.slots, op.key) && |u.slots| >= RSA_KEY_CACHE_MAX && u.slots[0].key == x) {
      KeyStays(u, op, x);
    } else {
      OthersTouched(u, op.key, op.value);
    }
  }

  lemma OthersTouched<K, V>(u: Use<K, V>, k: K, v: V)
    requires InTouchOrder(u) && !Contains(u.slots, k) && |u.slots| >= RSA_KEY_CACHE_MAX
    ensures var touched := u.touched + [k];
            var x := u.slots[0].key;
            var others := TouchedSince(touched, LastTouch(touched, x));
            x !in others && |others| >= RSA_KEY_CACHE_MAX
  {
    var x := u.slots[0].key;
    var touched := u.touched + [k];
    TouchAppend(u.touched, k, x);
    OrderedIsDistinct(u);
    var kept := u.slots[1..] + [Slot(k, v)];
    assert Distinct(kept);
    KeysSize(kept);
    var others := TouchedSince(touched, LastTouch(touched, x));
    forall y | y in Keys(kept)
      ensures y in others
    {
      var i :| 0 <= i < |kept| && kept[i].key == y;
      TouchAppend(u.touched, k, y);
      assert i < |kept| - 1 ==> kept[i] == u.slots[i + 1];
      assert touched[LastTouch(touched, y)] == y;
    }
    SubsetSize(Keys(kept), others);
  }

  /** A key stays through every operation on other keys but a fresh insertion that finds it at the
      front of a full map. */
  lemma KeyStays<K, V>(u: Use<K, V>, op: Op<K, V>, x: K)
    requires Distinct(u.slots) && Contains(u.slots, x) && !op.Clear? && op != Drop(x)
    requires !(op.Put? && !Contains(u.slots, op.key) && |u.slots| >= RSA_KEY_CACHE_MAX && u.slots[0].key == x)
    ensures Contains(Apply(u, op).slots, x)
  {
    var i := IndexOf(u.slots, x);
    var after := Apply(u, op).slots;
    match op {
      case Put(k, v) =>
        if Contains(u.slots, k) || |u.slots| < RSA_KEY_CACHE_MAX {
          assert after[i].key == x;
        } else {
          assert after[i - 1].key == x;
        }
      case Lookup(k) =>
        if Contains(u.slots, k) {
          var j := IndexOf(u.slots, k);
          assert after[if i < j then i else if i == j then |after| - 1 else i - 1].key == x;
        }
      case Drop(k) =>
        if Contains(u.slots, k) {
          var j := IndexOf(u.slots, k);
          assert after[if i < j then i else i - 1].key == x;
        }
    }
  }
}
