/**
 The four structures the pool derives from its queues: the hash index, the gas counter, the
 destination map and the blob counters. Entering an action and removing one update all four;
 this module proves that both updates keep the books balanced.
 */
module PoolBooks {
  import opened Actions

  datatype Books = Books(
    all: map<Hash, Action>,
    gas: U64,
    dest: map<string, map<Hash, Action>>,
    blobs: map<string, nat>)

  const EMPTY_BOOKS: Books := Books(map[], 0, map[], map[])

  // ---------- the updates ----------

  function Lower(c: char): char {
    if 'A' <= c <= 'Z' then (c as int + 32) as char else c
  }

  /** strings.EqualFold on the ASCII alphabet of addresses */
  predicate EqualFold(a: string, b: string) {
    |a| == |b| && forall i | 0 <= i < |a| :: Lower(a[i]) == Lower(b[i])
  }

  /** The same characters, but that a letter may be a capital in one and not in the other. */
  ghost predicate SameButForCase(a: string, b: string) {
    && |a| == |b|
    && forall i | 0 <= i < |a| ::
         || a[i] == b[i]
         || ('A' <= a[i] <= 'Z' && b[i] as int - 'a' as int == a[i] as int - 'A' as int)
         || ('A' <= b[i] <= 'Z' && a[i] as int - 'a' as int == b[i] as int - 'A' as int)
  }

  lemma EqualFoldMeans(a: string, b: string)
    ensures EqualFold(a, b) <==> SameButForCase(a, b)
  {
    if |a| == |b| {
      forall i | 0 <= i < |a|
        ensures Lower(a[i]) == Lower(b[i]) <==>
                  || a[i] == b[i]
                  || ('A' <= a[i] <= 'Z' && b[i] as int - 'a' as int == a[i] as int - 'A' as int)
                  || ('A' <= b[i] <= 'Z' && a[i] as int - 'a' as int == b[i] as int - 'A' as int)
      {
      }
    }
  }

  /** The action has a destination other than its sender. */
  predicate Directed(act: Action) {
    act.destination.Some? && !EqualFold(act.sender, act.destination.value)
  }

  function AddDestination(dest: map<string, map<Hash, Action>>, act: Action): map<string, map<Hash, Action>> {
    if Directed(act) then
      var d := act.destination.value;
      dest[d := (if d in dest then dest[d] else map[])[act.hash := act]]
    else dest
  }

  /** destinationMap.delete: it does not ask whether the action was directed. */
  function DropDestination(dest: map<string, map<Hash, Action>>, act: Action): map<string, map<Hash, Action>> {
    if act.destination.None? || act.destination.value !in dest then dest
    else
      var d := act.destination.value;
      var left := dest[d] - {act.hash};
      if left == map[] then dest - {d} else dest[d := left]
  }

  /** atomic.AddUint64 */
  function AddGas(gas: U64, delta: U64): U64 {
    (gas + delta) % TWO_64
  }

  /** The two's complement of delta as the pool writes it: the complement of delta - 1. */
  function Complement(delta: U64): U64 {
    TWO_64 - 1 - (delta + TWO_64 - 1) % TWO_64
  }

  function CountOf(blobs: map<string, nat>, sender: string): nat {
    if sender in blobs then blobs[sender] else 0
  }

  function CountUp(blobs: map<string, nat>, act: Action): map<string, nat> {
    if act.isBlob then blobs[act.sender := CountOf(blobs, act.sender) + 1] else blobs
  }

  function CountDown(blobs: map<string, nat>, act: Action): map<string, nat> {
    if act.isBlob && CountOf(blobs, act.sender) != 0 then blobs[act.sender := CountOf(blobs, act.sender) - 1] else blobs
  }

  /** What Handle does to the books once an action is in its queue. */
  function Enter(b: Books, act: Action): Books {
    Books(b.all[act.hash := act], AddGas(b.gas, act.gas), AddDestination(b.dest, act), CountUp(b.blobs, act))
  }

  /** What removeInvalidActs does to the books for one action. */
  function Leave(b: Books, act: Action): Books {
    Books(b.all - {act.hash}, AddGas(b.gas, Complement(act.gas)), DropDestination(b.dest, act), CountDown(b.blobs, act))
  }

  function LeaveAll(b: Books, acts: seq<Action>): Books
    decreases |acts|
  {
    if acts == [] then b else LeaveAll(Leave(b, acts[0]), acts[1..])
  }

  // ---------- what the books should say ----------

  ghost predicate Keyed(all: map<Hash, Action>) {
    forall h | h in all :: all[h].hash == h
  }

  /** The total gas of a set of actions, as an unbounded number. */
  ghost function GasOf(acts: set<Action>): nat {
    if acts == {} then 0
    else
      var a :| a in acts;
      a.gas + GasOf(acts - {a})
  }

  /** The destination map holds exactly the indexed actions that are directed elsewhere. */
  ghost predicate Addressed(dest: map<string, map<Hash, Action>>, all: map<Hash, Action>) {
    && (forall d | d in dest :: dest[d] != map[])
    && (forall d, h | d in dest && h in dest[d] ::
          h in all && dest[d][h] == all[h] && Directed(all[h]) && all[h].destination == Some(d))
    && (forall h | h in all && Directed(all[h]) ::
          all[h].destination.value in dest && h in dest[all[h].destination.value])
  }

  ghost function BlobsOf(acts: set<Action>, sender: string): set<Action> {
    set a | a in acts && a.isBlob && a.sender == sender
  }

  ghost predicate Counted(blobs: map<string, nat>, acts: set<Action>) {
    forall s {:trigger BlobsOf(acts, s)} :: CountOf(blobs, s) == |BlobsOf(acts, s)|
  }

  ghost predicate Balanced(b: Books) {
    match b
    case Books(all, gas, dest, blobs) =>
      && Keyed(all)
      && gas == GasOf(all.Values) % TWO_64
      && Addressed(dest, all)
      && Counted(blobs, all.Values)
  }

  // ---------- the updates keep the books balanced ----------

  lemma {:induction false} GasOfRemove(acts: set<Action>, a: Action)
    requires a in acts
    ensures GasOf(acts) == a.gas + GasOf(acts - {a})
    decreases acts
  {
    var x :| x in acts && GasOf(acts) == x.gas + GasOf(acts - {x});
    if x != a {
      GasOfRemove(acts - {x}, a);
      GasOfRemove(acts - {a}, x);
      assert acts - {x} - {a} == acts - {a} - {x};
    }
  }

  /** Adding the complement subtracts modulo 2^64, also when the gas is zero. */
  lemma ComplementSubtracts(total: nat, delta: U64)
    requires delta <= total
    ensures AddGas(total % TWO_64, Complement(delta)) == (total - delta) % TWO_64
  {
    var q := total / TWO_64;
    assert total == q * TWO_64 + total % TWO_64;
    if delta == 0 {
      assert Complement(0) == 0;
    } else {
      assert (delta + TWO_64 - 1) % TWO_64 == delta - 1;
      assert Complement(delta) == TWO_64 - delta;
    }
  }

  lemma GasEnter(all: map<Hash, Action>, gas: U64, act: Action)
    requires gas == GasOf(all.Values) % TWO_64 && act !in all.Values
    ensures AddGas(gas, act.gas) == GasOf(all.Values + {act}) % TWO_64
  {
    GasOfRemove(all.Values + {act}, act);
    assert all.Values + {act} - {act} == all.Values;
  }

  lemma GasLeave(all: map<Hash, Action>, gas: U64, act: Action)
    requires gas == GasOf(all.Values) % TWO_64 && act in all.Values
    ensures AddGas(gas, Complement(act.gas)) == GasOf(all.Values - {act}) % TWO_64
  {
    GasOfRemove(all.Values, act);
    ComplementSubtracts(GasOf(all.Values), act.gas);
  }

  lemma AddressedEnter(dest: map<string, map<Hash, Action>>, all: map<Hash, Action>, act: Action)
    requires Keyed(all) && Addressed(dest, all) && act.hash !in all
    ensures Addressed(AddDestination(dest, act), all[act.hash := act])
  {
    var dest', all' := AddDestination(dest, act), all[act.hash := act];
    forall d | d in dest' ensures dest'[d] != map[] {
      if d !in dest || dest'[d] != dest[d] { assert act.hash in dest'[d]; }
    }
    forall h | h in all' && Directed(all'[h])
      ensures all'[h].destination.value in dest' && h in dest'[all'[h].destination.value]
    {
      if h != act.hash {
        var d := all[h].destination.value;
        assert d in dest && h in dest[d];
      }
    }
  }

  lemma AddressedLeave(dest: map<string, map<Hash, Action>>, all: map<Hash, Action>, act: Action)
    requires Keyed(all) && Addressed(dest, all) && act.hash in all && all[act.hash] == act
    ensures Addressed(DropDestination(dest, act), all - {act.hash})
  {
    var dest', all' := DropDestination(dest, act), all - {act.hash};
    forall h | h in all' && Directed(all'[h])
      ensures all'[h].destination.value in dest' && h in dest'[all'[h].destination.value]
    {
      var d := all[h].destination.value;
      assert d in dest && h in dest[d];
      if act.destination == Some(d) { assert h in dest[d] - {act.hash}; }
    }
  }

  lemma CountedEnter(blobs: map<string, nat>, acts: set<Action>, act: Action)
    requires Counted(blobs, acts) && act !in acts
    ensures Counted(CountUp(blobs, act), acts + {act})
  {
    forall s ensures CountOf(CountUp(blobs, act), s) == |BlobsOf(acts + {act}, s)| {
      assert CountOf(blobs, s) == |BlobsOf(acts, s)|;
      if act.isBlob && act.sender == s {
        assert BlobsOf(acts + {act}, s) == BlobsOf(acts, s) + {act};
      } else {
        assert BlobsOf(acts + {act}, s) == BlobsOf(acts, s);
      }
    }
  }

  lemma CountedLeave(blobs: map<string, nat>, acts: set<Action>, act: Action)
    requires Counted(blobs, acts) && act in acts
    ensures Counted(CountDown(blobs, act), acts - {act})
  {
    forall s ensures CountOf(CountDown(blobs, act), s) == |BlobsOf(acts - {act}, s)| {
      assert CountOf(blobs, s) == |BlobsOf(acts, s)|;
      if act.isBlob && act.sender == s {
        assert BlobsOf(acts - {act}, s) == BlobsOf(acts, s) - {act};
      } else {
        assert BlobsOf(acts - {act}, s) == BlobsOf(acts, s);
      }
    }
  }

  lemma EnterBalances(b: Books, act: Action)
    requires Balanced(b) && act.hash !in b.all
    ensures Balanced(Enter(b, act)) && Enter(b, act).all.Values == b.all.Values + {act}
  {
    var all' := b.all[act.hash := act];
    assert act !in b.all.Values;
    assert all'.Values == b.all.Values + {act} by {
      assert all'[act.hash] == act;
      assert forall h | h in b.all :: all'[h] == b.all[h];
    }
    GasEnter(b.all, b.gas, act);
    AddressedEnter(b.dest, b.all, act);
    CountedEnter(b.blobs, b.all.Values, act);
  }

  lemma LeaveBalances(b: Books, act: Action)
    requires Balanced(b) && act.hash in b.all && b.all[act.hash] == act
    ensures Balanced(Leave(b, act)) && Leave(b, act).all.Values == b.all.Values - {act}
  {
    var all' := b.all - {act.hash};
    assert all'.Values == b.all.Values - {act} by {
      assert forall h | h in all' :: all'[h] == b.all[h] && all'[h].hash != act.hash;
      assert forall h | h in b.all && b.all[h] != act :: h in all';
    }
    GasLeave(b.all, b.gas, act);
    AddressedLeave(b.dest, b.all, act);
    CountedLeave(b.blobs, b.all.Values, act);
  }

  ghost predicate Indexed(all: map<Hash, Action>, act: Action) {
    act.hash in all && all[act.hash] == act
  }

  ghost function HashesOf(acts: seq<Action>): set<Hash> {
    set a | a in acts :: a.hash
  }

  ghost predicate DistinctHashes(acts: seq<Action>) {
    forall i, j | 0 <= i < j < |acts| :: acts[i].hash != acts[j].hash
  }

  /** After the first one has left, the rest are still indexed. */
  lemma RestIndexed(b: Books, acts: seq<Action>)
    requires acts != [] && DistinctHashes(acts) && forall a | a in acts :: Indexed(b.all, a)
    ensures DistinctHashes(acts[1..]) && forall a | a in acts[1..] :: Indexed(Leave(b, acts[0]).all, a)
    ensures HashesOf(acts) == {acts[0].hash} + HashesOf(acts[1..])
  {
    forall a | a in acts[1..] ensures Indexed(Leave(b, acts[0]).all, a) {
      var i :| 0 <= i < |acts[1..]| && acts[1..][i] == a;
      assert acts[i + 1] == a && Indexed(b.all, a);
    }
    assert acts == [acts[0]] + acts[1..];
  }

  /** Removing several indexed actions takes exactly those out. */
  lemma {:induction false} LeaveAllBalances(b: Books, acts: seq<Action>)
    requires Balanced(b) && DistinctHashes(acts) && forall a | a in acts :: Indexed(b.all, a)
    ensures Balanced(LeaveAll(b, acts))
    ensures LeaveAll(b, acts).all == b.all - HashesOf(acts)
    ensures forall s :: CountOf(LeaveAll(b, acts).blobs, s) <= CountOf(b.blobs, s)
    decreases |acts|
  {
    if acts != [] {
      assert Indexed(b.all, acts[0]);
      LeaveBalances(b, acts[0]);
      RestIndexed(b, acts);
      LeaveAllBalances(Leave(b, acts[0]), acts[1..]);
      assert forall s :: CountOf(Leave(b, acts[0]).blobs, s) <= CountOf(b.blobs, s);
    }
  }

  /** An action is listed under d exactly when it is indexed and directed to d. */
  lemma Listed(dest: map<string, map<Hash, Action>>, all: map<Hash, Action>, d: string, act: Action)
    requires Addressed(dest, all)
    ensures d in dest && Indexed(dest[d], act) <==>
            Indexed(all, act) && Directed(act) && act.destination == Some(d)
  {
    if Indexed(all, act) && Directed(act) && act.destination == Some(d) {
      assert all[act.hash].destination.value in dest;
    }
  }
}
