/**
 One account's queue as a value, without caches: the ready prefix is recomputed from the items
 whenever it is needed. Class `ActQueue` keeps the prefix incrementally and is proved to behave
 as this model; the account pool is built on this model.
 */
module AccountQueue {
  import opened Actions
  import opened ReadyPrefix
  import opened HeapOrder

  datatype Queue = Queue(
    items: Items,
    deadlines: map<nat, int>,
    accountNonce: nat,
    accountBalance: int,
    ttl: int)

  ghost predicate Valid(q: Queue) {
    && q.items.Keys == q.deadlines.Keys
    && forall n | n in q.items :: q.items[n].nonce == n && q.accountNonce <= n
  }

  function Empty(nonce: nat, balance: int, ttl: int): Queue {
    Queue(map[], map[], nonce, balance, ttl)
  }

  function PendingNonce(q: Queue): (p: nat)
    ensures q.accountNonce <= p
  {
    ReadyEnd(q.items, q.accountNonce, q.accountBalance)
  }

  /** What the account has left for an action at nonce n. */
  function BalanceAt(q: Queue, n: nat): int {
    var p := PendingNonce(q);
    q.accountBalance - Spent(q.items, q.accountNonce, if n > p then p else n)
  }

  /** Whether `act` may take the place of `prev`; `ready` says that prev is in the ready prefix. */
  predicate MayReplace(prev: Action, act: Action, ready: bool) {
    && (ready ==> act.gasFeeCap > prev.gasFeeCap)
    && (prev.isBlob ==>
          && act.isBlob
          && act.gasFeeCap >= prev.gasFeeCap * 2
          && act.gasTipCap >= prev.gasTipCap * 2
          && act.blobGasFeeCap >= prev.blobGasFeeCap * 2)
  }

  function With(q: Queue, act: Action, now: int): Queue {
    Queue(q.items[act.nonce := act], q.deadlines[act.nonce := now + q.ttl], q.accountNonce, q.accountBalance, q.ttl)
  }

  function Without(q: Queue, gone: set<nat>): Queue {
    Queue(q.items - gone, q.deadlines - gone, q.accountNonce, q.accountBalance, q.ttl)
  }

  /** The error with which Put turns `act` away, if any. */
  function PutError(q: Queue, act: Action): Option<Error> {
    if BalanceAt(q, act.nonce) < act.cost then Some(ErrInsufficientFunds)
    else if act.nonce in q.items && !MayReplace(q.items[act.nonce], act, act.nonce < PendingNonce(q)) then
      Some(ErrReplaceUnderpriced)
    else None
  }

  function Replaced(q: Queue, act: Action): Option<Action> {
    if act.nonce in q.items then Some(q.items[act.nonce]) else None
  }

  lemma {:induction false} LeastExists(s: set<nat>, x: nat)
    requires x in s
    ensures exists n :: n in s && forall m | m in s :: n <= m
    decreases x
  {
    if y :| y in s && y < x {
      LeastExists(s, y);
    }
  }

  lemma {:induction false} GreatestExists(s: set<nat>)
    requires s != {}
    ensures exists n :: n in s && forall m | m in s :: m <= n
  {
    var x :| x in s;
    var rest := s - {x};
    if rest != {} {
      GreatestExists(rest);
      var hi :| hi in rest && forall m | m in rest :: m <= hi;
      var n := if x > hi then x else hi;
      assert n in s && forall m | m in s :: m <= n by {
        assert forall m | m in s :: m == x || m in rest;
      }
    } else {
      assert s == {x};
    }
  }

  function MinNonce(items: Items): (n: nat)
    requires items != map[]
    ensures n in items && forall m | m in items :: n <= m
  {
    var x :| x in items;
    LeastExists(items.Keys, x);
    var n :| n in items && forall m | m in items :: n <= m;
    n
  }

  function MaxNonce(items: Items): (n: nat)
    requires items != map[]
    ensures n in items && forall m | m in items :: m <= n
  {
    GreatestExists(items.Keys);
    var n :| n in items && forall m | m in items :: m <= n;
    n
  }

  /** The account's standing in the pool: not ready before ready before empty, cheap before dear. */
  function Rank(q: Queue): Key {
    if q.items == map[] then Key(2, 0)
    else Key(if PendingNonce(q) > q.accountNonce then 1 else 0, q.items[MinNonce(q.items)].gasFeeCap)
  }

  function NextAction(q: Queue): (bool, Option<int>) {
    if q.items == map[] then (false, None)
    else (PendingNonce(q) > q.accountNonce, Some(q.items[MinNonce(q.items)].gasFeeCap))
  }

  /** accountPriorityQueue.Less on the queues of two accounts; it is not strict on empty queues. */
  predicate Less(a: Queue, b: Queue) {
    var (aReady, aCap) := NextAction(a);
    var (bReady, bCap) := NextAction(b);
    if bCap.None? then true
    else if aCap.None? then false
    else if !aReady && bReady then true
    else if !bReady && aReady then false
    else aCap.value < bCap.value
  }

  /** Less lies between the strict and the weak order of the ranks. */
  lemma LessRespectsRank(a: Queue, b: Queue)
    ensures Less(a, b) ==> Leq(Rank(a), Rank(b))
    ensures !Less(a, b) ==> Leq(Rank(b), Rank(a))
  {
  }

  /** An account that PopPeek may take from: no account of the worker ranks before it. */
  ghost predicate IsVictim(rank: Queue -> Key, qs: map<string, Queue>, addr: string) {
    && addr in qs && qs[addr].items != map[]
    && forall a | a in qs :: Leq(rank(qs[addr]), rank(qs[a]))
  }

  /** Exactly the empty queues are in the last tier. */
  ghost predicate EmptyLast(rank: Queue -> Key) {
    forall q: Queue {:trigger rank(q)} :: rank(q).tier <= 2 && (rank(q).tier == 2 <==> q.items == map[])
  }

  function Largest(q: Queue): Action
    requires q.items != map[]
  {
    q.items[MaxNonce(q.items)]
  }

  function WithoutLargest(q: Queue): Queue
    requires q.items != map[]
  {
    Without(q, {MaxNonce(q.items)})
  }

  /** What eviction takes from a queue, and what is left. */
  ghost predicate Popped(q: Queue, act: Option<Action>, q': Queue) {
    match act
    case None => q.items == map[] && q' == q
    case Some(a) => q.items != map[] && a == Largest(q) && q' == WithoutLargest(q)
  }

  /** New confirmed state: everything below the new account nonce goes. */
  function Confirm(q: Queue, nonce: nat, balance: int): Queue {
    var gone := set n | n in q.items && n < nonce;
    Queue(q.items - gone, q.deadlines - gone, nonce, balance, q.ttl)
  }

  /** The nonces above `bound` whose deadline has passed. */
  function Expired(q: Queue, bound: nat, now: int): set<nat> {
    if q.ttl == 0 then {}
    else set n | n in q.items && n in q.deadlines && n > bound && now > q.deadlines[n]
  }

  /** UpdateAccountState followed by UpdateQueue. */
  function Refresh(q: Queue, nonce: nat, balance: int, now: int): Queue {
    var c := Confirm(q, nonce, balance);
    Without(c, Expired(c, nonce, now))
  }

  /** UpdateQueue on its own. */
  function Expire(q: Queue, now: int): Queue {
    Without(q, Expired(q, PendingNonce(q), now))
  }

  function Dropped(q: Queue, q': Queue): set<nat> {
    set n | n in q.items && n !in q'.items
  }

  /** What a confirmation and the cleaning after it give up is what a refresh drops. */
  lemma RefreshDrops(q: Queue, nonce: nat, balance: int, now: int, acts: seq<Action>, acts2: seq<Action>)
    requires Valid(q) && Lists(acts, q.items, set n | n in q.items && n < nonce)
    requires
      var c := Confirm(q, nonce, balance);
      Lists(acts2, c.items, Expired(c, nonce, now))
    ensures Lists(acts + acts2, q.items, Dropped(q, Refresh(q, nonce, balance, now)))
  {
    var r := acts + acts2;
    assert forall a | a in r :: a in acts || a in acts2;
    assert forall a | a in acts || a in acts2 :: a in r;
    forall i, j | 0 <= i < j < |r| ensures r[i].nonce != r[j].nonce {
      if i < |acts| <= j {
        assert r[i] in acts && r[j] in acts2;
      }
    }
  }

  lemma ExpireDrops(q: Queue, now: int, acts: seq<Action>)
    requires Valid(q) && Lists(acts, q.items, Expired(q, PendingNonce(q), now))
    ensures Lists(acts, q.items, Dropped(q, Expire(q, now)))
  {
    assert Dropped(q, Expire(q, now)) == Expired(q, PendingNonce(q), now);
  }

  /** The actions of the ready prefix, in nonce order. */
  function ReadyActs(q: Queue): (acts: seq<Action>)
    ensures |acts| == PendingNonce(q) - q.accountNonce
    ensures forall i | 0 <= i < |acts| :: Lookup(q.items, q.accountNonce + i) == Some(acts[i])
  {
    PrefixPresent(q.items, q.accountNonce, q.accountBalance, PendingNonce(q));
    Stretch(q.items, q.accountNonce, PendingNonce(q))
  }

  /** The actions with the nonces from `lo` to right before `hi`. */
  function Stretch(items: Items, lo: nat, hi: nat): (acts: seq<Action>)
    requires lo <= hi && forall n: nat :: lo <= n < hi ==> n in items
    ensures |acts| == hi - lo
    ensures forall i | 0 <= i < |acts| :: Lookup(items, lo + i) == Some(acts[i])
    decreases hi - lo
  {
    if lo == hi then [] else Stretch(items, lo, hi - 1) + [items[hi - 1]]
  }

  // ---------- what the operations do to the ready prefix ----------

  /** A new action extends the ready prefix exactly when it fills the gap at its end. */
  lemma NewActionAdvances(q: Queue, act: Action, now: int)
    requires Valid(q) && q.accountNonce <= act.nonce
    requires act.nonce !in q.items && PutError(q, act).None?
    ensures Valid(With(q, act, now))
    ensures PendingNonce(With(q, act, now)) >= PendingNonce(q)
    ensures PendingNonce(With(q, act, now)) > PendingNonce(q) <==> act.nonce == PendingNonce(q)
  {
    var a, b, p, q' := q.accountNonce, q.accountBalance, PendingNonce(q), With(q, act, now);
    PrefixPresent(q.items, a, b, p);
    AffordableFrame(q.items, q'.items, a, b, p);
    AffordableIsInside(q'.items, a, b, p, PendingNonce(q'));
    if act.nonce == p {
      AcceptedIsReady(q, act, now);
    } else {
      ReadyEndUnique(q'.items, a, b, p, PendingNonce(q'));
    }
  }

  /** An accepted action at or below the end of the ready prefix is itself ready. */
  lemma AcceptedIsReady(q: Queue, act: Action, now: int)
    requires Valid(q) && q.accountNonce <= act.nonce <= PendingNonce(q)
    requires PutError(q, act).None?
    ensures PendingNonce(With(q, act, now)) > act.nonce
  {
    var a, b, n, items := q.accountNonce, q.accountBalance, act.nonce, q.items[act.nonce := act];
    assert BalanceAt(q, n) == b - Spent(q.items, a, n);
    assert Affordable(q.items, a, b, n);
    AffordableFrame(q.items, items, a, b, n);
    assert items[n].cost <= b - Spent(items, a, n);
    assert Affordable(items, a, b, n + 1);
    AffordableIsInside(items, a, b, n + 1, ReadyEnd(items, a, b));
  }

  /** Evicting the largest nonce cuts the ready prefix there, and nowhere else. */
  lemma EvictionCuts(q: Queue)
    requires Valid(q) && q.items != map[]
    ensures
      var n, p := MaxNonce(q.items), PendingNonce(q);
      PendingNonce(Without(q, {n})) == if n < p then n else p
  {
    var n, p := MaxNonce(q.items), PendingNonce(q);
    var q' := Without(q, {n});
    var e := if n < p then n else p;
    AffordableFrame(q.items, q'.items, q.accountNonce, q.accountBalance, e);
    ReadyEndUnique(q'.items, q.accountNonce, q.accountBalance, e, PendingNonce(q'));
  }

  /** Expiry on its own never touches the ready prefix. */
  lemma ExpiryKeepsReady(q: Queue, now: int)
    requires Valid(q)
    ensures Valid(Expire(q, now))
    ensures PendingNonce(Expire(q, now)) == PendingNonce(q)
    ensures ReadyActs(Expire(q, now)) == ReadyActs(q)
  {
    var p, q' := PendingNonce(q), Expire(q, now);
    AffordableFrame(q.items, q'.items, q.accountNonce, q.accountBalance, p);
    ReadyEndUnique(q'.items, q.accountNonce, q.accountBalance, p, PendingNonce(q'));
  }

  /**
   After a new confirmed state it may: nonces are cleaned while the pending nonce still stands at
   the new account nonce. The ready prefix comes back whole exactly when no action inside it has
   expired, the first one excepted.
   */
  lemma ExpiryAtConfirmation(q: Queue, nonce: nat, balance: int, now: int)
    ensures
      var c, r := Confirm(q, nonce, balance), Refresh(q, nonce, balance, now);
      && PendingNonce(r) <= PendingNonce(c)
      && (PendingNonce(r) == PendingNonce(c) <==> forall n | n in Expired(c, nonce, now) :: n >= PendingNonce(c))
  {
    var c, r := Confirm(q, nonce, balance), Refresh(q, nonce, balance, now);
    var p, e, gone := PendingNonce(c), PendingNonce(r), Expired(c, nonce, now);
    PrefixPresent(r.items, nonce, balance, e);
    if e > p {
      AffordableFrame(r.items, c.items, nonce, balance, e);
      AffordableIsInside(c.items, nonce, balance, e, p);
    }
    if (forall n | n in gone :: n >= p) && e < p {
      AffordableFrame(c.items, r.items, nonce, balance, p);
      AffordableIsInside(r.items, nonce, balance, p, e);
    }
  }

  // ---------- a ready action that expires ----------

  /** A free action of one account. */
  function FreeAct(nonce: nat): Action {
    Action(nonce, "a", nonce, 0, 1, 0, 0, 0, false, None)
  }

  /**
   At any nonce n, lifetime and time: the action at n + 1 comes first and waits; with n and n + 2 all
   three are ready, and a cleaning keeps them. Once n + 1 has expired, a confirmation that changes
   nothing takes it out and leaves one ready action.
   */
  lemma ReadyActionExpires(n: nat, ttl: int, now: int) returns (q1: Queue, q2: Queue, q: Queue)
    requires ttl > 0
    ensures PutError(Empty(n, 0, ttl), FreeAct(n + 1)).None? &&
            q1 == With(Empty(n, 0, ttl), FreeAct(n + 1), now - ttl - 1)
    ensures PutError(q1, FreeAct(n)).None? && q2 == With(q1, FreeAct(n), now - 1)
    ensures PutError(q2, FreeAct(n + 2)).None? && q == With(q2, FreeAct(n + 2), now - 1)
    ensures Valid(q) && PendingNonce(q) == PendingNonce(Expire(q, now)) == n + 3
    ensures PendingNonce(Refresh(q, q.accountNonce, q.accountBalance, now)) == n + 1
  {
    var q0 := Empty(n, 0, ttl);
    q1 := With(q0, FreeAct(n + 1), now - ttl - 1);
    q2 := With(q1, FreeAct(n), now - 1);
    q := With(q2, FreeAct(n + 2), now - 1);
    FreeIsAccepted(q0, FreeAct(n + 1), now - ttl - 1);
    FreeIsAccepted(q1, FreeAct(n), now - 1);
    FreeIsAccepted(q2, FreeAct(n + 2), now - 1);
    FreeUpToGap(q.items, n, 0, n + 3);
    ExpiryKeepsReady(q, now);
    SecondExpires(q, now);
  }

  lemma FreeIsAccepted(q: Queue, act: Action, now: int)
    requires q.accountBalance >= 0 && CostNothing(q.items)
    requires act.cost == 0 && act.nonce !in q.items
    ensures PutError(q, act).None? && CostNothing(With(q, act, now).items)
  {
    var p := PendingNonce(q);
    FreeIsUnspent(q.items, q.accountNonce, if act.nonce > p then p else act.nonce);
  }

  /** An expired second action goes, and the first one is left as the only ready one. */
  lemma SecondExpires(q: Queue, now: int)
    requires Valid(q) && q.accountBalance >= 0 && CostNothing(q.items) && q.ttl != 0
    requires q.accountNonce in q.items && q.accountNonce + 1 in q.items && now > q.deadlines[q.accountNonce + 1]
    ensures PendingNonce(Refresh(q, q.accountNonce, q.accountBalance, now)) == q.accountNonce + 1
  {
    var r := Refresh(q, q.accountNonce, q.accountBalance, now);
    FreeUpToGap(r.items, q.accountNonce, q.accountBalance, q.accountNonce + 1);
  }
}
