/**
 What the definitions of `AccountQueue` come to, said of items, deadlines, nonces, costs and fee caps
 alone: which actions are ready, which are accepted, which account is evicted from, and what a
 confirmation, a cleaning, a Put and an eviction leave.
 */
module QueueRules {
  import opened Actions
  import opened HeapOrder
  import opened ReadyPrefix
  import opened AccountQueue

  // ---------- which actions are ready ----------

  /** The total cost of the actions at some nonces. */
  ghost function CostOf(items: Items, ns: set<nat>): int
    requires ns <= items.Keys
  {
    if ns == {} then 0
    else
      var n :| n in ns;
      items[n].cost + CostOf(items, ns - {n})
  }

  lemma {:induction false} CostOfRemove(items: Items, ns: set<nat>, n: nat)
    requires ns <= items.Keys && n in ns
    ensures CostOf(items, ns) == items[n].cost + CostOf(items, ns - {n})
    decreases ns
  {
    var m :| m in ns && CostOf(items, ns) == items[m].cost + CostOf(items, ns - {m});
    if m != n {
      CostOfRemove(items, ns - {m}, n);
      CostOfRemove(items, ns - {n}, m);
      assert ns - {m} - {n} == ns - {n} - {m};
    }
  }

  /** The queued nonces from `a` up to, and not including, `k`. */
  ghost function Between(items: Items, a: nat, k: nat): (ns: set<nat>)
    ensures ns <= items.Keys
  {
    set n | n in items && a <= n < k
  }

  /** What is spent before nonce k is what the queued actions before it cost, each counted once. */
  lemma {:induction false} SpentIsCost(items: Items, a: nat, k: nat)
    ensures Spent(items, a, k) == CostOf(items, Between(items, a, k))
    decreases k
  {
    if a < k {
      SpentIsCost(items, a, k - 1);
      if k - 1 in items {
        CostOfRemove(items, Between(items, a, k), k - 1);
        assert Between(items, a, k) - {k - 1} == Between(items, a, k - 1);
      } else {
        assert Between(items, a, k) == Between(items, a, k - 1);
      }
    } else {
      assert Between(items, a, k) == {};
    }
  }

  /** All nonces from `a` to `n` are queued, and the balance pays for them one after the other. */
  ghost predicate PaidThrough(items: Items, a: nat, balance: int, n: nat) {
    forall k | a <= k <= n :: k in items && CostOf(items, Between(items, a, k + 1)) <= balance
  }

  /** A nonce is ready if and only if all nonces up to it are queued and paid for. */
  lemma ReadyMeans(items: Items, a: nat, balance: int, n: nat)
    requires a <= n
    ensures n < ReadyEnd(items, a, balance) <==> PaidThrough(items, a, balance, n)
  {
    var p := ReadyEnd(items, a, balance);
    forall k | a <= k <= n
      ensures Pays(items, a, balance, k) <==> k in items && CostOf(items, Between(items, a, k + 1)) <= balance
    {
      SpentIsCost(items, a, k + 1);
    }
    if PaidThrough(items, a, balance, n) {
      assert Affordable(items, a, balance, n + 1);
      AffordableIsInside(items, a, balance, n + 1, p);
    }
  }

  /** The account's next action is queued, and the balance covers it. */
  ghost predicate FirstReady(q: Queue) {
    q.accountNonce in q.items && q.items[q.accountNonce].cost <= q.accountBalance
  }

  lemma FirstReadyMeans(q: Queue)
    ensures PendingNonce(q) > q.accountNonce <==> FirstReady(q)
  {
    if FirstReady(q) {
      assert Pays(q.items, q.accountNonce, q.accountBalance, q.accountNonce);
    }
    if PendingNonce(q) > q.accountNonce {
      assert Pays(q.items, q.accountNonce, q.accountBalance, q.accountNonce);
    }
  }

  // ---------- which actions are accepted ----------

  /** What the ready actions below a nonce cost. */
  ghost function Committed(q: Queue, n: nat): int {
    var p := ReadyEnd(q.items, q.accountNonce, q.accountBalance);
    CostOf(q.items, Between(q.items, q.accountNonce, if n < p then n else p))
  }

  /**
   An action is turned away for want of funds if and only if what the ready actions below it leave of
   the balance does not cover it. If it does, a free nonce is accepted; at a taken one the new action
   has to offer more if the old one is ready, and to double all three caps of a blob transaction,
   which only another blob transaction can replace.
   */
  lemma PutErrorMeans(q: Queue, act: Action)
    requires q.accountNonce <= act.nonce
    ensures
      var covered := act.cost <= q.accountBalance - Committed(q, act.nonce);
      && (PutError(q, act) == Some(ErrInsufficientFunds) <==> !covered)
      && (covered && act.nonce !in q.items ==> PutError(q, act) == None)
      && (covered && act.nonce in q.items ==>
            var prev := q.items[act.nonce];
            var outbids := act.nonce < ReadyEnd(q.items, q.accountNonce, q.accountBalance) ==>
                             act.gasFeeCap > prev.gasFeeCap;
            var doubles := prev.isBlob ==>
                             && act.isBlob && act.gasFeeCap >= 2 * prev.gasFeeCap
                             && act.gasTipCap >= 2 * prev.gasTipCap && act.blobGasFeeCap >= 2 * prev.blobGasFeeCap;
            PutError(q, act) == if outbids && doubles then None else Some(ErrReplaceUnderpriced))
  {
    var p := ReadyEnd(q.items, q.accountNonce, q.accountBalance);
    SpentIsCost(q.items, q.accountNonce, if act.nonce < p then act.nonce else p);
    assert BalanceAt(q, act.nonce) == q.accountBalance - Committed(q, act.nonce);
  }

  /** So a replacement of a ready action never lowers its fee cap, and a blob transaction stays one. */
  lemma ReplacementOutbids(q: Queue, act: Action)
    requires q.accountNonce <= act.nonce && act.nonce in q.items && PutError(q, act).None?
    ensures PaidThrough(q.items, q.accountNonce, q.accountBalance, act.nonce) ==>
              act.gasFeeCap > q.items[act.nonce].gasFeeCap
    ensures q.items[act.nonce].isBlob ==> act.isBlob
  {
    PutErrorMeans(q, act);
    ReadyMeans(q.items, q.accountNonce, q.accountBalance, act.nonce);
  }

  // ---------- which account is evicted from ----------

  ghost predicate IsLeast(q: Queue, n: nat) {
    n in q.items && forall m | m in q.items :: n <= m
  }

  /** The fee cap of the least queued nonce. */
  ghost function FirstCap(q: Queue): int
    requires q.items != map[]
  {
    assert IsLeast(q, MinNonce(q.items));
    var n :| IsLeast(q, n);
    q.items[n].gasFeeCap
  }

  lemma FirstCapIs(q: Queue)
    requires q.items != map[]
    ensures FirstCap(q) == q.items[MinNonce(q.items)].gasFeeCap
  {
    assert IsLeast(q, MinNonce(q.items));
  }

  lemma NextActionMeans(q: Queue)
    ensures NextAction(q) == if q.items == map[] then (false, None) else (FirstReady(q), Some(FirstCap(q)))
  {
    FirstReadyMeans(q);
    if q.items != map[] {
      FirstCapIs(q);
    }
  }

  /** An account that is not ready goes before one that is; among equals the lower fee cap goes first. */
  ghost predicate NoLater(a: Queue, b: Queue)
    requires a.items != map[] && b.items != map[]
  {
    || (!FirstReady(a) && FirstReady(b))
    || ((FirstReady(a) <==> FirstReady(b)) && FirstCap(a) <= FirstCap(b))
  }

  /** The account has actions, and no account with actions goes before it. */
  ghost predicate GoesFirst(qs: map<string, Queue>, v: string) {
    && v in qs && qs[v].items != map[]
    && forall a | a in qs && qs[a].items != map[] :: NoLater(qs[v], qs[a])
  }

  /** These are the accounts that may be evicted from. */
  lemma VictimMeans(qs: map<string, Queue>, v: string)
    ensures IsVictim(Rank, qs, v) <==> GoesFirst(qs, v)
  {
    forall a | a in qs && v in qs && qs[v].items != map[]
      ensures Leq(Rank(qs[v]), Rank(qs[a])) <==> (qs[a].items != map[] ==> NoLater(qs[v], qs[a]))
    {
      NextActionMeans(qs[v]);
      NextActionMeans(qs[a]);
    }
  }

  /** Less, with its answers for empty queues: anything is less than an empty one. */
  lemma LessMeans(a: Queue, b: Queue)
    ensures Less(a, b) <==>
              || b.items == map[]
              || (a.items != map[] &&
                  (if FirstReady(a) == FirstReady(b) then FirstCap(a) < FirstCap(b) else FirstReady(b)))
  {
    NextActionMeans(a);
    NextActionMeans(b);
  }

  // ---------- what the operations leave ----------

  /** A Put enters the action with its lifetime and leaves everything else alone. */
  lemma WithMeans(q: Queue, act: Action, now: int)
    ensures
      var r := With(q, act, now);
      && r.accountNonce == q.accountNonce && r.accountBalance == q.accountBalance && r.ttl == q.ttl
      && (forall n :: n in r.items <==> n in q.items || n == act.nonce)
      && (forall n | n in r.items :: r.items[n] == if n == act.nonce then act else q.items[n])
      && (forall n :: n in r.deadlines <==> n in q.deadlines || n == act.nonce)
      && forall n | n in r.deadlines :: r.deadlines[n] == if n == act.nonce then now + q.ttl else q.deadlines[n]
  {
  }

  /** Eviction takes exactly the greatest nonce. */
  lemma EvictionMeans(q: Queue)
    requires Valid(q) && q.items != map[]
    ensures
      var act, r := Largest(q), WithoutLargest(q);
      && act.nonce in q.items && q.items[act.nonce] == act && (forall n | n in q.items :: n <= act.nonce)
      && r.accountNonce == q.accountNonce && r.accountBalance == q.accountBalance && r.ttl == q.ttl
      && r.items.Keys == q.items.Keys - {act.nonce} && Remain(q, r)
  {
  }

  /** What is left is as it was. */
  ghost predicate Remain(q: Queue, r: Queue) {
    && r.deadlines.Keys == r.items.Keys
    && forall n | n in r.items ::
         n in q.items && n in q.deadlines && r.items[n] == q.items[n] && r.deadlines[n] == q.deadlines[n]
  }

  /** A lifetime of zero is none; otherwise an action is too old once its deadline has passed. */
  ghost predicate TooOld(q: Queue, n: nat, now: int)
    requires n in q.deadlines
  {
    q.ttl != 0 && q.deadlines[n] < now
  }

  /**
   A refresh takes over the confirmed nonce and balance. What is below the nonce goes, and above it
   what is too old; the nonce itself stays, however old.
   */
  lemma RefreshMeans(q: Queue, nonce: nat, balance: int, now: int)
    requires Valid(q)
    ensures
      var r := Refresh(q, nonce, balance, now);
      && r.accountNonce == nonce && r.accountBalance == balance && r.ttl == q.ttl && Remain(q, r)
      && (forall n :: n in r.items <==> n in q.items && n >= nonce && (n > nonce ==> !TooOld(q, n, now)))
      && forall n | n >= nonce :: n < PendingNonce(r) <==> PaidThrough(r.items, nonce, balance, n)
  {
    var r := Refresh(q, nonce, balance, now);
    forall n | n >= nonce ensures n < PendingNonce(r) <==> PaidThrough(r.items, nonce, balance, n) {
      ReadyMeans(r.items, nonce, balance, n);
    }
  }

  /** A cleaning takes what is too old beyond the first nonce that is not ready, and nothing else. */
  lemma ExpireMeans(q: Queue, now: int)
    requires Valid(q)
    ensures
      var r := Expire(q, now);
      && r.accountNonce == q.accountNonce && r.accountBalance == q.accountBalance && r.ttl == q.ttl && Remain(q, r)
      && forall n :: n in r.items <==> n in q.items && (n > PendingNonce(q) ==> !TooOld(q, n, now))
  {
  }

  /** An accepted action is cleaned away if and only if it waits behind a gap for longer than its lifetime. */
  lemma AcceptedLives(q: Queue, act: Action, now: int, later: int)
    requires Valid(q) && q.accountNonce <= act.nonce
    ensures
      var r := With(q, act, now);
      act.nonce !in Expire(r, later).items <==> q.ttl != 0 && act.nonce > PendingNonce(r) && later - now > q.ttl
  {
    ExpireMeans(With(q, act, now), later);
  }

  /** A new queue is empty and has the account state and the lifetime it is given. */
  lemma EmptyMeans(nonce: nat, balance: int, ttl: int)
    ensures
      var q := Empty(nonce, balance, ttl);
      q.items == map[] && q.deadlines == map[] && q.accountNonce == nonce && q.accountBalance == balance && q.ttl == ttl
  {
  }
}
