/**
 What an Add comes to, said of the request, the indexed actions and the queues alone: when it is
 screened out, when it is turned away and with which error, whom a full pool evicts from, and what is
 queued afterwards.
 */
module PoolRules {
  import opened Actions
  import opened ReadyPrefix
  import opened AccountQueue
  import opened QueueRules
  import opened PoolBooks
  import opened PoolModel
  import opened PoolRuns
  import opened PoolOverflow

  // ---------- the screening ----------

  /** The sender has as many blob transactions in the pool as one may have. */
  ghost predicate BlobsExhausted(cfg: Config, b: Books, sender: string) {
    |BlobsOf(b.all.Values, sender)| >= cfg.maxBlobs
  }

  ghost predicate Underpriced(cfg: Config, r: Request) {
    !r.unprotected && r.act.gasFeeCap < cfg.minGasPrice
  }

  /** A request gets past the screening if and only if nothing is wrong with it; the first fault decides the error. */
  lemma ScreenMeans(cfg: Config, b: Books, r: Request)
    requires Balanced(b)
    ensures
      var known, blobs := r.act.hash in b.all, r.act.isBlob && BlobsExhausted(cfg, b, r.act.sender);
      && (Screen(cfg, b, r) == None <==>
            && !r.isSystem && !r.badData && !known && !Underpriced(cfg, r) && !r.blacklisted && !blobs
            && r.externallyValid && r.act.gas <= cfg.maxGas)
      && (r.isSystem || r.badData ==> Screen(cfg, b, r) == Some(ErrInvalidAct))
      && (!r.isSystem && !r.badData ==>
            && (known ==> Screen(cfg, b, r) == Some(ErrExistedInPool))
            && (!known && Underpriced(cfg, r) ==> Screen(cfg, b, r) == Some(ErrUnderpriced))
            && (!known && !Underpriced(cfg, r) ==>
                  && (r.blacklisted ==> Screen(cfg, b, r) == Some(ErrAddress))
                  && (!r.blacklisted && blobs ==> Screen(cfg, b, r) == Some(ErrNonceTooHigh))
                  && (!r.blacklisted && !blobs && !r.externallyValid ==> Screen(cfg, b, r) == Some(ErrValidation))
                  && (!r.blacklisted && !blobs && r.externallyValid && r.act.gas > cfg.maxGas ==>
                        Screen(cfg, b, r) == Some(ErrGasTooHigh))))
  {
    assert CountOf(b.blobs, r.act.sender) == |BlobsOf(b.all.Values, r.act.sender)|;
  }

  /** A pool is full if and only if the new gas does not fit, or there are as many actions as there may be. */
  lemma FullMeans(cfg: Config, b: Books, act: Action)
    requires Balanced(b) && GasOf(b.all.Values) < TWO_64
    ensures IsFull(cfg, b, act) <==> GasOf(b.all.Values) + act.gas > cfg.maxGas || |b.all| >= cfg.maxActs
  {
  }

  // ---------- the checks against the account ----------

  /** All nonces below n are ready. */
  ghost predicate ReadyBelow(q: Queue, n: nat) {
    n <= q.accountNonce || PaidThrough(q.items, q.accountNonce, q.accountBalance, n - 1)
  }

  /**
   The checks against a sender's account, in their order: the nonce is neither used up nor too far
   ahead, a blob transaction leaves no gap, the balance covers the cost, and the queue takes it.
   */
  lemma RejectMeans(cfg: Config, qs: map<string, Queue>, r: Request)
    requires !r.cancelled && (r.act.sender in qs || r.confirmed.Some?)
    ensures
      var q := if r.act.sender in qs then qs[r.act.sender]
               else Queue(map[], map[], r.confirmed.value.nonce, r.confirmed.value.balance, cfg.ttl);
      var ahead := r.act.nonce - q.accountNonce;
      && Target(cfg, qs, r) == q
      && (ahead < 0 ==> Reject(cfg, qs, r) == Some(ErrNonceTooLow))
      && (ahead >= 0 && (ahead >= cfg.maxPerAccount || (r.act.isBlob && !ReadyBelow(q, r.act.nonce))) ==>
            Reject(cfg, qs, r) == Some(ErrNonceTooHigh))
      && (0 <= ahead < cfg.maxPerAccount && (r.act.isBlob ==> ReadyBelow(q, r.act.nonce)) ==>
            Reject(cfg, qs, r) ==
            if r.act.cost > q.accountBalance then Some(ErrInsufficientFunds) else PutError(q, r.act))
  {
    var q := Target(cfg, qs, r);
    var p := PendingNonce(q);
    if q.accountNonce < r.act.nonce {
      ReadyMeans(q.items, q.accountNonce, q.accountBalance, r.act.nonce - 1);
    }
    assert r.act.nonce >= q.accountNonce ==> (r.act.nonce <= p <==> ReadyBelow(q, r.act.nonce));
  }

  /** A request that is cancelled, or whose sender is unknown, gets no further. */
  lemma RejectEarly(cfg: Config, qs: map<string, Queue>, r: Request)
    requires r.cancelled || (r.act.sender !in qs && r.confirmed.None?)
    ensures Reject(cfg, qs, r) == Some(if r.cancelled then ErrCancelled else ErrStateRead)
  {
  }

  // ---------- what is queued afterwards ----------

  /** The queued action with the greatest nonce. */
  ghost predicate LastOf(q: Queue, x: Action) {
    x.nonce in q.items && q.items[x.nonce] == x && forall n | n in q.items :: n <= x.nonce
  }

  lemma LargestIsLast(q: Queue, x: Action)
    requires Valid(q) && q.items != map[]
    ensures LastOf(q, x) <==> x == Largest(q)
  {
  }

  /** A full pool evicts from an account with actions that no other account of the worker goes before. */
  lemma EvictionMeans(cfg: Config, p: Pool, r: Request, now: int, p': Pool, res: Option<Error>, victim: string)
    requires Accepts(cfg, p, r) && Added(cfg, p, r, now, p', res, victim) && IsFull(cfg, p.books, r.act)
    ensures
      var qs := GrownQueues(cfg, p, r, now);
      && victim in qs && qs[victim].items != map[]
      && forall a | a in qs && qs[a].items != map[] :: NoLater(qs[victim], qs[a])
  {
    VictimMeans(GrownQueues(cfg, p, r, now), victim);
  }

  /** Accepting an action, before any eviction. */
  lemma AcceptedQueued(p: Pool, q: Queue, act: Action, now: int, books: Books, x: Action)
    requires IsTarget(p, act.sender, q) && q.accountNonce <= act.nonce
    ensures IsQueued(WithQueue(p, act.sender, With(q, act, now), books), x) <==>
              x == act || (IsQueued(p, x) && !(x.sender == act.sender && x.nonce == act.nonce))
  {
  }

  /** Settling takes the last action of the victim, if the pool was full, and no other. */
  lemma SettledQueued(p: Pool, stray: set<Action>, w: nat, full: bool, sender: string, nonce: nat,
                      p': Pool, res: Option<Error>, victim: string, x: Action)
    requires Conserved(p, stray) && w < |p.workers| && SameElsewhere(p, w, p')
    requires Settled(Rank, p.workers[w], p.books, full, sender, nonce, p'.workers[w], p'.books, res, victim)
    ensures IsQueued(p', x) <==> IsQueued(p, x) && !(full && x == Largest(p.workers[w][victim]))
  {
    if full {
      var q := p.workers[w][victim];
      var act := Largest(q);
      assert QueueOk(p.books.all, victim, q) && p.route(victim) == w;
      assert act.sender == victim && act.nonce == MaxNonce(q.items);
      WithoutQueued(p.workers[w], victim, act, x);
      CleanedQueued(p.workers[w][victim := WithoutLargest(q)], p'.workers[w], x);
    } else {
      CleanedQueued(p.workers[w], p'.workers[w], x);
    }
  }

  ghost predicate Holds(qs: map<string, Queue>, x: Action) {
    x.sender in qs && Lookup(qs[x.sender].items, x.nonce) == Some(x)
  }

  lemma CleanedQueued(qs: map<string, Queue>, qs': map<string, Queue>, x: Action)
    requires Cleaned(qs, qs')
    ensures Holds(qs', x) <==> Holds(qs, x)
  {
  }

  lemma WithoutQueued(qs: map<string, Queue>, addr: string, act: Action, x: Action)
    requires addr in qs && qs[addr].items != map[] && act == Largest(qs[addr])
    requires act.sender == addr && act.nonce == MaxNonce(qs[addr].items)
    ensures Holds(qs[addr := WithoutLargest(qs[addr])], x) <==> Holds(qs, x) && x != act
  {
  }

  /**
   After an accepted Add exactly these actions are queued: the new one, and the old ones but for one it
   replaces; less, if the pool was full, the last action of the account that is evicted from.
   */
  lemma AddMeans(cfg: Config, p: Pool, stray: set<Action>, r: Request, now: int,
                 p': Pool, res: Option<Error>, victim: string, x: Action)
    requires Safe(cfg, p, stray) && Accepts(cfg, p, r) && Added(cfg, p, r, now, p', res, victim)
    ensures IsQueued(p', x) <==>
              && (x == r.act || (IsQueued(p, x) && !(x.sender == r.act.sender && x.nonce == r.act.nonce)))
              && !(IsFull(cfg, p.books, r.act) &&
                   victim in GrownQueues(cfg, p, r, now) && LastOf(GrownQueues(cfg, p, r, now)[victim], x))
  {
    var w := p.route(r.act.sender);
    var q := Target(cfg, p.workers[w], r);
    var full := IsFull(cfg, p.books, r.act);
    if r.act.sender in p.workers[w] {
      assert QueueOk(p.books.all, r.act.sender, q);
    }
    var p1 := AcceptStep(cfg, p, stray, r, now);
    AcceptedQueued(p, q, r.act, now, p1.books, x);
    SettledQueued(p1, stray, w, full, r.act.sender, q.accountNonce, p', res, victim, x);
    if full {
      var qs := GrownQueues(cfg, p, r, now);
      assert p1.workers[w] == qs && QueueOk(p1.books.all, victim, p1.workers[w][victim]);
      LargestIsLast(qs[victim], x);
    }
  }
}
