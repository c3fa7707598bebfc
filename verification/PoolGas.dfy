/**
 The gas in the pool. A full pool gives up one action for the one it takes in, whatever the gas of
 the two, so the configured total is a threshold and not a limit.
 */
module PoolGas {
  import opened Actions
  import opened HeapOrder
  import opened AccountQueue
  import opened PoolBooks
  import opened PoolModel
  import opened PoolRuns
  import opened PoolOverflow
  import opened ReadyPrefix

  ghost function GasIn(b: Books): nat {
    GasOf(b.all.Values)
  }

  function GasOfReplaced(q: Queue, act: Action): nat {
    match Replaced(q, act)
    case Some(prev) => prev.gas
    case None => 0
  }

  lemma GasEntered(b: Books, act: Action)
    requires Balanced(b) && act.hash !in b.all
    ensures GasIn(Enter(b, act)) == GasIn(b) + act.gas
  {
    EnterBalances(b, act);
    assert act !in b.all.Values;
    GasOfRemove(b.all.Values + {act}, act);
    assert b.all.Values + {act} - {act} == b.all.Values;
  }

  lemma GasLeft(b: Books, act: Action)
    requires Balanced(b) && Indexed(b.all, act)
    ensures GasIn(Leave(b, act)) + act.gas == GasIn(b)
  {
    LeaveBalances(b, act);
    GasOfRemove(b.all.Values, act);
  }

  lemma GasAccepted(b: Books, q: Queue, act: Action)
    requires Balanced(b) && act.hash !in b.all
    requires Replaced(q, act).Some? ==> Indexed(b.all, Replaced(q, act).value)
    ensures GasIn(AcceptBooks(b, Replaced(q, act), act)) + GasOfReplaced(q, act) == GasIn(b) + act.gas
  {
    match Replaced(q, act)
    case Some(prev) =>
      LeaveBalances(b, prev);
      GasLeft(b, prev);
      GasEntered(Leave(b, prev), act);
    case None =>
      GasEntered(b, act);
  }

  lemma GasSettled(p: Pool, stray: set<Action>, w: nat, full: bool, sender: string, nonce: nat,
                   qs': map<string, Queue>, b': Books, res: Option<Error>, victim: string)
    requires Conserved(p, stray) && w < |p.workers|
    requires Settled(Rank, p.workers[w], p.books, full, sender, nonce, qs', b', res, victim)
    ensures !full ==> b' == p.books
    ensures full ==> IsVictim(Rank, p.workers[w], victim) &&
                     GasIn(b') + Largest(p.workers[w][victim]).gas == GasIn(p.books)
  {
    if full {
      var q := p.workers[w][victim];
      assert QueueOk(p.books.all, victim, q);
      GasLeft(p.books, Largest(q));
    }
  }

  /** The gas after an accepted Add: the new action's comes in, the replaced and the evicted one's go. */
  lemma GasAfterAdd(cfg: Config, p: Pool, stray: set<Action>, r: Request, now: int,
                    p': Pool, res: Option<Error>, victim: string)
    requires Safe(cfg, p, stray) && Accepts(cfg, p, r) && Added(cfg, p, r, now, p', res, victim)
    ensures
      var gas := GasIn(p.books) + r.act.gas - GasOfReplaced(Target(cfg, p.workers[p.route(r.act.sender)], r), r.act);
      if IsFull(cfg, p.books, r.act) then
        IsVictim(Rank, GrownQueues(cfg, p, r, now), victim) &&
        GasIn(p'.books) == gas - Largest(GrownQueues(cfg, p, r, now)[victim]).gas
      else GasIn(p'.books) == gas
  {
    var w := p.route(r.act.sender);
    var q := Target(cfg, p.workers[w], r);
    if r.act.sender in p.workers[w] {
      assert QueueOk(p.books.all, r.act.sender, q);
    }
    GasAccepted(p.books, q, r.act);
    var p1 := AcceptStep(cfg, p, stray, r, now);
    GasSettled(p1, stray, w, IsFull(cfg, p.books, r.act), r.act.sender, q.accountNonce,
               p'.workers[w], p'.books, res, victim);
  }

  /** Below 2^64 the counter is the gas in the pool. */
  lemma CounterIsGas(b: Books)
    requires Balanced(b) && GasIn(b) < TWO_64
    ensures b.gas == GasIn(b)
  {
  }

  /** The gas that an accepted Add ends with if `victim` gives up an action. */
  ghost function GasWithout(cfg: Config, p: Pool, r: Request, now: int, victim: string): int
    requires Accepts(cfg, p, r) && IsVictim(Rank, GrownQueues(cfg, p, r, now), victim)
  {
    GasIn(p.books) + r.act.gas
    - GasOfReplaced(Target(cfg, p.workers[p.route(r.act.sender)], r), r.act)
    - Largest(GrownQueues(cfg, p, r, now)[victim]).gas
  }

  /** An account of least rank whose action does not make enough room. */
  ghost predicate Cramped(cfg: Config, p: Pool, r: Request, now: int, victim: string)
    requires Accepts(cfg, p, r)
  {
    IsVictim(Rank, GrownQueues(cfg, p, r, now), victim) && GasWithout(cfg, p, r, now, victim) > cfg.maxGas
  }

  /** An account of least rank whose action makes enough room. */
  ghost predicate Roomy(cfg: Config, p: Pool, r: Request, now: int, victim: string)
    requires Accepts(cfg, p, r)
  {
    IsVictim(Rank, GrownQueues(cfg, p, r, now), victim) && GasWithout(cfg, p, r, now, victim) <= cfg.maxGas
  }

  /** An outcome of Add with more, respectively no more, gas than the limit. */
  ghost predicate EndsAbove(cfg: Config, p: Pool, r: Request, now: int) {
    exists p', res, victim :: Added(cfg, p, r, now, p', res, victim) && GasIn(p'.books) > cfg.maxGas
  }

  ghost predicate EndsWithin(cfg: Config, p: Pool, r: Request, now: int) {
    exists p', res, victim :: Added(cfg, p, r, now, p', res, victim) && GasIn(p'.books) <= cfg.maxGas
  }

  /**
   From a pool within the gas limit an accepted Add may end above it if and only if the pool is full
   and some account of least rank gives too little; it may stay within it if and only if the pool is
   not full or some account of least rank gives enough.
   */
  lemma WhenGasLimitHolds(cfg: Config, p: Pool, stray: set<Action>, r: Request, now: int)
    requires Safe(cfg, p, stray) && Accepts(cfg, p, r) && GasIn(p.books) <= cfg.maxGas
    ensures EndsAbove(cfg, p, r, now) <==>
              IsFull(cfg, p.books, r.act) && exists v :: Cramped(cfg, p, r, now, v)
    ensures EndsWithin(cfg, p, r, now) <==>
              !IsFull(cfg, p.books, r.act) || exists v :: Roomy(cfg, p, r, now, v)
  {
    var full := IsFull(cfg, p.books, r.act);
    forall p', res, victim | Added(cfg, p, r, now, p', res, victim)
      ensures !full ==> GasIn(p'.books) <= cfg.maxGas
      ensures full ==> if GasIn(p'.books) > cfg.maxGas then Cramped(cfg, p, r, now, victim)
                       else Roomy(cfg, p, r, now, victim)
    {
      GasOutcome(cfg, p, stray, r, now, p', res, victim);
    }
    if full {
      forall v | Cramped(cfg, p, r, now, v) ensures EndsAbove(cfg, p, r, now) {
        var p', res := VictimOutcome(cfg, p, r, now, v);
        GasOutcome(cfg, p, stray, r, now, p', res, v);
      }
      forall v | Roomy(cfg, p, r, now, v) ensures EndsWithin(cfg, p, r, now) {
        var p', res := VictimOutcome(cfg, p, r, now, v);
        GasOutcome(cfg, p, stray, r, now, p', res, v);
      }
    } else {
      var p', res, victim := AddCompletes(cfg, p, r, now);
    }
  }

  /** One outcome, in terms of its victim. */
  lemma GasOutcome(cfg: Config, p: Pool, stray: set<Action>, r: Request, now: int,
                   p': Pool, res: Option<Error>, victim: string)
    requires Safe(cfg, p, stray) && Accepts(cfg, p, r) && Added(cfg, p, r, now, p', res, victim)
    requires GasIn(p.books) <= cfg.maxGas
    ensures !IsFull(cfg, p.books, r.act) ==> GasIn(p'.books) <= cfg.maxGas
    ensures IsFull(cfg, p.books, r.act) ==>
              IsVictim(Rank, GrownQueues(cfg, p, r, now), victim) &&
              GasIn(p'.books) == GasWithout(cfg, p, r, now, victim)
  {
    GasAfterAdd(cfg, p, stray, r, now, p', res, victim);
    CounterIsGas(p.books);
  }

  // ---------- a run that ends above the gas limit ----------

  const GAS_CONFIG: Config := Config(10, 10, 10, 0, 0, 0)

  function GasRequest(hash: Hash, sender: string, first: nat, nonce: nat, gas: U64, cap: nat): Request {
    Request(Action(hash, sender, nonce, 0, gas, cap, 0, 0, false, None),
            false, false, false, false, true, false, Some(Account(first, 0)))
  }

  /** A free action at a free nonce is accepted. */
  lemma GasAccepts(p: Pool, r: Request, hash: Hash, sender: string, first: nat, nonce: nat, gas: U64, cap: nat)
    requires r == GasRequest(hash, sender, first, nonce, gas, cap) && gas <= 10 && first <= nonce < first + 10
    requires p.route(sender) < |p.workers| && hash !in p.books.all
    requires
      var qs := p.workers[p.route(sender)];
      sender in qs ==>
        && qs[sender].accountNonce == first && qs[sender].accountBalance == 0
        && CostNothing(qs[sender].items) && nonce !in qs[sender].items
    ensures Accepts(GAS_CONFIG, p, r)
  {
    FreeIsAccepted(Target(GAS_CONFIG, p.workers[p.route(sender)], r), r.act, 0);
  }

  /** An accepted action goes into a pool that is not full. */
  lemma PlainAdd(cfg: Config, p: Pool, r: Request, now: int) returns (p': Pool)
    requires Accepts(cfg, p, r) && !IsFull(cfg, p.books, r.act)
    ensures Added(cfg, p, r, now, p', None, "")
    ensures
      var q := Target(cfg, p.workers[p.route(r.act.sender)], r);
      p' == WithQueue(p, r.act.sender, With(q, r.act, now), AcceptBooks(p.books, Replaced(q, r.act), r.act))
  {
    var q := Target(cfg, p.workers[p.route(r.act.sender)], r);
    p' := WithQueue(p, r.act.sender, With(q, r.act, now), AcceptBooks(p.books, Replaced(q, r.act), r.act));
  }

  lemma FreeIsReady(q: Queue)
    requires q.accountBalance >= 0 && CostNothing(q.items) && q.accountNonce in q.items
    ensures PendingNonce(q) > q.accountNonce
  {
    assert Pays(q.items, q.accountNonce, q.accountBalance, q.accountNonce);
  }

  /** A run goes on with a free action at a free nonce. */
  lemma FreeStep(t: Run, q: Queue, hash: Hash, sender: string, first: nat, nonce: nat, gas: U64, cap: nat)
    returns (t': Run)
    requires IsRun(GAS_CONFIG, t) && gas <= 10 && first <= nonce < first + 10
    requires |t.last.workers| == 1 && t.last.route(sender) == 0 && hash !in t.last.books.all
    requires !IsFull(GAS_CONFIG, t.last.books, GasRequest(hash, sender, first, nonce, gas, cap).act)
    requires q == if sender in t.last.workers[0] then t.last.workers[0][sender] else Empty(first, 0, 0)
    requires q.accountNonce == first && q.accountBalance == 0 && CostNothing(q.items) && nonce !in q.items
    ensures IsRun(GAS_CONFIG, t') && Strays(t') == Strays(t)
    ensures
      var act := GasRequest(hash, sender, first, nonce, gas, cap).act;
      && t'.last.route == t.last.route && t'.last.books == Enter(t.last.books, act)
      && |t'.last.workers| == 1 && t'.last.workers[0] == t.last.workers[0][sender := With(q, act, 0)]
      && GasIn(t'.last.books) == GasIn(t.last.books) + gas
  {
    var r := GasRequest(hash, sender, first, nonce, gas, cap);
    GasAccepts(t.last, r, hash, sender, first, nonce, gas, cap);
    var p := PlainAdd(GAS_CONFIG, t.last, r, 0);
    assert Step(GAS_CONFIG, t.last, Add(r, 0), p);
    NoMoreStrays(t, Add(r, 0), p);
    t' := Then(t, Add(r, 0), p);
    RunIsSafe(GAS_CONFIG, t);
    GasEntered(t.last.books, r.act);
  }

  function SmallAct(n: nat, k: nat): Action {
    GasRequest(k, "a", n, n + k, 1, 1).act
  }

  lemma OneSmall(n: nat) returns (q: Queue, t: Run)
    ensures IsRun(GAS_CONFIG, t)
    ensures t.last.route == ((a: string) => 0)
    ensures q == With(Empty(n, 0, 0), SmallAct(n, 0), 0) && CostNothing(q.items)
    ensures |t.last.workers| == 1 && t.last.workers[0].Keys == {"a"} && t.last.workers[0]["a"] == q
    ensures 1 !in t.last.books.all && 2 !in t.last.books.all && !IsFull(GAS_CONFIG, t.last.books, SmallAct(n, 1))
    ensures GasIn(t.last.books) == t.last.books.gas == 1
  {
    t := FreeStep(Start(Pool((a: string) => 0, [map[]], EMPTY_BOOKS)), Empty(n, 0, 0), 0, "a", n, n, 1, 1);
    q := With(Empty(n, 0, 0), SmallAct(n, 0), 0);
  }

  /** Two cheap actions of gas 1 from one sender. */
  lemma TwoSmall(n: nat) returns (q: Queue, t: Run)
    ensures IsRun(GAS_CONFIG, t)
    ensures t.last.route == ((a: string) => 0)
    ensures q == With(With(Empty(n, 0, 0), SmallAct(n, 0), 0), SmallAct(n, 1), 0)
    ensures |t.last.workers| == 1 && t.last.workers[0].Keys == {"a"} && t.last.workers[0]["a"] == q
    ensures 2 !in t.last.books.all
    ensures GasIn(t.last.books) == t.last.books.gas == 2
  {
    var q1, t1 := OneSmall(n);
    t := FreeStep(t1, q1, 1, "a", n, n + 1, 1, 1);
    q := With(q1, SmallAct(n, 1), 0);
  }

  /** The dear newcomer of gas 10 makes a cheap action of gas 1 leave. */
  lemma GasLimitCanBeExceeded(n: nat) returns (t: Run, r: Request, p': Pool)
    ensures IsRun(GAS_CONFIG, t) && GasIn(t.last.books) == 2
    ensures Added(GAS_CONFIG, t.last, r, 0, p', None, "a")
    ensures GasIn(p'.books) == 11 > GAS_CONFIG.maxGas
  {
    var q;
    q, t := TwoSmall(n);
    r, p' := CheapLeaves(t.last, n, q);
    RunIsSafe(GAS_CONFIG, t);
    GasAfterAdd(GAS_CONFIG, t.last, Strays(t), r, 0, p', None, "a");
  }

  lemma CheapLeaves(p: Pool, n: nat, q: Queue) returns (r: Request, p': Pool)
    requires p.route == ((a: string) => 0)
    requires q == With(With(Empty(n, 0, 0), SmallAct(n, 0), 0), SmallAct(n, 1), 0)
    requires |p.workers| == 1 && p.workers[0].Keys == {"a"} && p.workers[0]["a"] == q
    requires 2 !in p.books.all && p.books.gas == 2
    ensures r == GasRequest(2, "b", n, n, 10, 2) && Accepts(GAS_CONFIG, p, r)
    ensures Replaced(Target(GAS_CONFIG, p.workers[0], r), r.act) == None && IsFull(GAS_CONFIG, p.books, r.act)
    ensures
      var qs := GrownQueues(GAS_CONFIG, p, r, 0);
      "a" in qs && qs["a"] == q && q.items != map[] && Largest(q) == SmallAct(n, 1)
    ensures Added(GAS_CONFIG, p, r, 0, p', None, "a")
  {
    r := GasRequest(2, "b", n, n, 10, 2);
    GasAccepts(p, r, 2, "b", n, n, 10, 2);
    var qs := GrownQueues(GAS_CONFIG, p, r, 0);
    var q' := With(Empty(n, 0, 0), r.act, 0);
    CheapIsVictim(n, q, q');
    assert qs["b"] == q' && IsVictim(Rank, qs, "a");
    p' := Pool(p.route, [qs["a" := WithoutLargest(q)]], Leave(Enter(p.books, r.act), Largest(q)));
    assert Settled(Rank, qs, Enter(p.books, r.act), true, "b", n, p'.workers[0], p'.books, None, "a");
  }

  lemma CheapIsVictim(n: nat, q: Queue, q': Queue)
    requires q == With(With(Empty(n, 0, 0), SmallAct(n, 0), 0), SmallAct(n, 1), 0)
    requires q' == With(Empty(n, 0, 0), GasRequest(2, "b", n, n, 10, 2).act, 0)
    ensures q.items != map[] && Largest(q) == SmallAct(n, 1)
    ensures Leq(Rank(q), Rank(q'))
  {
    FreeIsReady(q);
    FreeIsReady(q');
    assert n in q.items && n + 1 in q.items && n in q'.items;
    assert MinNonce(q.items) == n && MaxNonce(q.items) == n + 1;
  }
}
