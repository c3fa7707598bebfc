/**
 Where the pool says less than it seems to. Eviction from a full pool always finds a victim, but
 Add's answer need not report it; the victim may give less gas than the newcomer brings; and a
 failed state read leaves actions in the books that are in no queue.
 */
module PoolOverflow {
  import opened Actions
  import opened HeapOrder
  import opened AccountQueue
  import opened PoolBooks
  import opened PoolModel
  import opened PoolRuns
  import opened ReadyPrefix

  lemma {:induction false} LeastKeyExists(ks: map<string, Key>, names: set<string>) returns (least: string)
    requires names != {} && names <= ks.Keys
    ensures least in names && forall a | a in names :: Leq(ks[least], ks[a])
  {
    var x :| x in names;
    if names == {x} {
      least := x;
    } else {
      var m := LeastKeyExists(ks, names - {x});
      least := if Leq(ks[m], ks[x]) then m else x;
    }
  }

  /** Empty queues rank last, so a worker with any action has an account to take one from. */
  lemma VictimExists(qs: map<string, Queue>, addr: string) returns (victim: string)
    requires addr in qs && qs[addr].items != map[]
    ensures IsVictim(Rank, qs, victim)
  {
    var ks := map a | a in qs :: Rank(qs[a]);
    victim := LeastKeyExists(ks, qs.Keys);
    assert forall a | a in qs :: Leq(Rank(qs[victim]), Rank(qs[a]));
    assert Leq(Rank(qs[victim]), Rank(qs[addr]));
  }

  /**
   Add can always complete: after an accepted insert into a full pool the "no action to drop"
   branch is never taken.
   */
  lemma AddCompletes(cfg: Config, p: Pool, r: Request, now: int) returns (p': Pool, res: Option<Error>, victim: string)
    requires p.route(r.act.sender) < |p.workers|
    ensures Added(cfg, p, r, now, p', res, victim)
  {
    var w := p.route(r.act.sender);
    p', res, victim := p, Screen(cfg, p.books, r), "";
    if res.None? {
      res := Reject(cfg, p.workers[w], r);
      if res.None? {
        var q := Target(cfg, p.workers[w], r);
        var q1 := With(q, r.act, now);
        var qs, b := p.workers[w][r.act.sender := q1], AcceptBooks(p.books, Replaced(q, r.act), r.act);
        assert r.act.nonce in q1.items;
        var full := IsFull(cfg, p.books, r.act);
        var qs', b';
        qs', b', res, victim := Settle(qs, b, full, r.act.sender, q.accountNonce);
        p' := Pool(p.route, p.workers[w := qs'], b');
      }
    }
  }

  lemma Settle(qs: map<string, Queue>, b: Books, full: bool, sender: string, nonce: nat)
    returns (qs': map<string, Queue>, b': Books, res: Option<Error>, victim: string)
    requires sender in qs && qs[sender].items != map[]
    ensures Settled(Rank, qs, b, full, sender, nonce, qs', b', res, victim)
  {
    if full {
      victim := VictimExists(qs, sender);
      var act := Largest(qs[victim]);
      qs', b' := qs[victim := WithoutLargest(qs[victim])], Leave(b, act);
      res := if act.sender == sender && act.nonce == nonce then Some(ErrTxPoolOverflow) else None;
    } else {
      qs', b', res, victim := qs, b, None, "";
    }
  }

  /** The newcomer is the action that eviction takes. */
  ghost predicate NewcomerEvicted(cfg: Config, p: Pool, r: Request, now: int, victim: string)
    requires p.route(r.act.sender) < |p.workers|
    requires StateFor(p.workers[p.route(r.act.sender)], r).Some?
  {
    var q1 := With(Target(cfg, p.workers[p.route(r.act.sender)], r), r.act, now);
    IsFull(cfg, p.books, r.act) && victim == r.act.sender && q1.items != map[] && MaxNonce(q1.items) == r.act.nonce
  }

  /**
   An accepted action is missing afterwards exactly when it was itself evicted, and Add reports
   the overflow exactly when, besides, its nonce is the account nonce: the test looks at the
   account nonce, not at the action's.
   */
  lemma OverflowReport(cfg: Config, p: Pool, stray: set<Action>, r: Request, now: int,
                       p': Pool, res: Option<Error>, victim: string)
    requires Safe(cfg, p, stray) && Added(cfg, p, r, now, p', res, victim) && p.route(r.act.sender) < |p.workers|
    requires Screen(cfg, p.books, r).None? && Reject(cfg, p.workers[p.route(r.act.sender)], r).None?
    ensures r.act.hash !in p'.books.all <==> NewcomerEvicted(cfg, p, r, now, victim)
    ensures
      var nonce := Target(cfg, p.workers[p.route(r.act.sender)], r).accountNonce;
      && (res == Some(ErrTxPoolOverflow) <==> NewcomerEvicted(cfg, p, r, now, victim) && r.act.nonce == nonce)
      && (res == None || res == Some(ErrTxPoolOverflow))
  {
    var w := p.route(r.act.sender);
    var q := Target(cfg, p.workers[w], r);
    var p1 := AcceptStep(cfg, p, stray, r, now);
    SettledReport(p1, stray, w, r.act, IsFull(cfg, p.books, r.act), q.accountNonce,
                  p'.workers[w], p'.books, res, victim);
  }

  lemma SettledReport(p: Pool, stray: set<Action>, w: nat, act: Action, full: bool, nonce: nat,
                      qs': map<string, Queue>, b': Books, res: Option<Error>, victim: string)
    requires Conserved(p, stray) && w < |p.workers| && p.route(act.sender) == w && act.sender in p.workers[w]
    requires Lookup(p.workers[w][act.sender].items, act.nonce) == Some(act)
    requires nonce == p.workers[w][act.sender].accountNonce
    requires Settled(Rank, p.workers[w], p.books, full, act.sender, nonce, qs', b', res, victim)
    ensures
      var evicted := full && victim == act.sender && MaxNonce(p.workers[w][act.sender].items) == act.nonce;
      && (act.hash !in b'.all <==> evicted)
      && (res == Some(ErrTxPoolOverflow) <==> evicted && act.nonce == nonce)
      && (res == None || res == Some(ErrTxPoolOverflow))
  {
    var qs := p.workers[w];
    assert QueueOk(p.books.all, act.sender, qs[act.sender]);
    if full {
      var q := qs[victim];
      assert QueueOk(p.books.all, victim, q);
      assert Indexed(p.books.all, Largest(q)) && Indexed(p.books.all, act);
      assert Largest(q).sender == victim && Largest(q).nonce == MaxNonce(q.items);
    }
  }

  // ---------- the same, seen before the call ----------

  /** The call gets past all checks. */
  predicate Accepts(cfg: Config, p: Pool, r: Request) {
    && p.route(r.act.sender) < |p.workers|
    && Screen(cfg, p.books, r).None? && Reject(cfg, p.workers[p.route(r.act.sender)], r).None?
  }

  /** The sender's queue once the action is in it. */
  function Grown(cfg: Config, p: Pool, r: Request, now: int): Queue
    requires Accepts(cfg, p, r)
  {
    With(Target(cfg, p.workers[p.route(r.act.sender)], r), r.act, now)
  }

  /** The worker's queues once the action is in. */
  function GrownQueues(cfg: Config, p: Pool, r: Request, now: int): map<string, Queue>
    requires Accepts(cfg, p, r)
  {
    p.workers[p.route(r.act.sender)][r.act.sender := Grown(cfg, p, r, now)]
  }

  /** The pool is full, the sender has least rank and the action the greatest nonce of its queue. */
  ghost predicate AtRisk(cfg: Config, p: Pool, r: Request, now: int)
    requires Accepts(cfg, p, r)
  {
    && IsFull(cfg, p.books, r.act) && IsVictim(Rank, GrownQueues(cfg, p, r, now), r.act.sender)
    && MaxNonce(Grown(cfg, p, r, now).items) == r.act.nonce
  }

  /** An outcome of Add in which the accepted action is not in the pool. */
  ghost predicate Loses(cfg: Config, p: Pool, r: Request, now: int, res: Option<Error>) {
    exists p', victim :: Added(cfg, p, r, now, p', res, victim) && r.act.hash !in p'.books.all
  }

  /**
   Add may lose the action it accepts if and only if the action is at risk. It then says so if and
   only if the action's nonce is the account nonce; otherwise it answers that all is well.
   */
  lemma WhenAcceptedIsLost(cfg: Config, p: Pool, stray: set<Action>, r: Request, now: int)
    requires Safe(cfg, p, stray) && Accepts(cfg, p, r)
    ensures
      var first := r.act.nonce == Grown(cfg, p, r, now).accountNonce;
      && (Loses(cfg, p, r, now, Some(ErrTxPoolOverflow)) <==> AtRisk(cfg, p, r, now) && first)
      && (Loses(cfg, p, r, now, None) <==> AtRisk(cfg, p, r, now) && !first)
      && forall e {:trigger Loses(cfg, p, r, now, Some(e))} :: Loses(cfg, p, r, now, Some(e)) ==> e == ErrTxPoolOverflow
  {
    forall p', res, victim | Added(cfg, p, r, now, p', res, victim) && r.act.hash !in p'.books.all
      ensures AtRisk(cfg, p, r, now)
      ensures res == if r.act.nonce == Grown(cfg, p, r, now).accountNonce then Some(ErrTxPoolOverflow) else None
    {
      OverflowReport(cfg, p, stray, r, now, p', res, victim);
    }
    if AtRisk(cfg, p, r, now) {
      var p', res := LosingOutcome(cfg, p, stray, r, now);
    }
  }

  /** When the pool is full, any account of least rank may be the one that gives up an action. */
  lemma VictimOutcome(cfg: Config, p: Pool, r: Request, now: int, victim: string)
    returns (p': Pool, res: Option<Error>)
    requires Accepts(cfg, p, r) && IsFull(cfg, p.books, r.act) && IsVictim(Rank, GrownQueues(cfg, p, r, now), victim)
    ensures Added(cfg, p, r, now, p', res, victim)
  {
    var w := p.route(r.act.sender);
    var q := Target(cfg, p.workers[w], r);
    var qs, b := GrownQueues(cfg, p, r, now), AcceptBooks(p.books, Replaced(q, r.act), r.act);
    var act := Largest(qs[victim]);
    res := if act.sender == r.act.sender && act.nonce == q.accountNonce then Some(ErrTxPoolOverflow) else None;
    p' := Pool(p.route, p.workers[w := qs[victim := WithoutLargest(qs[victim])]], Leave(b, act));
    assert Settled(Rank, qs, b, true, r.act.sender, q.accountNonce, p'.workers[w], p'.books, res, victim);
  }

  /** At risk, that may be the sender. */
  lemma LosingOutcome(cfg: Config, p: Pool, stray: set<Action>, r: Request, now: int)
    returns (p': Pool, res: Option<Error>)
    requires Safe(cfg, p, stray) && Accepts(cfg, p, r) && AtRisk(cfg, p, r, now)
    ensures Added(cfg, p, r, now, p', res, r.act.sender) && r.act.hash !in p'.books.all
    ensures res == if r.act.nonce == Grown(cfg, p, r, now).accountNonce then Some(ErrTxPoolOverflow) else None
  {
    p', res := VictimOutcome(cfg, p, r, now, r.act.sender);
    OverflowReport(cfg, p, stray, r, now, p', res, r.act.sender);
  }

  /** If no other account ranks as low, every outcome loses it. */
  lemma LowestIsAlwaysLost(cfg: Config, p: Pool, stray: set<Action>, r: Request, now: int,
                           p': Pool, res: Option<Error>, victim: string)
    requires Safe(cfg, p, stray) && Accepts(cfg, p, r) && AtRisk(cfg, p, r, now)
    requires
      var qs := GrownQueues(cfg, p, r, now);
      forall a | a in qs && a != r.act.sender :: !Leq(Rank(qs[a]), Rank(qs[r.act.sender]))
    requires Added(cfg, p, r, now, p', res, victim)
    ensures r.act.hash !in p'.books.all
  {
    assert victim == r.act.sender;
    OverflowReport(cfg, p, stray, r, now, p', res, victim);
  }

  // ---------- a run in which the overflow goes unreported ----------

  const EXAMPLE_CONFIG: Config := Config(1, 100, 10, 0, 0, 0)

  function ExampleAct(nonce: nat): Action {
    Action(nonce, "a", nonce, 0, 1, 0, 0, 0, false, None)
  }

  function ExampleRequest(nonce: nat): Request {
    Request(ExampleAct(nonce), false, false, false, false, true, false, Some(Account(0, 0)))
  }

  function ExampleStart(): Pool {
    Pool((a: string) => 0, [map[]], EMPTY_BOOKS)
  }

  /** The first action fills a pool with room for one. */
  lemma ExampleFirst() returns (p: Pool)
    ensures Added(EXAMPLE_CONFIG, ExampleStart(), ExampleRequest(0), 0, p, None, "")
    ensures p.route == ExampleStart().route && p.workers == [map["a" := With(Empty(0, 0, 0), ExampleAct(0), 0)]]
    ensures p.books == Enter(EMPTY_BOOKS, ExampleAct(0))
  {
    var p0 := ExampleStart();
    var r := ExampleRequest(0);
    assert Target(EXAMPLE_CONFIG, p0.workers[0], r) == Empty(0, 0, 0);
    assert PutError(Empty(0, 0, 0), r.act).None?;
    p := Pool(p0.route, [map["a" := With(Empty(0, 0, 0), r.act, 0)]], Enter(EMPTY_BOOKS, r.act));
    assert p.workers[0] == p0.workers[0]["a" := With(Empty(0, 0, 0), r.act, 0)];
    assert !IsFull(EXAMPLE_CONFIG, p0.books, r.act);
  }

  /** The second is accepted, evicted at once, and reported as added. */
  lemma OverflowCanGoUnreported() returns (p: Pool, p': Pool, t: Run)
    ensures IsRun(EXAMPLE_CONFIG, t) && t.last == p
    ensures Added(EXAMPLE_CONFIG, p, ExampleRequest(1), 0, p', None, "a")
    ensures ExampleAct(1).hash !in p'.books.all
  {
    var p0 := ExampleStart();
    p := ExampleFirst();
    t := Then(Start(p0), Add(ExampleRequest(0), 0), p);
    assert Step(EXAMPLE_CONFIG, p0, Add(ExampleRequest(0), 0), p);
    p' := ExampleSecond(p);
  }

  lemma ExampleSecond(p: Pool) returns (p': Pool)
    requires p.route == ExampleStart().route && p.workers == [map["a" := With(Empty(0, 0, 0), ExampleAct(0), 0)]]
    requires p.books == Enter(EMPTY_BOOKS, ExampleAct(0))
    ensures Added(EXAMPLE_CONFIG, p, ExampleRequest(1), 0, p', None, "a")
    ensures ExampleAct(1).hash !in p'.books.all
  {
    var r := ExampleRequest(1);
    var q := p.workers[0]["a"];
    assert q == Target(EXAMPLE_CONFIG, p.workers[0], r);
    assert BalanceAt(q, 1) == 0 by {
      assert Spent(q.items, 0, 0) == 0 && Spent(q.items, 0, 1) == 0;
    }
    assert Reject(EXAMPLE_CONFIG, p.workers[0], r).None?;
    assert |p.books.all| == 1 by {
      assert p.books.all == map[0 := ExampleAct(0)];
    }
    var q1 := With(q, r.act, 0);
    assert 1 in q1.items && forall n | n in q1.items :: n <= 1;
    assert MaxNonce(q1.items) == 1;
    var qs := p.workers[0]["a" := q1];
    var qs' := qs["a" := WithoutLargest(q1)];
    p' := Pool(p.route, [qs'], Leave(Enter(p.books, r.act), r.act));
    assert Settled(Rank, qs, Enter(p.books, r.act), true, "a", 0, qs', p'.books, None, "a");
  }

  /** A Reset after the first action cannot read the sender's state: the action is astray. */
  lemma ActionsCanGoAstray() returns (t: Run)
    ensures IsRun(EXAMPLE_CONFIG, t) && t.Then? && t.op == Lose("a") && Conserved(t.before.last, {})
    ensures ExampleAct(0) in Strays(t) && !IsQueued(t.last, ExampleAct(0)) && Indexed(t.last.books.all, ExampleAct(0))
  {
    var p := ExampleFirst();
    var t1 := Then(Start(ExampleStart()), Add(ExampleRequest(0), 0), p);
    assert Step(EXAMPLE_CONFIG, ExampleStart(), Add(ExampleRequest(0), 0), p);
    var q := p.workers[0]["a"];
    t := Then(t1, Lose("a"), WithQueue(p, "a", Empty(0, 0, q.ttl), p.books));
    assert Step(EXAMPLE_CONFIG, p, Lose("a"), t.last);
    assert q.items[0] == ExampleAct(0);
    RunIsConserved(EXAMPLE_CONFIG, t1);
    IndexIsExact(EXAMPLE_CONFIG, t, ExampleAct(0));
  }

  // ---------- what a failed read means for the sender ----------

  /** The account has the queue that a failed read leaves: nothing in it, and no balance. */
  ghost predicate Blank(p: Pool, addr: string) {
    var w := p.route(addr);
    && w < |p.workers| && addr in p.workers[w]
    && p.workers[w][addr] == Empty(0, 0, p.workers[w][addr].ttl)
  }

  lemma FailedReadLeavesBlank(cfg: Config, p: Pool, addr: string, p': Pool)
    requires Step(cfg, p, Lose(addr), p')
    ensures Blank(p', addr)
  {
  }

  /** Whatever the sender's account has, nothing that costs anything is accepted, and no nonce but a low one. */
  lemma BlankAccepts(cfg: Config, p: Pool, r: Request)
    requires Blank(p, r.act.sender)
    ensures Reject(cfg, p.workers[p.route(r.act.sender)], r).None? <==>
              && !r.cancelled && r.act.cost <= 0 && r.act.nonce < cfg.maxPerAccount
              && (r.act.isBlob ==> r.act.nonce == 0)
  {
  }

  /** Only its own Refresh and an Add of its own end that, unless the account is forgotten. */
  lemma BlankStays(cfg: Config, p: Pool, addr: string, op: Op, p': Pool)
    requires Blank(p, addr) && Step(cfg, p, op, p')
    requires !(op.Refresh? && op.addr == addr)
    requires op.Add? && op.request.act.sender == addr ==> Reject(cfg, p.workers[p.route(addr)], op.request).Some?
    ensures p'.route == p.route && |p'.workers| == |p.workers|
    ensures Blank(p', addr) || addr !in p'.workers[p'.route(addr)]
  {
    if op.Add? {
      var res, victim :| Added(cfg, p, op.request, op.now, p', res, victim);
    }
  }
}
