/**
 The action pool: sixteen workers over shared books. Each method takes the objects from the
 end of one run of `PoolRuns` to the end of a longer one, so what is proved of all runs holds of
 the pool at rest.
 */
module ActPools {
  import opened Actions
  import opened AccountQueue
  import opened PoolBooks
  import opened PoolModel
  import opened PoolRuns
  import opened QueueWorkers
  import opened ReadyPrefix
  import opened WorkerReports

  const NUM_WORKERS := 16

  /** The workers share the books and the configuration. */
  ghost predicate Wired(cfg: Config, ledger: Ledger, ws: seq<QueueWorker>) {
    forall i {:trigger ws[i]} | 0 <= i < |ws| ::
      ws[i].cfg == cfg && ws[i].ledger == ledger && ws[i].Ranked() && ws[i].accountActs.heap.rank == Rank
  }

  ghost predicate Apart(ws: seq<QueueWorker>)
    reads *
  {
    forall i, j | 0 <= i < j < |ws| :: TwoApart(ws, i, j)
  }

  ghost predicate TwoApart(ws: seq<QueueWorker>, i: nat, j: nat)
    requires i < |ws| && j < |ws|
    reads *
  {
    ws[i].Repr() !! ws[j].Repr()
  }

  ghost predicate AllWork(ws: seq<QueueWorker>)
    reads *
  {
    forall i {:trigger ws[i]} | 0 <= i < |ws| :: ws[i].Valid()
  }

  /** The objects of the other workers are neither this worker's nor the books. */
  lemma FarFrom(ws: seq<QueueWorker>, i: nat, ledger: Ledger) returns (others: set<object>)
    requires Apart(ws) && AllWork(ws) && i < |ws|
    ensures others !! ws[i].Repr() + {ledger}
    ensures forall j {:trigger ws[j]} | 0 <= j < |ws| && j != i :: ws[j].Repr() <= others
  {
    others := set j, o | 0 <= j < |ws| && j != i && o in ws[j].Repr() :: o;
    forall j {:trigger ws[j]} | 0 <= j < |ws| && j != i ensures ws[j].Repr() !! ws[i].Repr() + {ledger} {
      assert if i < j then TwoApart(ws, i, j) else TwoApart(ws, j, i);
      ws[j].NoLedger(ledger);
    }
  }

  class ActPool {
    const cfg: Config
    const lastByte: string -> nat
    const ledger: Ledger
    const workers: seq<QueueWorker>

    /** allocatedWorker */
    function Route(addr: string): nat {
      lastByte(addr) % NUM_WORKERS
    }

    ghost predicate Valid()
      reads *
    {
      |workers| == NUM_WORKERS && Wired(cfg, ledger, workers) && Apart(workers) && AllWork(workers) && ledger.Valid()
    }

    /** One worker's work leaves the others as they were, and apart from it. */
    twostate lemma OthersKept(new i: nat, others: set<object>)
      requires i < |workers| && old(Apart(workers)) && old(AllWork(workers))
      requires workers[i].Valid() && fresh(workers[i].Repr() - old(workers[i].Repr()))
      requires forall j {:trigger workers[j]} | 0 <= j < |workers| && j != i :: old(workers[j].Repr()) <= others
      requires unchanged(others)
      ensures AllWork(workers) && Apart(workers)
      ensures forall j {:trigger workers[j]} | 0 <= j < |workers| && j != i ::
              workers[j].Queues() == old(workers[j].Queues()) && workers[j].Repr() == old(workers[j].Repr())
    {
      assert forall j {:trigger workers[j]} | 0 <= j < |workers| && j != i ::
          && workers[j].Valid() && workers[j].Queues() == old(workers[j].Queues())
          && workers[j].Repr() == old(workers[j].Repr());
      assert workers[i].Repr() <= old(workers[i].Repr()) + (workers[i].Repr() - old(workers[i].Repr()));
      forall j, k | 0 <= j < k < |workers| ensures TwoApart(workers, j, k) {
        assert old(TwoApart(workers, j, k));
      }
    }

    /** One worker handles a request; the others are untouched. */
    method Dispatch(i: nat, r: Request, full: bool, now: int) returns (res: Option<Error>, ghost victim: string)
      requires Valid() && i < NUM_WORKERS
      modifies ledger, workers[i].Repr()
      ensures Valid() && fresh(workers[i].Repr() - old(workers[i].Repr()))
      ensures Handled(Rank, cfg, old(workers[i].Queues()), old(ledger.books), r, full, now,
                      workers[i].Queues(), ledger.books, res, victim)
      ensures forall j {:trigger workers[j]} | 0 <= j < |workers| && j != i ::
              workers[j].Queues() == old(workers[j].Queues())
    {
      ghost var others := FarFrom(workers, i, ledger);
      res, victim := workers[i].Handle(r, full, now);
      OthersKept(i, others);
    }

    /** One worker's Range, as an object; the others are untouched. */
    method ResetWorker(i: nat, confirmed: string -> Option<Account>, now: int) returns (ghost s: Sweep)
      requires Valid() && i < NUM_WORKERS
      modifies ledger, workers[i].Repr()
      ensures Valid() && forall j {:trigger workers[j]} | 0 <= j < |workers| ::
              workers[j].Repr() == old(workers[j].Repr())
      ensures workers[i].Queues() == TurnAll(old(workers[i].Queues()), RefreshTurn(confirmed, now))
      ensures workers[i].Follows(Refreshing(confirmed, now), s)
      ensures Origin(s) == Begin(old(workers[i].Queues()), old(ledger.books))
      ensures forall j {:trigger workers[j]} | 0 <= j < |workers| && j != i ::
              workers[j].Queues() == old(workers[j].Queues())
    {
      ghost var others := FarFrom(workers, i, ledger);
      s := workers[i].Reset(confirmed, now);
      OthersKept(i, others);
    }

    /** One worker's report joins those of the workers before it. */
    method ListWorker(i: nat, confirmed: string -> Option<Account>, now: int, pending: map<string, seq<Action>>,
                      ghost reports: seq<map<string, seq<Action>>>, ghost from: seq<map<string, Queue>>)
      returns (pending': map<string, seq<Action>>, ghost reports': seq<map<string, seq<Action>>>, ghost s: Sweep)
      requires Valid() && i < NUM_WORKERS && i < |from| && workers[i].Queues() == from[i]
      requires |reports| == i && Gathered(reports, from, now, confirmed, pending)
      modifies ledger, workers[i].Repr()
      ensures Valid() && forall j {:trigger workers[j]} | 0 <= j < |workers| ::
              workers[j].Repr() == old(workers[j].Repr())
      ensures workers[i].Queues() == TurnAll(from[i], ExpireTurn(now))
      ensures |reports'| == i + 1 && Gathered(reports', from, now, confirmed, pending')
      ensures workers[i].Follows(Expiring(now), s)
      ensures Origin(s) == Begin(from[i], old(ledger.books))
      ensures forall j {:trigger workers[j]} | 0 <= j < |workers| && j != i ::
              workers[j].Queues() == old(workers[j].Queues())
    {
      ghost var others := FarFrom(workers, i, ledger);
      var more;
      more, s := workers[i].PendingActions(confirmed, now);
      OthersKept(i, others);
      ReportsFurther(reports, from, now, confirmed, more);
      MergedFurther(reports, more);
      reports', pending' := reports + [more], pending + more;
    }

    method DropAccount(i: nat, addr: string) returns (ghost removed: seq<Action>)
      requires Valid() && i < NUM_WORKERS
      modifies ledger, workers[i].Repr()
      ensures Valid() && workers[i].Repr() <= old(workers[i].Repr())
      ensures workers[i].Queues() == old(workers[i].Queues()) - {addr}
      ensures ledger.books == LeaveAll(old(ledger.books), removed)
      ensures GivesUp(old(workers[i].Queues()), addr, removed)
      ensures forall j {:trigger workers[j]} | 0 <= j < |workers| && j != i ::
              workers[j].Queues() == old(workers[j].Queues())
    {
      ghost var others := FarFrom(workers, i, ledger);
      removed := workers[i].DeleteAccount(addr);
      OthersKept(i, others);
    }

    /** The workers' queues and the books are those that the run ends in. */
    ghost predicate Follows(t: Run)
      reads *
    {
      && IsRun(cfg, t)
      && (forall a {:trigger t.last.route(a)} :: t.last.route(a) == Route(a))
      && |t.last.workers| == |workers| && t.last.books == ledger.books
      && forall i {:trigger workers[i]} | 0 <= i < |workers| :: t.last.workers[i] == workers[i].Queues()
    }

    /** When one worker has changed and the run says so, objects and run agree again. */
    twostate lemma Rejoined(new i: nat, new t: Run, new t': Run)
      requires i < |workers| && old(Follows(t))
      requires forall j {:trigger workers[j]} | 0 <= j < |workers| && j != i ::
                 workers[j].Queues() == old(workers[j].Queues())
      requires IsRun(cfg, t') && SameElsewhere(t.last, i, t'.last)
      requires t'.last.workers[i] == workers[i].Queues() && t'.last.books == ledger.books
      ensures Follows(t')
    {
    }

    /** The objects of the worker that a sender is routed to. */
    ghost function Frame(addr: string): set<object>
      requires Route(addr) < |workers|
      reads workers[Route(addr)].accountActs.heap`members, workers[Route(addr)].accountActs.heap`parts
    {
      workers[Route(addr)].Repr()
    }

    /** enqueue: a screened request goes to its sender's worker. */
    method Enqueue(r: Request, full: bool, now: int, ghost t: Run)
      returns (res: Option<Error>, ghost victim: string, ghost t': Run)
      requires Valid() && Follows(t)
      requires Screen(cfg, ledger.books, r).None? && full == IsFull(cfg, ledger.books, r.act)
      modifies ledger, Frame(r.act.sender)
      ensures Valid() && Follows(t') && Strays(t') == Strays(t)
      ensures Added(cfg, t.last, r, now, t'.last, res, victim)
    {
      var i := Route(r.act.sender);
      assert t.last.route(r.act.sender) == i && t.last.workers[i] == workers[i].Queues();
      res, victim := Dispatch(i, r, full, now);
      t' := ExtendByAdd(cfg, t, r, now, workers[i].Queues(), ledger.books, res, victim);
    }

    /** add */
    method Add(r: Request, now: int, ghost t: Run) returns (res: Option<Error>, ghost victim: string, ghost t': Run)
      requires Valid() && Follows(t)
      modifies ledger, Frame(r.act.sender)
      ensures Valid() && Follows(t') && Strays(t') == Strays(t)
      ensures Added(cfg, t.last, r, now, t'.last, res, victim)
    {
      victim, t' := "", t;
      var b := Books(ledger.allActions, ledger.gasInPool, ledger.accountDesActs, ledger.blobCntPerAcc);
      res := Screen(cfg, b, r);
      if res.None? {
        res, victim, t' := Enqueue(r, IsFull(cfg, b, r.act), now, t);
      }
    }

    /** Every object of every worker. */
    ghost function Everything(): set<object>
      reads *
    {
      set w, o | w in workers && o in w.Repr() :: o
    }

    /** Every worker's objects are among these. */
    ghost predicate Among(objs: set<object>)
      reads *
    {
      forall j {:trigger workers[j]} | 0 <= j < |workers| :: workers[j].Repr() <= objs
    }

    /** The workers below `i` have had their turn, the others not. */
    ghost predicate TurnedUpTo(i: int, from: seq<map<string, Queue>>, turn: Callback)
      reads *
    {
      && |from| == |workers|
      && forall j {:trigger workers[j]} | 0 <= j < |workers| ::
           workers[j].Queues() == if j < i then TurnAll(from[j], turn) else from[j]
    }

    lemma NobodyTurned(t: Run, turn: Callback)
      requires Follows(t)
      ensures TurnedUpTo(0, t.last.workers, turn)
    {
    }

    /** Worker `i` has had its turn. */
    twostate lemma OneTurned(new i: nat, new turn: Callback, new from: seq<map<string, Queue>>,
                             new t: Run, new t': Run)
      requires i < |workers| && old(Follows(t)) && old(TurnedUpTo(i, from, turn))
      requires workers[i].Queues() == TurnAll(old(workers[i].Queues()), turn)
      requires forall j {:trigger workers[j]} | 0 <= j < |workers| && j != i ::
                 workers[j].Queues() == old(workers[j].Queues())
      requires IsRun(cfg, t') && SameElsewhere(t.last, i, t'.last)
      requires t'.last.workers[i] == workers[i].Queues() && t'.last.books == ledger.books
      ensures Follows(t') && TurnedUpTo(i + 1, from, turn)
    {
      Rejoined(i, t, t');
    }

    /** One worker's share of a Reset, as a stretch of the run. */
    method ResetOne(i: nat, confirmed: string -> Option<Account>, now: int, ghost from: seq<map<string, Queue>>,
                    ghost t: Run)
      returns (ghost t': Run)
      requires Valid() && Follows(t) && i < NUM_WORKERS && TurnedUpTo(i, from, RefreshTurn(confirmed, now))
      modifies ledger, workers[i].Repr()
      ensures Valid() && Follows(t') && TurnedUpTo(i + 1, from, RefreshTurn(confirmed, now))
      ensures (forall a :: confirmed(a).Some?) ==> Strays(t') == Strays(t)
      ensures forall j {:trigger workers[j]} | 0 <= j < |workers| :: workers[j].Repr() == old(workers[j].Repr())
    {
      assert t.last.workers[i] == workers[i].Queues();
      ghost var s := ResetWorker(i, confirmed, now);
      t' := ExtendByReset(cfg, t, i, confirmed, now, s);
      OneTurned(i, RefreshTurn(confirmed, now), from, t, t');
    }

    /** The loop of reset. */
    method ResetAll(confirmed: string -> Option<Account>, now: int, ghost from: seq<map<string, Queue>>,
                    ghost t: Run, ghost objs: set<object>)
      returns (ghost t': Run)
      requires Valid() && Follows(t) && TurnedUpTo(0, from, RefreshTurn(confirmed, now))
      requires Among(objs)
      modifies ledger, objs
      ensures Valid() && Follows(t') && TurnedUpTo(NUM_WORKERS, from, RefreshTurn(confirmed, now))
      ensures (forall a :: confirmed(a).Some?) ==> Strays(t') == Strays(t)
    {
      t' := t;
      for i := 0 to NUM_WORKERS
        invariant Valid() && Follows(t') && Among(objs)
        invariant TurnedUpTo(i, from, RefreshTurn(confirmed, now))
        invariant (forall a :: confirmed(a).Some?) ==> Strays(t') == Strays(t)
      {
        t' := ResetOne(i, confirmed, now, from, t');
      }
    }

    /** reset */
    method Reset(confirmed: string -> Option<Account>, now: int, ghost t: Run) returns (ghost t': Run)
      requires Valid() && Follows(t)
      modifies ledger, Everything()
      ensures Valid() && Follows(t') && TurnedUpTo(NUM_WORKERS, t.last.workers, RefreshTurn(confirmed, now))
      ensures (forall a :: confirmed(a).Some?) ==> Strays(t') == Strays(t)
    {
      NobodyTurned(t, RefreshTurn(confirmed, now));
      t' := ResetAll(confirmed, now, t.last.workers, t, Everything());
    }

    /** One worker's share of a call for the pending actions. */
    method ListOne(i: nat, confirmed: string -> Option<Account>, now: int, pending: map<string, seq<Action>>,
                   ghost reports: seq<map<string, seq<Action>>>, ghost from: seq<map<string, Queue>>, ghost t: Run)
      returns (pending': map<string, seq<Action>>, ghost reports': seq<map<string, seq<Action>>>, ghost t': Run)
      requires Valid() && Follows(t) && i < NUM_WORKERS && TurnedUpTo(i, from, ExpireTurn(now))
      requires |reports| == i && Gathered(reports, from, now, confirmed, pending)
      modifies ledger, workers[i].Repr()
      ensures Valid() && Follows(t') && TurnedUpTo(i + 1, from, ExpireTurn(now))
      ensures Strays(t') == Strays(t)
      ensures |reports'| == i + 1 && Gathered(reports', from, now, confirmed, pending')
      ensures forall j {:trigger workers[j]} | 0 <= j < |workers| :: workers[j].Repr() == old(workers[j].Repr())
    {
      assert t.last.workers[i] == workers[i].Queues() == from[i];
      ghost var s;
      pending', reports', s := ListWorker(i, confirmed, now, pending, reports, from);
      t' := ExtendByExpiry(cfg, t, i, now, s);
      OneTurned(i, ExpireTurn(now), from, t, t');
    }

    /** The loops of PendingActionMap. */
    method ListAll(confirmed: string -> Option<Account>, now: int, ghost from: seq<map<string, Queue>>,
                   ghost t: Run, ghost objs: set<object>)
      returns (pending: map<string, seq<Action>>, ghost reports: seq<map<string, seq<Action>>>, ghost t': Run)
      requires Valid() && Follows(t) && TurnedUpTo(0, from, ExpireTurn(now))
      requires Among(objs)
      modifies ledger, objs
      ensures Valid() && Follows(t') && TurnedUpTo(NUM_WORKERS, from, ExpireTurn(now))
      ensures Strays(t') == Strays(t)
      ensures |reports| == NUM_WORKERS && Gathered(reports, from, now, confirmed, pending)
    {
      pending, reports, t' := map[], [], t;
      for i := 0 to NUM_WORKERS
        invariant Valid() && Follows(t') && Among(objs)
        invariant TurnedUpTo(i, from, ExpireTurn(now))
        invariant Strays(t') == Strays(t)
        invariant |reports| == i && Gathered(reports, from, now, confirmed, pending)
      {
        pending, reports, t' := ListOne(i, confirmed, now, pending, reports, from, t');
      }
    }

    /** PendingActionMap */
    method PendingActionMap(confirmed: string -> Option<Account>, now: int, ghost t: Run)
      returns (pending: map<string, seq<Action>>, ghost reports: seq<map<string, seq<Action>>>, ghost t': Run)
      requires Valid() && Follows(t)
      modifies ledger, Everything()
      ensures Valid() && Follows(t') && TurnedUpTo(NUM_WORKERS, t.last.workers, ExpireTurn(now))
      ensures Strays(t') == Strays(t)
      ensures |reports| == NUM_WORKERS && Gathered(reports, t.last.workers, now, confirmed, pending)
      ensures forall a :: RightlyPending(pending, a, workers[Route(a)].Queues(), confirmed(a))
    {
      NobodyTurned(t, ExpireTurn(now));
      ghost var from := t.last.workers;
      AllHomed(t);
      pending, reports, t' := ListAll(confirmed, now, from, t, Everything());
      AllGathered(t.last.route, reports, from, now, confirmed, pending);
    }

    lemma AllHomed(t: Run)
      requires Follows(t)
      ensures Homed(t.last.workers, t.last.route)
    {
      RunIsSafe(cfg, t);
      var p := t.last;
      forall w, a | 0 <= w < |p.workers| && a in p.workers[w] ensures p.route(a) == w {
      }
    }

    lemma AllGathered(route: string -> nat, reports: seq<map<string, seq<Action>>>, from: seq<map<string, Queue>>,
                      now: int, confirmed: string -> Option<Account>, pending: map<string, seq<Action>>)
      requires |workers| == NUM_WORKERS && |reports| == |from| && forall a {:trigger route(a)} :: route(a) == Route(a)
      requires Homed(from, route)
      requires TurnedUpTo(NUM_WORKERS, from, ExpireTurn(now)) && Gathered(reports, from, now, confirmed, pending)
      ensures forall a :: RightlyPending(pending, a, workers[Route(a)].Queues(), confirmed(a))
    {
      forall a ensures RightlyPending(pending, a, workers[Route(a)].Queues(), confirmed(a)) {
        GatheredMeans(reports, from, now, confirmed, pending, route, a);
        assert workers[Route(a)].Queues() == TurnAll(from[Route(a)], ExpireTurn(now));
      }
    }

    /** DeleteAction: the account is gone; nobody else's queue changes. */
    method DeleteAction(addr: string, ghost t: Run) returns (ghost t': Run)
      requires Valid() && Follows(t)
      modifies ledger, Frame(addr)
      ensures Valid() && Follows(t') && Strays(t') == Strays(t)
      ensures forall j {:trigger workers[j]} | 0 <= j < |workers| ::
                workers[j].Queues() ==
                if j == Route(addr) then old(workers[j].Queues()) - {addr} else old(workers[j].Queues())
    {
      var i := Route(addr);
      assert t.last.workers[i] == workers[i].Queues() && t.last.route(addr) == i;
      ghost var removed := DropAccount(i, addr);
      if addr in t.last.workers[i] {
        t' := ExtendByDelete(cfg, t, addr, removed);
      } else {
        NothingToDrop(t.last.workers[i], addr);
        t' := t;
      }
      Rejoined(i, t, t');
    }

    /**
     What holds of the objects between calls: the number of actions is within the limit, and the hash
     index holds exactly the queued actions and those that failed state reads have left astray.
     */
    lemma AtRest(t: Run, act: Action)
      requires Valid() && Follows(t)
      ensures Safe(cfg, t.last, Strays(t)) && |ledger.allActions| <= cfg.maxActs
      ensures
        var qs := workers[lastByte(act.sender) % 16].Queues();
        var queued := act.sender in qs && Lookup(qs[act.sender].items, act.nonce) == Some(act);
        && (Indexed(ledger.allActions, act) <==> queued || act in Strays(t))
        && !(queued && act in Strays(t))
    {
      RunIsSafe(cfg, t);
      IndexIsExact(cfg, t, act);
      assert t.last.workers[Route(act.sender)] == workers[Route(act.sender)].Queues();
    }

    /** The run of a pool that has just been made. */
    ghost function Beginning(): Run {
      Start(Pool(a => Route(a), seq(NUM_WORKERS, i => EMPTY_WORKER), EMPTY_BOOKS))
    }

    constructor (cfg: Config, lastByte: string -> nat)
      ensures Valid() && Follows(Beginning()) && Strays(Beginning()) == {}
    {
      var books := new Ledger();
      var ws := NewWorkers(cfg, books);
      this.cfg, this.lastByte, ledger, workers := cfg, lastByte, books, ws;
    }
  }

  /** Workers that own nothing in common yet: new, on the same books, without accounts. */
  ghost predicate AllNew(cfg: Config, books: Ledger, ws: seq<QueueWorker>)
    reads *
  {
    Wired(cfg, books, ws) && Apart(ws) && AllWork(ws)
    && forall i {:trigger ws[i]} | 0 <= i < |ws| :: ws[i].Queues() == EMPTY_WORKER
  }

  lemma OneMore(cfg: Config, books: Ledger, ws: seq<QueueWorker>, w: QueueWorker, objs: set<object>)
    requires AllNew(cfg, books, ws) && Within(ws, objs)
    requires w.cfg == cfg && w.ledger == books && w.Ranked() && w.accountActs.heap.rank == Rank
    requires w.Valid() && w.Queues() == EMPTY_WORKER && w.Repr() !! objs
    ensures AllNew(cfg, books, ws + [w]) && Within(ws + [w], objs + w.Repr())
  {
    var ws' := ws + [w];
    forall i, j | 0 <= i < j < |ws'| ensures TwoApart(ws', i, j) {
      assert j < |ws| ==> TwoApart(ws, i, j);
      assert i < |ws| && ws'[i] == ws[i];
    }
  }

  /** The workers' objects are among these. */
  ghost predicate Within(ws: seq<QueueWorker>, objs: set<object>)
    reads *
  {
    forall i {:trigger ws[i]} | 0 <= i < |ws| :: ws[i].Repr() <= objs
  }

  /** As many workers as the pool has, all on the same books. */
  method NewWorkers(cfg: Config, books: Ledger) returns (ws: seq<QueueWorker>)
    requires books.Valid()
    ensures |ws| == NUM_WORKERS && AllNew(cfg, books, ws)
  {
    ws := [];
    ghost var objs: set<object> := {};
    while |ws| < NUM_WORKERS
      invariant |ws| <= NUM_WORKERS && AllNew(cfg, books, ws) && Within(ws, objs)
    {
      var w := new QueueWorker(cfg, books);
      OneMore(cfg, books, ws, w, objs);
      ws, objs := ws + [w], objs + w.Repr();
    }
  }

  lemma NothingToDrop(qs: map<string, Queue>, addr: string)
    requires addr !in qs
    ensures qs - {addr} == qs
  {
  }
}
