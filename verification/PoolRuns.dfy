/**
 Runs of the pool. An Add is one step (validation, Handle, eviction, cleaning); a Reset is one
 step for each account, Refresh or, where its state cannot be read, Lose; a call for the pending
 actions is one Expire step for each.
 */
module PoolRuns {
  import opened Actions
  import opened HeapOrder
  import opened AccountQueue
  import opened PoolBooks
  import opened PoolModel
  import opened ReadyPrefix

  datatype Config = Config(
    maxActs: nat,
    maxGas: U64,
    maxPerAccount: nat,
    maxBlobs: nat,
    minGasPrice: int,
    ttl: int)

  /** The confirmed state of an account. */
  datatype Account = Account(nonce: nat, balance: int)

  /** An action offered to the pool, with the answers of the code outside the pool. */
  datatype Request = Request(
    act: Action,
    isSystem: bool,
    badData: bool,
    unprotected: bool,
    blacklisted: bool,
    externallyValid: bool,
    cancelled: bool,
    confirmed: Option<Account>)

  // ---------- Add ----------

  /** The checks of add and checkSelpWithoutState, in their order. */
  function Screen(cfg: Config, b: Books, r: Request): Option<Error> {
    if r.isSystem then Some(ErrInvalidAct)
    else if r.badData then Some(ErrInvalidAct)
    else if r.act.hash in b.all then Some(ErrExistedInPool)
    else if !r.unprotected && r.act.gasFeeCap < cfg.minGasPrice then Some(ErrUnderpriced)
    else if r.blacklisted then Some(ErrAddress)
    else if r.act.isBlob && CountOf(b.blobs, r.act.sender) >= cfg.maxBlobs then Some(ErrNonceTooHigh)
    else if !r.externallyValid then Some(ErrValidation)
    else if r.act.gas > cfg.maxGas then Some(ErrGasTooHigh)
    else None
  }

  /** Whether an accepted action has to push another one out. */
  predicate IsFull(cfg: Config, b: Books, act: Action) {
    var limit: int := cfg.maxGas;
    b.gas > limit - act.gas || |b.all| >= cfg.maxActs
  }

  /** checkSelpWithState; `pending` is the sender's pending nonce in the pool, or the confirmed one. */
  function CheckWithState(cfg: Config, pending: nat, account: Account, act: Action): Option<Error> {
    if act.nonce < account.nonce then Some(ErrNonceTooLow)
    else if act.nonce - account.nonce >= cfg.maxPerAccount then Some(ErrNonceTooHigh)
    else if act.isBlob && act.nonce > pending then Some(ErrNonceTooHigh)
    else if account.balance < act.cost then Some(ErrInsufficientFunds)
    else None
  }

  /** getConfirmedState: the queue's own account state, or the one read from outside. */
  function StateFor(qs: map<string, Queue>, r: Request): Option<Account> {
    if r.act.sender in qs then
      Some(Account(qs[r.act.sender].accountNonce, qs[r.act.sender].accountBalance))
    else r.confirmed
  }

  /** The queue the action goes into: the sender's, or a new one. */
  function Target(cfg: Config, qs: map<string, Queue>, r: Request): Queue
    requires StateFor(qs, r).Some?
  {
    if r.act.sender in qs then qs[r.act.sender]
    else Empty(r.confirmed.value.nonce, r.confirmed.value.balance, cfg.ttl)
  }

  /** The error with which Handle turns the action away, if any. */
  function Reject(cfg: Config, qs: map<string, Queue>, r: Request): Option<Error> {
    if r.cancelled then Some(ErrCancelled)
    else if StateFor(qs, r).None? then Some(ErrStateRead)
    else
      var account := StateFor(qs, r).value;
      var pending := if r.act.sender in qs then PendingNonce(qs[r.act.sender]) else account.nonce;
      var e := CheckWithState(cfg, pending, account, r.act);
      if e.Some? then e else PutError(Target(cfg, qs, r), r.act)
  }

  /**
   The end of Handle, once the action is in its queue: eviction from the account `victim` if the
   pool was full, then cleaning. `nonce` is the account nonce of the sender.
   */
  ghost predicate Settled(rank: Queue -> Key, qs: map<string, Queue>, b: Books, full: bool, sender: string, nonce: nat,
                          qs': map<string, Queue>, b': Books, res: Option<Error>, victim: string)
  {
    match full
    case false => Cleaned(qs, qs') && b' == b && res == None
    case true =>
      && IsVictim(rank, qs, victim)
      && Cleaned(qs[victim := WithoutLargest(qs[victim])], qs')
      && b' == Leave(b, Largest(qs[victim]))
      && res == if Largest(qs[victim]).sender == sender && Largest(qs[victim]).nonce == nonce
                then Some(ErrTxPoolOverflow) else None
  }

  /** Handle on one worker. */
  ghost predicate Handled(rank: Queue -> Key, cfg: Config, qs: map<string, Queue>, b: Books, r: Request,
                          full: bool, now: int,
                          qs': map<string, Queue>, b': Books, res: Option<Error>, victim: string)
  {
    match Reject(cfg, qs, r)
    case Some(e) => qs' == qs && b' == b && res == Some(e)
    case None =>
      var q := Target(cfg, qs, r);
      Settled(rank, qs[r.act.sender := With(q, r.act, now)], AcceptBooks(b, Replaced(q, r.act), r.act),
              full, r.act.sender, q.accountNonce, qs', b', res, victim)
  }

  ghost predicate SameElsewhere(p: Pool, w: nat, p': Pool) {
    && |p'.workers| == |p.workers| && p'.route == p.route
    && forall v | 0 <= v < |p.workers| && v != w :: p'.workers[v] == p.workers[v]
  }

  /** add: screening, then Handle on the sender's worker. */
  ghost predicate Added(cfg: Config, p: Pool, r: Request, now: int, p': Pool, res: Option<Error>, victim: string) {
    var w := p.route(r.act.sender);
    match Screen(cfg, p.books, r)
    case Some(e) => p' == p && res == Some(e)
    case None =>
      && w < |p.workers| && SameElsewhere(p, w, p')
      && Handled(Rank, cfg, p.workers[w], p.books, r, IsFull(cfg, p.books, r.act), now,
                 p'.workers[w], p'.books, res, victim)
  }

  // ---------- the other steps ----------

  /** One account's queue gives up some actions, which leave the books. */
  ghost predicate Pruned(p: Pool, addr: string, q': Queue, gone: set<nat>, removed: seq<Action>, p': Pool) {
    var w := p.route(addr);
    && w < |p.workers| && addr in p.workers[w]
    && Lists(removed, p.workers[w][addr].items, gone)
    && p' == WithQueue(p, addr, q', LeaveAll(p.books, removed))
  }

  datatype Op =
    | Add(request: Request, now: int)
    | Refresh(addr: string, account: Account, now: int)
    | Expire(addr: string, now: int)
    | Delete(addr: string)
    | Forget(addr: string)
    | Lose(addr: string)

  ghost predicate Step(cfg: Config, p: Pool, op: Op, p': Pool) {
    match op
    case Add(r, now) => exists res, victim :: Added(cfg, p, r, now, p', res, victim)
    case Refresh(addr, account, now) =>
      var w := p.route(addr);
      w < |p.workers| && addr in p.workers[w] &&
      var q := p.workers[w][addr];
      var q' := AccountQueue.Refresh(q, account.nonce, account.balance, now);
      exists removed :: Pruned(p, addr, q', Dropped(q, q'), removed, p')
    case Expire(addr, now) =>
      var w := p.route(addr);
      w < |p.workers| && addr in p.workers[w] &&
      var q := p.workers[w][addr];
      var q' := AccountQueue.Expire(q, now);
      exists removed :: Pruned(p, addr, q', Dropped(q, q'), removed, p')
    case Delete(addr) =>
      var w := p.route(addr);
      w < |p.workers| &&
      if addr !in p.workers[w] then p' == p
      else exists removed ::
             Lists(removed, p.workers[w][addr].items, p.workers[w][addr].items.Keys) &&
             p' == Pool(p.route, p.workers[w := p.workers[w] - {addr}], LeaveAll(p.books, removed))
    case Forget(addr) =>
      var w := p.route(addr);
      && w < |p.workers| && addr in p.workers[w] && p.workers[w][addr].items == map[]
      && p' == Pool(p.route, p.workers[w := p.workers[w] - {addr}], p.books)
    case Lose(addr) =>
      var w := p.route(addr);
      && w < |p.workers| && addr in p.workers[w]
      && p' == WithQueue(p, addr, Empty(0, 0, p.workers[w][addr].ttl), p.books)
  }

  /** The actions that a step takes out of their queue without telling the books. */
  ghost function SetAstray(p: Pool, op: Op): set<Action> {
    match op
    case Lose(addr) =>
      var w := p.route(addr);
      if w < |p.workers| && addr in p.workers[w] then p.workers[w][addr].items.Values else {}
    case _ => {}
  }

  /** What every reachable pool satisfies. */
  ghost predicate Safe(cfg: Config, p: Pool, stray: set<Action>) {
    && Conserved(p, stray)
    && |p.books.all| <= cfg.maxActs
    && WithinBlobLimit(cfg, p.books)
  }

  const EMPTY_WORKER: map<string, Queue> := map[]

  ghost predicate Initial(p: Pool) {
    p.books == EMPTY_BOOKS && forall w | 0 <= w < |p.workers| :: p.workers[w] == EMPTY_WORKER
  }

  lemma InitialIsSafe(cfg: Config, p: Pool)
    requires Initial(p)
    ensures Safe(cfg, p, {})
  {
    assert EMPTY_BOOKS.all.Values == {};
    forall s ensures |BlobsOf({}, s)| == 0 {
      assert BlobsOf({}, s) == {};
    }
  }

  /** What an accepted action does to the numbers of the books. */
  lemma AcceptNumbers(b: Books, replaced: Option<Action>, act: Action)
    requires Balanced(b) && act.hash !in b.all && (replaced.Some? ==> Indexed(b.all, replaced.value))
    ensures |AcceptBooks(b, replaced, act).all| == |b.all| + if replaced.Some? then 0 else 1
    ensures forall s :: CountOf(AcceptBooks(b, replaced, act).blobs, s)
                        <= CountOf(b.blobs, s) + if act.isBlob && act.sender == s then 1 else 0
  {
    if replaced.Some? {
      OneLess(b.all, replaced.value.hash);
    }
  }

  ghost predicate WithinBlobLimit(cfg: Config, b: Books) {
    forall s :: CountOf(b.blobs, s) <= cfg.maxBlobs
  }

  /** Accepting an action, before any eviction. */
  lemma AcceptStep(cfg: Config, p: Pool, stray: set<Action>, r: Request, now: int) returns (p1: Pool)
    requires Conserved(p, stray) && WithinBlobLimit(cfg, p.books) && p.route(r.act.sender) < |p.workers|
    requires Screen(cfg, p.books, r).None? && Reject(cfg, p.workers[p.route(r.act.sender)], r).None?
    ensures
      var q := Target(cfg, p.workers[p.route(r.act.sender)], r);
      p1 == WithQueue(p, r.act.sender, With(q, r.act, now), AcceptBooks(p.books, Replaced(q, r.act), r.act))
    ensures Conserved(p1, stray) && WithinBlobLimit(cfg, p1.books) && |p1.books.all| <= |p.books.all| + 1
  {
    var w := p.route(r.act.sender);
    var q := Target(cfg, p.workers[w], r);
    if r.act.sender in p.workers[w] {
      assert QueueOk(p.books.all, r.act.sender, p.workers[w][r.act.sender]);
    }
    assert IsTarget(p, r.act.sender, q);
    AcceptKeeps(p, stray, q, r.act, now);
    AcceptNumbers(p.books, Replaced(q, r.act), r.act);
    p1 := WithQueue(p, r.act.sender, With(q, r.act, now), AcceptBooks(p.books, Replaced(q, r.act), r.act));
  }

  /** Taking the largest nonce from an account: the pool shrinks by one action. */
  lemma EvictStep(p: Pool, stray: set<Action>, w: nat, addr: string) returns (p2: Pool)
    requires Conserved(p, stray) && w < |p.workers| && addr in p.workers[w] && p.workers[w][addr].items != map[]
    ensures
      var q := p.workers[w][addr];
      p2 == Pool(p.route, p.workers[w := p.workers[w][addr := WithoutLargest(q)]], Leave(p.books, Largest(q)))
    ensures Conserved(p2, stray) && |p2.books.all| == |p.books.all| - 1
  {
    var q := p.workers[w][addr];
    var n, act := MaxNonce(q.items), Largest(q);
    assert QueueOk(p.books.all, addr, q);
    assert LeaveAll(p.books, [act]) == LeaveAll(Leave(p.books, act), []) == Leave(p.books, act);
    PruneKeeps(p, stray, addr, WithoutLargest(q), {n}, [act]);
    OneLess(p.books.all, act.hash);
    p2 := WithQueue(p, addr, WithoutLargest(q), Leave(p.books, act));
  }

  lemma OneLess(all: map<Hash, Action>, h: Hash)
    requires h in all
    ensures |all - {h}| == |all| - 1
  {
    assert all.Keys == (all - {h}).Keys + {h};
  }

  lemma CleanStep(p: Pool, stray: set<Action>, w: nat, p': Pool)
    requires Conserved(p, stray) && w < |p.workers| && SameElsewhere(p, w, p')
    requires Cleaned(p.workers[w], p'.workers[w]) && p'.books == p.books
    ensures Conserved(p', stray)
  {
    CleanKeeps(p, stray, w, p'.workers[w]);
    assert p' == Pool(p.route, p.workers[w := p'.workers[w]], p.books);
  }

  /** Once the action is in, settling conserves; when the pool was full, it gives one action up. */
  lemma SettledIsConserved(rank: Queue -> Key, p: Pool, stray: set<Action>, w: nat, full: bool, sender: string,
                           nonce: nat, p': Pool, res: Option<Error>, victim: string)
    requires Conserved(p, stray) && w < |p.workers| && SameElsewhere(p, w, p')
    requires Settled(rank, p.workers[w], p.books, full, sender, nonce, p'.workers[w], p'.books, res, victim)
    ensures Conserved(p', stray) && |p'.books.all| == |p.books.all| - if full then 1 else 0
    ensures forall s :: CountOf(p'.books.blobs, s) <= CountOf(p.books.blobs, s)
  {
    if full {
      var p2 := EvictStep(p, stray, w, victim);
      CleanStep(p2, stray, w, p');
    } else {
      CleanStep(p, stray, w, p');
    }
  }

  /** Add keeps the pool safe: conservation, number of actions and blob limit. */
  lemma AddIsSafe(cfg: Config, p: Pool, stray: set<Action>, r: Request, now: int,
                  p': Pool, res: Option<Error>, victim: string)
    requires Safe(cfg, p, stray) && Added(cfg, p, r, now, p', res, victim)
    ensures Safe(cfg, p', stray)
  {
    var w := p.route(r.act.sender);
    if Screen(cfg, p.books, r).Some? {
    } else if Reject(cfg, p.workers[w], r).Some? {
      assert p'.workers == p.workers;
    } else {
      var p1 := AcceptStep(cfg, p, stray, r, now);
      var nonce := Target(cfg, p.workers[w], r).accountNonce;
      SettledIsConserved(Rank, p1, stray, w, IsFull(cfg, p.books, r.act), r.act.sender, nonce, p', res, victim);
    }
  }

  // ---------- the other steps ----------

  lemma {:induction false} HashesBound(b: Books, removed: seq<Action>)
    requires LeaveAll(b, removed).all == b.all - HashesOf(removed)
    ensures |LeaveAll(b, removed).all| <= |b.all|
  {
    var all' := LeaveAll(b, removed).all;
    assert all'.Keys <= b.all.Keys;
    SubsetSize(all'.Keys, b.all.Keys);
  }

  lemma {:induction false} SubsetSize(a: set<Hash>, b: set<Hash>)
    requires a <= b
    ensures |a| <= |b|
  {
    if a != {} {
      var x :| x in a;
      SubsetSize(a - {x}, b - {x});
    }
  }

  /** A queue gives up actions: whatever the reason, the pool stays safe. */
  lemma PruneIsSafe(cfg: Config, p: Pool, stray: set<Action>, addr: string, q': Queue, gone: set<nat>,
                    removed: seq<Action>, p': Pool)
    requires Safe(cfg, p, stray) && Pruned(p, addr, q', gone, removed, p') && Valid(q')
    requires q'.items == p.workers[p.route(addr)][addr].items - gone
    ensures Safe(cfg, p', stray)
  {
    var items := p.workers[p.route(addr)][addr].items;
    assert QueueOk(p.books.all, addr, p.workers[p.route(addr)][addr]);
    PruneKeeps(p, stray, addr, q', gone, removed);
    HashesBound(p.books, removed);
    IndexedList(p.books.all, addr, items, gone, removed);
    LeaveAllBalances(p.books, removed);
  }

  lemma IndexedList(all: map<Hash, Action>, addr: string, items: Items, gone: set<nat>, removed: seq<Action>)
    requires Lists(removed, items, gone)
    requires forall n | n in items :: items[n].nonce == n && items[n].sender == addr && Indexed(all, items[n])
    ensures DistinctHashes(removed) && forall a | a in removed :: Indexed(all, a)
  {
    forall i, j | 0 <= i < j < |removed| ensures removed[i].hash != removed[j].hash {
      assert removed[i] in removed && removed[j] in removed;
    }
  }

  lemma RefreshedQueue(q: Queue, account: Account, now: int)
    requires Valid(q)
    ensures
      var q' := AccountQueue.Refresh(q, account.nonce, account.balance, now);
      Valid(q') && q'.items == q.items - Dropped(q, q')
  {
  }

  lemma ExpiredQueue(q: Queue, now: int)
    requires Valid(q)
    ensures
      var q' := AccountQueue.Expire(q, now);
      Valid(q') && q'.items == q.items - Dropped(q, q')
  {
  }

  /** DeleteAction: the account is emptied into the books and then forgotten. */
  lemma DeleteIsSafe(cfg: Config, p: Pool, stray: set<Action>, addr: string, removed: seq<Action>, p': Pool)
    requires Safe(cfg, p, stray) && p.route(addr) < |p.workers| && addr in p.workers[p.route(addr)]
    requires
      var items := p.workers[p.route(addr)][addr].items;
      Lists(removed, items, items.Keys)
    requires
      var w := p.route(addr);
      p' == Pool(p.route, p.workers[w := p.workers[w] - {addr}], LeaveAll(p.books, removed))
    ensures Safe(cfg, p', stray)
  {
    var w := p.route(addr);
    var q := p.workers[w][addr];
    assert QueueOk(p.books.all, addr, q);
    var q1 := Without(q, q.items.Keys);
    var p1 := WithQueue(p, addr, q1, LeaveAll(p.books, removed));
    PruneIsSafe(cfg, p, stray, addr, q1, q.items.Keys, removed, p1);
    CleanStep(p1, stray, w, p');
  }

  /** Every step keeps the pool safe; only a failed read adds strays. */
  lemma StepIsSafe(cfg: Config, p: Pool, stray: set<Action>, op: Op, p': Pool)
    requires Safe(cfg, p, stray) && Step(cfg, p, op, p')
    ensures Safe(cfg, p', stray + SetAstray(p, op))
  {
    if op.Lose? {
      FailedReadMakesStrays(p, stray, op.addr);
    } else {
      ToldStepIsSafe(cfg, p, stray, op, p');
      assert stray + SetAstray(p, op) == stray;
    }
  }

  lemma ToldStepIsSafe(cfg: Config, p: Pool, stray: set<Action>, op: Op, p': Pool)
    requires Safe(cfg, p, stray) && Step(cfg, p, op, p') && !op.Lose?
    ensures Safe(cfg, p', stray)
  {
    match op
    case Add(r, now) =>
      var res, victim :| Added(cfg, p, r, now, p', res, victim);
      AddIsSafe(cfg, p, stray, r, now, p', res, victim);
    case Refresh(addr, account, now) =>
      var q := p.workers[p.route(addr)][addr];
      var q' := AccountQueue.Refresh(q, account.nonce, account.balance, now);
      var removed :| Pruned(p, addr, q', Dropped(q, q'), removed, p');
      assert QueueOk(p.books.all, addr, q);
      RefreshedQueue(q, account, now);
      PruneIsSafe(cfg, p, stray, addr, q', Dropped(q, q'), removed, p');
    case Expire(addr, now) =>
      var q := p.workers[p.route(addr)][addr];
      var q' := AccountQueue.Expire(q, now);
      var removed :| Pruned(p, addr, q', Dropped(q, q'), removed, p');
      assert QueueOk(p.books.all, addr, q);
      ExpiredQueue(q, now);
      PruneIsSafe(cfg, p, stray, addr, q', Dropped(q, q'), removed, p');
    case Delete(addr) =>
      var w := p.route(addr);
      if addr in p.workers[w] {
        var removed :|
          Lists(removed, p.workers[w][addr].items, p.workers[w][addr].items.Keys) &&
          p' == Pool(p.route, p.workers[w := p.workers[w] - {addr}], LeaveAll(p.books, removed));
        DeleteIsSafe(cfg, p, stray, addr, removed, p');
      }
    case Forget(addr) =>
      CleanStep(p, stray, p.route(addr), p');
  }

  /** A finite run: each step leads from the pool before it to the pool it records. */
  datatype Run = Start(last: Pool) | Then(before: Run, op: Op, last: Pool)

  ghost predicate IsRun(cfg: Config, t: Run)
    decreases t, 1
  {
    Proceeds(cfg, t)
  }

  /** It starts with an empty pool, and every step continues the run before it. */
  ghost predicate Proceeds(cfg: Config, t: Run)
    decreases t, 0
  {
    match t
    case Start(p) => Initial(p)
    case Then(before, op, p) => IsRun(cfg, before) && Step(cfg, before.last, op, p)
  }

  /** All actions that failed state reads of the run have taken out of their queues. */
  ghost function Strays(t: Run): set<Action> {
    match t
    case Start(_) => {}
    case Then(before, op, _) => Strays(before) + SetAstray(before.last, op)
  }

  /** Whatever has happened, the books describe exactly the queued actions and the strays. */
  lemma {:induction false} RunIsSafe(cfg: Config, t: Run)
    requires IsRun(cfg, t)
    ensures Safe(cfg, t.last, Strays(t))
  {
    assert Proceeds(cfg, t);
    match t
    case Start(p) => InitialIsSafe(cfg, p);
    case Then(before, op, p) =>
      RunIsSafe(cfg, before);
      StepIsSafe(cfg, before.last, Strays(before), op, p);
  }

  /** So they describe exactly the queued actions if and only if no failed read found anything. */
  lemma RunIsConserved(cfg: Config, t: Run)
    requires IsRun(cfg, t)
    ensures Conserved(t.last, {}) <==> Strays(t) == {}
  {
    RunIsSafe(cfg, t);
    if Conserved(t.last, {}) {
      StraysAreDetermined(t.last, {}, Strays(t));
    }
  }

  /** The hash index holds exactly the queued actions and the strays, and no stray is queued. */
  lemma IndexIsExact(cfg: Config, t: Run, act: Action)
    requires IsRun(cfg, t)
    ensures Indexed(t.last.books.all, act) <==> IsQueued(t.last, act) || act in Strays(t)
    ensures !(IsQueued(t.last, act) && act in Strays(t))
  {
    var p := t.last;
    RunIsSafe(cfg, t);
    if IsQueued(p, act) {
      assert QueueOk(p.books.all, act.sender, p.workers[p.route(act.sender)][act.sender]);
    }
    if act in Strays(t) {
      assert Indexed(p.books.all, act);
    }
  }

  /** A stray stays in the index for good, so it is refused as already known whenever it is offered again. */
  lemma StrayIsRefused(cfg: Config, t: Run, r: Request)
    requires IsRun(cfg, t) && r.act in Strays(t)
    ensures Screen(cfg, t.last.books, r) == Some(if r.isSystem || r.badData then ErrInvalidAct else ErrExistedInPool)
  {
    IndexIsExact(cfg, t, r.act);
  }

  /**
   The destination map lists an action under d if and only if d is its destination, differs from its
   sender in more than the case of letters, and the action is queued or astray.
   */
  lemma DestinationIsExact(cfg: Config, t: Run, d: string, act: Action)
    requires IsRun(cfg, t)
    ensures
      var dest := t.last.books.dest;
      (d in dest && Indexed(dest[d], act)) <==>
      (act.destination == Some(d) && !SameButForCase(act.sender, d) && (IsQueued(t.last, act) || act in Strays(t)))
  {
    RunIsSafe(cfg, t);
    IndexIsExact(cfg, t, act);
    Listed(t.last.books.dest, t.last.books.all, d, act);
    EqualFoldMeans(act.sender, d);
  }

  // ---------- extending a run ----------

  /** A step that is no failed read adds no strays. */
  lemma NoMoreStrays(t: Run, op: Op, p: Pool)
    requires !op.Lose?
    ensures Strays(Then(t, op, p)) == Strays(t)
  {
  }

  lemma ExtendByAdd(cfg: Config, t: Run, r: Request, now: int, qs: map<string, Queue>, b: Books,
                    res: Option<Error>, victim: string)
    returns (t': Run)
    requires IsRun(cfg, t) && Screen(cfg, t.last.books, r).None? && t.last.route(r.act.sender) < |t.last.workers|
    requires Handled(Rank, cfg, t.last.workers[t.last.route(r.act.sender)], t.last.books, r,
                     IsFull(cfg, t.last.books, r.act), now, qs, b, res, victim)
    ensures IsRun(cfg, t') && Strays(t') == Strays(t)
    ensures Added(cfg, t.last, r, now, t'.last, res, victim)
    ensures
      var w := t.last.route(r.act.sender);
      SameElsewhere(t.last, w, t'.last) && t'.last.workers[w] == qs && t'.last.books == b
  {
    var p := Pool(t.last.route, t.last.workers[t.last.route(r.act.sender) := qs], b);
    assert Added(cfg, t.last, r, now, p, res, victim);
    assert Step(cfg, t.last, Add(r, now), p);
    NoMoreStrays(t, Add(r, now), p);
    t' := Then(t, Add(r, now), p);
  }

  /** A callback of Range: what an account's turn makes of its queue. */
  type Callback = (string, Queue) -> Queue

  /** What happened to one worker's queues and the books while Range went over its accounts. */
  datatype Sweep =
    | Begin(qs: map<string, Queue>, b: Books)
    | Next(before: Sweep, addr: string, removed: seq<Action>, qs: map<string, Queue>, b: Books)

  function Origin(s: Sweep): Sweep {
    match s
    case Begin(_, _) => s
    case Next(before, _, _, _, _) => Origin(before)
  }

  /** `told` says of which accounts the books learn what they give up. */
  ghost predicate IsSweep(turn: Callback, told: string -> bool, s: Sweep) {
    match s
    case Begin(_, _) => true
    case Next(before, addr, removed, qs, b) =>
      && IsSweep(turn, told, before) && addr in before.qs
      && var q := before.qs[addr];
         && GivenUp(q, turn(addr, q), told(addr), removed)
         && qs == before.qs[addr := turn(addr, q)] && b == LeaveAll(before.b, removed)
  }

  /** What the books learn of: all that the queue has dropped, or nothing. */
  ghost predicate GivenUp(q: Queue, q': Queue, told: bool, removed: seq<Action>) {
    match told
    case true => Lists(removed, q.items, Dropped(q, q'))
    case false => removed == []
  }

  /** Reset's callback: where no confirmed state can be read, the queue is emptied. */
  function RefreshTurn(confirmed: string -> Option<Account>, now: int): Callback {
    (a: string, q: Queue) =>
      match confirmed(a)
      case Some(account) => AccountQueue.Refresh(q, account.nonce, account.balance, now)
      case None => Empty(0, 0, q.ttl)
  }

  function RefreshTold(confirmed: string -> Option<Account>): string -> bool {
    (a: string) => confirmed(a).Some?
  }

  function RefreshOps(confirmed: string -> Option<Account>, now: int): string -> Op {
    (a: string) =>
      match confirmed(a)
      case Some(account) => Op.Refresh(a, account, now)
      case None => Op.Lose(a)
  }

  /** PendingActions' callback */
  function ExpireTurn(now: int): Callback {
    (a: string, q: Queue) => AccountQueue.Expire(q, now)
  }

  function ExpireTold(): string -> bool {
    (a: string) => true
  }

  function ExpireOps(now: int): string -> Op {
    (a: string) => Op.Expire(a, now)
  }

  /** One account's turn in a Reset is the step of the runs. */
  lemma RefreshTurnAt(confirmed: string -> Option<Account>, now: int, a: string, q: Queue)
    ensures
      var turn, op := RefreshTurn(confirmed, now), RefreshOps(confirmed, now)(a);
      IsTurnOf(a, RefreshTold(confirmed)(a), op) && turn(a, q) == AfterTurn(q, op)
  {
    match confirmed(a)
    case Some(account) =>
      assert RefreshTurn(confirmed, now)(a, q) == AccountQueue.Refresh(q, account.nonce, account.balance, now);
    case None =>
      assert RefreshTurn(confirmed, now)(a, q) == Empty(0, 0, q.ttl);
  }

  lemma RefreshTurnPerforms(confirmed: string -> Option<Account>, now: int)
    ensures Performs(RefreshTurn(confirmed, now), RefreshTold(confirmed), RefreshOps(confirmed, now))
  {
    var turn, told, ops := RefreshTurn(confirmed, now), RefreshTold(confirmed), RefreshOps(confirmed, now);
    forall a: string, q: Queue {:trigger AfterTurn(q, ops(a))}
      ensures IsTurnOf(a, told(a), ops(a)) && turn(a, q) == AfterTurn(q, ops(a))
    {
      RefreshTurnAt(confirmed, now, a, q);
    }
  }

  lemma ExpireTurnPerforms(now: int)
    ensures Performs(ExpireTurn(now), ExpireTold(), ExpireOps(now))
  {
  }

  /** The queue an account has after a step of its own. */
  function AfterTurn(q: Queue, op: Op): Queue {
    match op
    case Refresh(_, account, now) => AccountQueue.Refresh(q, account.nonce, account.balance, now)
    case Expire(_, now) => AccountQueue.Expire(q, now)
    case Lose(_) => Empty(0, 0, q.ttl)
    case _ => q
  }

  /** The callback is what the steps `ops` do, account by account. */
  ghost predicate Performs(turn: Callback, told: string -> bool, ops: string -> Op) {
    forall a, q {:trigger AfterTurn(q, ops(a))} ::
      IsTurnOf(a, told(a), ops(a)) && turn(a, q) == AfterTurn(q, ops(a))
  }

  predicate IsTurnOf(addr: string, told: bool, op: Op) {
    match op
    case Refresh(a, _, _) => a == addr && told
    case Expire(a, _) => a == addr && told
    case Lose(a) => a == addr && !told
    case _ => false
  }

  /** A sweep over a worker's accounts is a stretch of a run, one step for each account. */
  lemma {:induction false} ExtendBySweep(cfg: Config, t: Run, w: nat, turn: Callback, told: string -> bool,
                                         ops: string -> Op, s: Sweep)
    returns (t': Run)
    requires IsRun(cfg, t) && IsSweep(turn, told, s) && Performs(turn, told, ops) && w < |t.last.workers|
    requires t.last.workers[w] == Origin(s).qs && t.last.books == Origin(s).b
    ensures IsRun(cfg, t') && SameElsewhere(t.last, w, t'.last)
    ensures t'.last.workers[w] == s.qs && t'.last.books == s.b
    ensures (forall a :: told(a)) ==> Strays(t') == Strays(t)
    decreases s
  {
    match s
    case Begin(_, _) => t' := t;
    case Next(before, addr, removed, qs, b) =>
      var t1 := ExtendBySweep(cfg, t, w, turn, told, ops, before);
      Routed(cfg, t1, w, addr);
      assert turn(addr, before.qs[addr]) == AfterTurn(before.qs[addr], ops(addr));
      t' := ExtendByTurn(cfg, t1, w, addr, told(addr), ops(addr), removed);
  }

  /** A worker's part of a Reset, failed reads included. */
  lemma ExtendByReset(cfg: Config, t: Run, w: nat, confirmed: string -> Option<Account>, now: int, s: Sweep)
    returns (t': Run)
    requires IsRun(cfg, t) && IsSweep(RefreshTurn(confirmed, now), RefreshTold(confirmed), s) && w < |t.last.workers|
    requires t.last.workers[w] == Origin(s).qs && t.last.books == Origin(s).b
    ensures IsRun(cfg, t') && SameElsewhere(t.last, w, t'.last)
    ensures t'.last.workers[w] == s.qs && t'.last.books == s.b
    ensures (forall a :: confirmed(a).Some?) ==> Strays(t') == Strays(t)
  {
    RefreshTurnPerforms(confirmed, now);
    t' := ExtendBySweep(cfg, t, w, RefreshTurn(confirmed, now), RefreshTold(confirmed), RefreshOps(confirmed, now), s);
  }

  /** A worker's part of a call for the pending actions. */
  lemma ExtendByExpiry(cfg: Config, t: Run, w: nat, now: int, s: Sweep) returns (t': Run)
    requires IsRun(cfg, t) && IsSweep(ExpireTurn(now), ExpireTold(), s) && w < |t.last.workers|
    requires t.last.workers[w] == Origin(s).qs && t.last.books == Origin(s).b
    ensures IsRun(cfg, t') && SameElsewhere(t.last, w, t'.last)
    ensures t'.last.workers[w] == s.qs && t'.last.books == s.b
    ensures Strays(t') == Strays(t)
  {
    ExpireTurnPerforms(now);
    t' := ExtendBySweep(cfg, t, w, ExpireTurn(now), ExpireTold(), ExpireOps(now), s);
  }

  lemma ExtendByTurn(cfg: Config, t: Run, w: nat, addr: string, told: bool, op: Op, removed: seq<Action>)
    returns (t': Run)
    requires IsRun(cfg, t) && IsTurnOf(addr, told, op)
    requires w < |t.last.workers| && addr in t.last.workers[w] && t.last.route(addr) == w
    requires
      var q := t.last.workers[w][addr];
      GivenUp(q, AfterTurn(q, op), told, removed)
    ensures IsRun(cfg, t') && SameElsewhere(t.last, w, t'.last)
    ensures t'.last.workers[w] == t.last.workers[w][addr := AfterTurn(t.last.workers[w][addr], op)]
    ensures t'.last.books == LeaveAll(t.last.books, removed)
    ensures told ==> Strays(t') == Strays(t)
  {
    var q := t.last.workers[w][addr];
    var q' := AfterTurn(q, op);
    var p := WithQueue(t.last, addr, q', LeaveAll(t.last.books, removed));
    assert told ==> Pruned(t.last, addr, q', Dropped(q, q'), removed, p);
    assert Step(cfg, t.last, op, p);
    t' := Then(t, op, p);
  }

  lemma ExtendByDelete(cfg: Config, t: Run, addr: string, removed: seq<Action>) returns (t': Run)
    requires IsRun(cfg, t) && t.last.route(addr) < |t.last.workers| && addr in t.last.workers[t.last.route(addr)]
    requires
      var items := t.last.workers[t.last.route(addr)][addr].items;
      Lists(removed, items, items.Keys)
    ensures IsRun(cfg, t') && Strays(t') == Strays(t)
    ensures
      var w := t.last.route(addr);
      && SameElsewhere(t.last, w, t'.last)
      && t'.last.workers[w] == t.last.workers[w] - {addr}
      && t'.last.books == LeaveAll(t.last.books, removed)
  {
    var w := t.last.route(addr);
    var p := Pool(t.last.route, t.last.workers[w := t.last.workers[w] - {addr}], LeaveAll(t.last.books, removed));
    assert Step(cfg, t.last, Op.Delete(addr), p);
    t' := Then(t, Op.Delete(addr), p);
  }

  /** In a reachable pool every account sits with the worker its address is routed to, in a sound queue. */
  lemma Routed(cfg: Config, t: Run, w: nat, addr: string)
    requires IsRun(cfg, t) && w < |t.last.workers| && addr in t.last.workers[w]
    ensures t.last.route(addr) == w && Valid(t.last.workers[w][addr])
  {
    RunIsSafe(cfg, t);
    assert t.last.route(addr) == w && QueueOk(t.last.books.all, addr, t.last.workers[w][addr]);
  }
}
