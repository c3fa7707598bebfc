/**
 The pool's shared books and the workers that own the accounts, as objects. Handle is proved to
 take exactly the step that `PoolRuns` describes.
 */
module QueueWorkers {
  import opened Actions
  import opened AccountQueue
  import opened AccountHeaps
  import opened AccountPools
  import opened PoolBooks
  import opened PoolModel
  import opened PoolRuns
  import opened ReadyPrefix
  import opened WorkerReports

  /** The fields of the pool that all workers update. */
  class Ledger {
    var allActions: map<Hash, Action>
    var gasInPool: U64
    var accountDesActs: map<string, map<Hash, Action>>
    var blobCntPerAcc: map<string, nat>

    /** The four fields as one value. */
    ghost var books: Books

    ghost predicate Valid()
      reads this
    {
      books == Books(allActions, gasInPool, accountDesActs, blobCntPerAcc)
    }

    constructor ()
      ensures Valid() && books == EMPTY_BOOKS
    {
      allActions, gasInPool, accountDesActs, blobCntPerAcc := map[], 0, map[], map[];
      books := EMPTY_BOOKS;
    }

    /** The bookkeeping in the middle of Handle */
    method Record(act: Action)
      requires Valid()
      modifies this
      ensures Valid() && books == Enter(old(books), act)
    {
      allActions := allActions[act.hash := act];
      blobCntPerAcc := CountUp(blobCntPerAcc, act);
      accountDesActs := AddDestination(accountDesActs, act);
      gasInPool := AddGas(gasInPool, act.gas);
      books := Enter(books, act);
    }

    /** The body of removeInvalidActs' loop */
    method RemoveInvalidAct(act: Action)
      requires Valid()
      modifies this
      ensures Valid() && books == Leave(old(books), act)
    {
      allActions := allActions - {act.hash};
      gasInPool := AddGas(gasInPool, Complement(act.gas));
      accountDesActs := DropDestination(accountDesActs, act);
      blobCntPerAcc := CountDown(blobCntPerAcc, act);
      books := Leave(books, act);
    }

    /** What the books see of a Put and of the bookkeeping after it. */
    method Accept(replaced: Option<Action>, act: Action)
      requires Valid()
      modifies this
      ensures Valid() && books == AcceptBooks(old(books), replaced, act)
    {
      if replaced.Some? {
        RemoveInvalidAct(replaced.value);
      }
      Record(act);
    }

    /** removeInvalidActs */
    method RemoveInvalidActs(acts: seq<Action>)
      requires Valid()
      modifies this
      ensures Valid() && books == LeaveAll(old(books), acts)
    {
      for i := 0 to |acts|
        invariant Valid() && LeaveAll(books, acts[i..]) == LeaveAll(old(books), acts)
      {
        assert acts[i..][0] == acts[i] && acts[i..][1..] == acts[i + 1..];
        RemoveInvalidAct(acts[i]);
      }
    }
  }

  /** What a callback of Range does: Reset's, or that of PendingActions. */
  datatype Job = Refreshing(confirmed: string -> Option<Account>, now: int) | Expiring(now: int)

  function TurnOf(job: Job): Callback {
    match job
    case Refreshing(confirmed, now) => RefreshTurn(confirmed, now)
    case Expiring(now) => ExpireTurn(now)
  }

  function ToldOf(job: Job): string -> bool {
    match job
    case Refreshing(confirmed, _) => RefreshTold(confirmed)
    case Expiring(_) => ExpireTold()
  }

  class QueueWorker {
    const cfg: Config
    const accountActs: AccountPool
    const ledger: Ledger
    var emptyAccounts: set<string>

    ghost predicate Valid()
      reads accountActs, accountActs.heap, accountActs.heap.members, accountActs.heap.parts.Keys
    {
      accountActs.Valid()
    }

    /** What the account heap's order is like; it is fixed at construction. */
    ghost predicate Ranked() {
      accountActs.Standard()
    }

    ghost function Repr(): set<object>
      reads accountActs.heap`members, accountActs.heap`parts
    {
      {this, accountActs, accountActs.heap} + accountActs.heap.members + accountActs.heap.parts.Keys
    }

    lemma NoLedger(ledger: Ledger)
      requires Valid()
      ensures ledger !in Repr()
    {
    }

    ghost function Queues(): map<string, Queue>
      reads accountActs
    {
      accountActs.queues
    }

    constructor (cfg: Config, ledger: Ledger)
      requires ledger.Valid()
      ensures Valid() && Ranked() && accountActs.heap.rank == Rank && Queues() == map[]
      ensures this.cfg == cfg && this.ledger == ledger
      ensures fresh(Repr())
    {
      this.cfg, this.ledger := cfg, ledger;
      accountActs := new AccountPool();
      emptyAccounts := {};
    }

    /** removeEmptyAccounts: of the accounts noted, those that are still empty go. */
    method RemoveEmptyAccounts()
      requires Valid() && ledger.Valid() && Ranked()
      modifies this, accountActs, accountActs.heap, accountActs.heap.members`index
      ensures Valid() && ledger.Valid() && Repr() <= old(Repr())
      ensures emptyAccounts == {} && Queues() == Forgotten(old(Queues()), old(emptyAccounts))
      ensures forall a :: a in Queues() <==>
                a in old(Queues()) && !(a in old(emptyAccounts) && old(Queues())[a].items == map[])
      ensures forall a | a in Queues() :: Queues()[a] == old(Queues())[a]
      ensures Cleaned(old(Queues()), Queues())
    {
      var left := emptyAccounts;
      while left != {}
        invariant Valid() && accountActs.heap.members <= old(accountActs.heap.members)
        invariant unchanged(accountActs.heap`parts)
        invariant emptyAccounts == old(emptyAccounts)
        invariant Forgotten(Queues(), left) == Forgotten(old(Queues()), old(emptyAccounts))
        decreases left
      {
        var addr :| addr in left;
        ghost var qs := Queues();
        accountActs.DeleteIfEmpty(addr);
        ForgottenStep(qs, left, addr, Queues());
        left := left - {addr};
      }
      emptyAccounts := {};
      NobodyNoted(Queues());
      ForgottenIsCleaned(old(Queues()), old(emptyAccounts));
    }

    /** getConfirmedState and checkSelpWithState */
    method CheckState(r: Request) returns (res: Option<Error>, account: Account)
      requires Valid()
      ensures res.Some? ==> Reject(cfg, Queues(), r) == res
      ensures res.None? ==> StateFor(Queues(), r) == Some(account) && account.nonce <= r.act.nonce
      ensures res.None? ==> Reject(cfg, Queues(), r) == PutError(Target(cfg, Queues(), r), r.act)
    {
      res, account := None, Account(0, 0);
      if r.cancelled {
        return Some(ErrCancelled), account;
      }
      var q := accountActs.Account(r.act.sender);
      var pending: nat;
      if q.Some? {
        account := Account(q.value.accountNonce, q.value.accountBalance);
        q.value.CacheIsExact();
        pending := q.value.pendingNonce;
      } else if r.confirmed.None? {
        return Some(ErrStateRead), account;
      } else {
        account := r.confirmed.value;
        pending := account.nonce;
      }
      res := CheckWithState(cfg, pending, account, r.act);
    }

    /** The books learn of an accepted action; the accounts do not change. */
    method TellAccepted(replaced: Option<Action>, act: Action)
      requires Valid() && ledger.Valid()
      modifies ledger
      ensures Valid() && ledger.Valid() && ledger.books == AcceptBooks(old(ledger.books), replaced, act)
    {
      ledger.Accept(replaced, act);
    }

    /** The books learn of actions that have gone; the accounts do not change. */
    method TellRemoved(acts: seq<Action>)
      requires accountActs.Sound() && ledger.Valid()
      modifies ledger
      ensures accountActs.Sound() && ledger.Valid() && ledger.books == LeaveAll(old(ledger.books), acts)
      ensures old(Valid()) ==> Valid()
    {
      ledger.RemoveInvalidActs(acts);
    }

    /** The middle of Handle: the Put, and what the books record of it. */
    method Enroll(r: Request, account: Account, now: int) returns (put: Result<Option<Action>>)
      requires Valid() && ledger.Valid() && Ranked()
      requires StateFor(Queues(), r) == Some(account) && account.nonce <= r.act.nonce
      modifies Repr(), ledger
      ensures Valid() && ledger.Valid() && fresh(Repr() - old(Repr()))
      ensures PutDone(old(Queues()), r.act.sender, Target(cfg, old(Queues()), r), r.act, now, put, Queues())
      ensures ledger.books == Recorded(old(ledger.books), put, r.act)
    {
      NoLedger(ledger);
      put := accountActs.PutAction(r.act.sender, account.nonce, account.balance, cfg.ttl, r.act, now);
      if put.Ok? {
        TellAccepted(put.value, r.act);
      }
    }

    /** Eviction; PopPeek's nil is impossible here, because the sender's queue is not empty. */
    method Evict(sender: string, nonce: nat) returns (res: Option<Error>, ghost victim: string)
      requires Valid() && ledger.Valid() && Ranked()
      requires sender in Queues() && Queues()[sender].items != map[]
      modifies Repr(), ledger
      ensures Valid() && ledger.Valid() && Repr() <= old(Repr())
      ensures IsVictim(accountActs.heap.rank, old(Queues()), victim)
      ensures Queues() == old(Queues())[victim := WithoutLargest(old(Queues())[victim])]
      ensures ledger.books == Leave(old(ledger.books), Largest(old(Queues())[victim]))
      ensures
        var act := Largest(old(Queues())[victim]);
        res == if act.sender == sender && act.nonce == nonce then Some(ErrTxPoolOverflow) else None
    {
      NoLedger(ledger);
      var act;
      act, victim := PopVictim(sender);
      res := if act.sender == sender && act.nonce == nonce then Some(ErrTxPoolOverflow) else None;
      TellRemoved([act]);
      assert LeaveAll(old(ledger.books), [act]) == LeaveAll(Leave(old(ledger.books), act), []);
    }

    method PopVictim(ghost sender: string) returns (act: Action, ghost victim: string)
      requires Valid() && Ranked()
      requires sender in Queues() && Queues()[sender].items != map[]
      modifies Repr()
      ensures Valid() && Repr() <= old(Repr())
      ensures IsVictim(accountActs.heap.rank, old(Queues()), victim)
      ensures Queues() == old(Queues())[victim := WithoutLargest(old(Queues())[victim])]
      ensures act == Largest(old(Queues())[victim])
    {
      var top;
      top, victim := accountActs.PopPeek();
      act := top.value;
    }

    /** The end of Handle. */
    method Settle(full: bool, sender: string, nonce: nat) returns (res: Option<Error>, ghost victim: string)
      requires Valid() && ledger.Valid() && Ranked() && sender in Queues() && Queues()[sender].items != map[]
      modifies Repr(), ledger
      ensures Valid() && ledger.Valid() && Repr() <= old(Repr())
      ensures Settled(accountActs.heap.rank, old(Queues()), old(ledger.books), full, sender, nonce, Queues(),
              ledger.books, res, victim)
    {
      res, victim := None, "";
      if full {
        res, victim := Evict(sender, nonce);
      }
      RemoveEmptyAccounts();
    }

    /** Handle, once the checks are passed. */
    method Admit(r: Request, account: Account, full: bool, now: int)
      returns (res: Option<Error>, ghost victim: string)
      requires Valid() && ledger.Valid() && Ranked()
      requires StateFor(Queues(), r) == Some(account) && account.nonce <= r.act.nonce
      requires Reject(cfg, Queues(), r) == PutError(Target(cfg, Queues(), r), r.act)
      modifies Repr(), ledger
      ensures Valid() && ledger.Valid() && fresh(Repr() - old(Repr()))
      ensures Handled(accountActs.heap.rank, cfg, old(Queues()), old(ledger.books), r, full, now, Queues(),
              ledger.books, res, victim)
    {
      victim := "";
      var put := Enroll(r, account, now);
      if put.Err? {
        return Some(put.error), "";
      }
      assert r.act.nonce in Queues()[r.act.sender].items;
      res, victim := Settle(full, r.act.sender, account.nonce);
    }

    /** Handle */
    method Handle(r: Request, full: bool, now: int) returns (res: Option<Error>, ghost victim: string)
      requires Valid() && ledger.Valid() && Ranked()
      modifies Repr(), ledger
      ensures Valid() && ledger.Valid() && fresh(Repr() - old(Repr()))
      ensures Handled(accountActs.heap.rank, cfg, old(Queues()), old(ledger.books), r, full, now, Queues(),
              ledger.books, res, victim)
    {
      victim := "";
      var account;
      res, account := CheckState(r);
      if res.None? {
        res, victim := Admit(r, account, full, now);
      }
    }

    /** The sweep `s` leads to the worker's queues and the books as they are. */
    ghost predicate Follows(job: Job, s: Sweep)
      reads accountActs`queues, ledger`books
    {
      IsSweep(TurnOf(job), ToldOf(job), s) && s.qs == accountActs.queues && s.b == ledger.books
    }

    /** The work on one account's queue. */
    method Work(job: Job, addr: string, x: AccountItem) returns (removed: seq<Action>)
      requires accountActs.heap.Sound() && x in accountActs.heap.members
      modifies accountActs.heap`parts, accountActs.heap.parts.Keys, x`queue
      ensures accountActs.OnlyQueueOf(x) && accountActs.heap.Sound()
      ensures accountActs.heap.parts.Keys == old(accountActs.heap.parts.Keys)
      ensures x.queue == TurnOf(job)(addr, old(x.queue))
      ensures GivenUp(old(x.queue), x.queue, ToldOf(job)(addr), removed)
    {
      match job
      case Refreshing(confirmed, now) =>
        match confirmed(addr) {
          case Some(account) =>
            removed := accountActs.RefreshAccount(x, account.nonce, account.balance, now);
          case None =>
            accountActs.EmptyAccount(x);
            removed := [];
        }
      case Expiring(now) =>
        removed := accountActs.ExpireAccount(x, now);
    }

    /** One account's turn, but for the books. */
    method Turn(job: Job, addr: string) returns (removed: seq<Action>)
      requires accountActs.Sound() && addr in Queues()
      modifies accountActs`queues, accountActs.heap`parts, accountActs.heap.parts.Keys,
               accountActs.heap.members`queue
      ensures accountActs.Sound() && accountActs.heap.parts.Keys == old(accountActs.heap.parts.Keys)
      ensures Queues() == old(Queues())[addr := TurnOf(job)(addr, old(Queues())[addr])]
      ensures GivenUp(old(Queues())[addr], TurnOf(job)(addr, old(Queues())[addr]), ToldOf(job)(addr), removed)
    {
      var x := accountActs.accounts[addr];
      removed := Work(job, addr, x);
      accountActs.AllButOne(addr);
      accountActs.Note(addr);
    }

    /** One account's turn in a Range. */
    method TakeTurn(job: Job, addr: string, ghost s: Sweep, ghost from: map<string, Queue>, ghost left: set<string>)
      returns (ghost s': Sweep)
      requires accountActs.Sound() && ledger.Valid() && Follows(job, s) && addr in Queues()
      requires addr in left && Partway(from, TurnOf(job), left, Queues())
      modifies accountActs`queues, accountActs.heap`parts, accountActs.heap.parts.Keys,
               accountActs.heap.members`queue, ledger
      ensures accountActs.Sound() && ledger.Valid() && Follows(job, s') && Origin(s') == Origin(s)
      ensures accountActs.heap.parts.Keys == old(accountActs.heap.parts.Keys)
      ensures Partway(from, TurnOf(job), left - {addr}, Queues())
    {
      ghost var qs := Queues();
      var removed := Turn(job, addr);
      PartwayStep(from, TurnOf(job), left, qs, addr, Queues());
      TellRemoved(removed);
      s' := Next(s, addr, removed, Queues(), ledger.books);
      SweepsOn(job, s, addr, removed, s');
    }

    /** Range: every account has its turn, in any order; the heap order is suspended meanwhile. */
    method Range(job: Job, ghost s0: Sweep, ghost objs: set<object>) returns (ghost s: Sweep)
      requires accountActs.Sound() && ledger.Valid() && Follows(job, s0) && accountActs.heap.parts.Keys == objs
      modifies accountActs`queues, accountActs.heap`parts, objs, accountActs.heap.members`queue, ledger
      ensures accountActs.Sound() && ledger.Valid() && accountActs.heap.parts.Keys == objs
      ensures Partway(old(Queues()), TurnOf(job), {}, Queues())
      ensures Follows(job, s) && Origin(s) == Origin(s0)
    {
      var left := accountActs.accounts.Keys;
      ghost var from := Queues();
      s := s0;
      while left != {}
        invariant accountActs.Sound() && ledger.Valid() && left <= from.Keys
        invariant accountActs.heap.parts.Keys == objs
        invariant Partway(from, TurnOf(job), left, Queues())
        invariant Follows(job, s) && Origin(s) == Origin(s0)
        decreases left
      {
        var addr :| addr in left;
        s := TakeTurn(job, addr, s, from, left);
        left := left - {addr};
      }
    }

    /** Range, ended by the re-ordering of the heap. */
    method RangeAndReorder(job: Job) returns (ghost s: Sweep)
      requires Valid() && ledger.Valid() && Ranked()
      modifies accountActs`queues, accountActs.heap, accountActs.heap.members, accountActs.heap.parts.Keys, ledger
      ensures Valid() && ledger.Valid()
      ensures accountActs.heap.members == old(accountActs.heap.members)
      ensures accountActs.heap.parts.Keys == old(accountActs.heap.parts.Keys)
      ensures Queues() == TurnAll(old(Queues()), TurnOf(job))
      ensures Follows(job, s) && Origin(s) == Begin(old(Queues()), old(ledger.books))
    {
      s := Range(job, Begin(Queues(), ledger.books), accountActs.heap.parts.Keys);
      PartwayDone(old(Queues()), TurnOf(job), Queues());
      accountActs.Reorder();
    }

    /** The accounts that Reset notes for removal. */
    method NoteEmpty()
      requires accountActs.Sound()
      modifies this`emptyAccounts
      ensures emptyAccounts == old(emptyAccounts) + set a | a in Queues() && Queues()[a].items == map[]
    {
      accountActs.SameItems();
      emptyAccounts := emptyAccounts +
        (set a | a in accountActs.accounts && accountActs.accounts[a].actQueue.Empty());
    }

    /**
     Reset: every account is refreshed from its confirmed state and what it drops leaves the books;
     where no state can be read, its queue is emptied and the books are not told. The accounts
     without actions are noted for removal.
     */
    method Reset(confirmed: string -> Option<Account>, now: int) returns (ghost s: Sweep)
      requires Valid() && ledger.Valid() && Ranked()
      modifies Repr(), ledger
      ensures Valid() && ledger.Valid() && Repr() == old(Repr())
      ensures Queues() == TurnAll(old(Queues()), RefreshTurn(confirmed, now))
      ensures emptyAccounts == old(emptyAccounts) + set a | a in Queues() && Queues()[a].items == map[]
      ensures Follows(Refreshing(confirmed, now), s) && Origin(s) == Begin(old(Queues()), old(ledger.books))
    {
      s := RangeAndReorder(Refreshing(confirmed, now));
      NoteEmpty();
    }

    /**
     PendingActions: expired actions go, then every account reports its ready actions, unless its
     confirmed state cannot be read.
     */
    method PendingActions(confirmed: string -> Option<Account>, now: int)
      returns (pending: map<string, seq<Action>>, ghost s: Sweep)
      requires Valid() && ledger.Valid() && Ranked()
      modifies Repr(), ledger
      ensures Valid() && ledger.Valid() && Repr() == old(Repr())
      ensures Queues() == TurnAll(old(Queues()), ExpireTurn(now))
      ensures pending == AllReady(Queues(), confirmed)
      ensures forall a :: RightlyPending(pending, a, Queues(), confirmed(a))
      ensures Follows(Expiring(now), s) && Origin(s) == Begin(old(Queues()), old(ledger.books))
    {
      s := RangeAndReorder(Expiring(now));
      pending := ReportAll(confirmed);
      AllRightlyPending(Queues(), confirmed);
    }

    /** PendingActs of one account, if its confirmed state can be read. */
    method Report(addr: string, confirmed: Option<Account>) returns (acts: seq<Action>)
      requires accountActs.Sound() && addr in Queues()
      ensures acts == Ready(Queues()[addr], confirmed)
    {
      acts := [];
      if confirmed.Some? {
        var q := accountActs.Account(addr);
        acts := q.value.PendingActs(confirmed.value.nonce, confirmed.value.balance);
        ReadyListed(Queues()[addr], confirmed.value, acts);
      }
    }

    method ReportAll(confirmed: string -> Option<Account>) returns (pending: map<string, seq<Action>>)
      requires accountActs.Sound()
      ensures pending == AllReady(Queues(), confirmed)
    {
      var left := accountActs.accounts.Keys;
      pending := map[];
      while left != {}
        invariant left <= Queues().Keys && Reported(Queues(), left, confirmed, pending)
        decreases left
      {
        var addr :| addr in left;
        var acts := Report(addr, confirmed(addr));
        ReportedStep(Queues(), left, confirmed, pending, addr);
        if acts != [] {
          pending := pending[addr := acts];
        }
        left := left - {addr};
      }
      ReportedDone(Queues(), confirmed, pending);
    }

    /** ResetAccount: an account leaves the worker with all its actions and is noted for removal. */
    method ResetAccount(addr: string) returns (acts: seq<Action>)
      requires Valid() && Ranked() && addr in Queues()
      modifies Repr()
      ensures Valid() && Repr() <= old(Repr())
      ensures Queues() == old(Queues()) - {addr}
      ensures Lists(acts, old(Queues())[addr].items, old(Queues())[addr].items.Keys)
      ensures emptyAccounts == old(emptyAccounts) + {addr}
    {
      var noted := emptyAccounts + {addr};
      acts := accountActs.Withdraw(addr);
      SetNoted(noted);
    }

    method SetNoted(noted: set<string>)
      requires Valid()
      modifies this`emptyAccounts
      ensures Valid() && emptyAccounts == noted
    {
      emptyAccounts := noted;
    }

    /** ResetAccount, and what DeleteAction does with its answer */
    method DeleteAccount(addr: string) returns (ghost removed: seq<Action>)
      requires Valid() && ledger.Valid() && Ranked()
      modifies Repr(), ledger
      ensures Valid() && ledger.Valid() && Repr() <= old(Repr())
      ensures Queues() == old(Queues()) - {addr} && ledger.books == LeaveAll(old(ledger.books), removed)
      ensures GivesUp(old(Queues()), addr, removed)
      ensures emptyAccounts == old(emptyAccounts) + if addr in old(Queues()) then {addr} else {}
    {
      removed := [];
      if addr in accountActs.accounts {
        NoLedger(ledger);
        var acts := ResetAccount(addr);
        TellRemoved(acts);
        removed := acts;
      } else {
        assert Queues() - {addr} == Queues();
      }
    }
  }

  lemma SweepsOn(job: Job, s: Sweep, addr: string, removed: seq<Action>, s': Sweep)
    requires IsSweep(TurnOf(job), ToldOf(job), s) && addr in s.qs
    requires
      var q := s.qs[addr];
      var q' := TurnOf(job)(addr, q);
      && GivenUp(q, q', ToldOf(job)(addr), removed)
      && s' == Next(s, addr, removed, s.qs[addr := q'], LeaveAll(s.b, removed))
    ensures IsSweep(TurnOf(job), ToldOf(job), s') && Origin(s') == Origin(s)
  {
  }

  /** What the books become once a Put has been answered. */
  function Recorded(b: Books, put: Result<Option<Action>>, act: Action): Books {
    match put
    case Ok(replaced) => AcceptBooks(b, replaced, act)
    case Err(_) => b
  }

  /** The queues without the empty ones of the accounts noted. */
  function Forgotten(qs: map<string, Queue>, noted: set<string>): map<string, Queue> {
    map a | a in qs && !(a in noted && qs[a].items == map[]) :: qs[a]
  }

  lemma ForgottenStep(qs: map<string, Queue>, noted: set<string>, addr: string, qs': map<string, Queue>)
    requires addr in noted
    requires qs' == if addr in qs && qs[addr].items == map[] then qs - {addr} else qs
    ensures Forgotten(qs', noted - {addr}) == Forgotten(qs, noted)
  {
  }

  lemma NobodyNoted(qs: map<string, Queue>)
    ensures Forgotten(qs, {}) == qs
  {
  }

  lemma ForgottenIsCleaned(qs: map<string, Queue>, noted: set<string>)
    ensures Cleaned(qs, Forgotten(qs, noted))
  {
  }

  /** `removed` is what the account had, if there was one. */
  ghost predicate GivesUp(qs: map<string, Queue>, addr: string, removed: seq<Action>) {
    match addr in qs
    case true => Lists(removed, qs[addr].items, qs[addr].items.Keys)
    case false => removed == []
  }

  /** A Range in progress: the accounts in `left` have not had their turn. */
  ghost predicate Partway(from: map<string, Queue>, turn: Callback, left: set<string>, qs: map<string, Queue>) {
    && qs.Keys == from.Keys
    && forall a | a in qs :: qs[a] == if a in left then from[a] else turn(a, from[a])
  }

  lemma PartwayStep(from: map<string, Queue>, turn: Callback, left: set<string>, qs: map<string, Queue>,
                    addr: string, qs': map<string, Queue>)
    requires Partway(from, turn, left, qs) && addr in left && addr in qs
    requires qs' == qs[addr := turn(addr, qs[addr])]
    ensures Partway(from, turn, left - {addr}, qs')
  {
  }

  lemma PartwayDone(from: map<string, Queue>, turn: Callback, qs: map<string, Queue>)
    requires Partway(from, turn, {}, qs)
    ensures qs == TurnAll(from, turn)
  {
  }
}
