/**
 What a worker's accounts look like after a Range, what a worker and the pool report as pending, and
 what that means in terms of the queued actions and the confirmed states.
 */
module WorkerReports {
  import opened Actions
  import opened AccountQueue
  import opened PoolModel
  import opened PoolRuns
  import opened QueueRules
  import opened ReadyPrefix

  // ---------- after a Range ----------

  /** The queues after every account has had its turn. */
  function TurnAll(qs: map<string, Queue>, turn: Callback): map<string, Queue> {
    map a | a in qs :: turn(a, qs[a])
  }

  /**
   A Reset leaves every account in place. One whose state could be read has the confirmed nonce and
   balance, without what is used up or too old; one whose state could not be read has nothing.
   */
  lemma ResetMeans(qs: map<string, Queue>, confirmed: string -> Option<Account>, now: int, a: string)
    requires a in qs && Valid(qs[a])
    ensures
      var r := TurnAll(qs, RefreshTurn(confirmed, now));
      && r.Keys == qs.Keys
      && match confirmed(a) {
           case Some(account) =>
             && r[a].accountNonce == account.nonce && r[a].accountBalance == account.balance
             && r[a].ttl == qs[a].ttl && Remain(qs[a], r[a])
             && forall n :: n in r[a].items <==>
                            n in qs[a].items && n >= account.nonce && (n > account.nonce ==> !TooOld(qs[a], n, now))
           case None =>
             && r[a].items == map[] && r[a].deadlines == map[]
             && r[a].accountNonce == 0 && r[a].accountBalance == 0 && r[a].ttl == qs[a].ttl
         }
  {
    var turn := RefreshTurn(confirmed, now);
    assert TurnAll(qs, turn)[a] == turn(a, qs[a]);
    match confirmed(a)
    case Some(account) =>
      assert turn(a, qs[a]) == AccountQueue.Refresh(qs[a], account.nonce, account.balance, now);
      RefreshMeans(qs[a], account.nonce, account.balance, now);
    case None =>
      assert turn(a, qs[a]) == Empty(0, 0, qs[a].ttl);
  }

  // ---------- what a worker reports ----------

  /** The ready actions of every account that has any. */
  function AllReady(qs: map<string, Queue>, confirmed: string -> Option<Account>): map<string, seq<Action>> {
    map a | a in qs && Ready(qs[a], confirmed(a)) != [] :: Ready(qs[a], confirmed(a))
  }

  ghost predicate Reported(goal: map<string, Queue>, left: set<string>, confirmed: string -> Option<Account>,
                           pending: map<string, seq<Action>>)
  {
    && (forall a | a in pending :: a in goal && a !in left && pending[a] == Ready(goal[a], confirmed(a)) != [])
    && (forall a | a in goal && a !in left && Ready(goal[a], confirmed(a)) != [] :: a in pending)
  }

  lemma ReportedStep(goal: map<string, Queue>, left: set<string>, confirmed: string -> Option<Account>,
                     pending: map<string, seq<Action>>, addr: string)
    requires Reported(goal, left, confirmed, pending) && addr in left && addr in goal
    ensures
      var acts := Ready(goal[addr], confirmed(addr));
      Reported(goal, left - {addr}, confirmed, if acts != [] then pending[addr := acts] else pending)
  {
  }

  lemma ReportedDone(goal: map<string, Queue>, confirmed: string -> Option<Account>, pending: map<string, seq<Action>>)
    requires Reported(goal, {}, confirmed, pending)
    ensures pending == AllReady(goal, confirmed)
  {
  }

  /** PendingActs: the ready prefix, recomputed from a confirmed state if there is one */
  function Ready(q: Queue, confirmed: Option<Account>): seq<Action> {
    match confirmed
    case Some(account) => ReadyActs(Queue(q.items, q.deadlines, account.nonce, account.balance, q.ttl))
    case None => []
  }

  /** The actions with consecutive nonces from the confirmed one to the end of the prefix are the ready ones. */
  lemma ReadyListed(q: Queue, account: Account, acts: seq<Action>)
    requires |acts| == ReadyEnd(q.items, account.nonce, account.balance) - account.nonce
    requires forall i | 0 <= i < |acts| :: Lookup(q.items, account.nonce + i) == Some(acts[i])
    ensures acts == Ready(q, Some(account))
  {
    var ready := Ready(q, Some(account));
    assert |ready| == |acts|;
    assert forall i | 0 <= i < |acts| :: Some(acts[i]) == Some(ready[i]);
  }

  ghost predicate Stands(items: Items, n: nat, act: Action) {
    n in items && items[n] == act
  }

  /**
   The list has the actions with consecutive nonces from the confirmed one on, exactly as far as they
   are queued and the confirmed balance pays for them.
   */
  ghost predicate ReadyList(items: Items, account: Account, acts: seq<Action>) {
    && (forall i | 0 <= i < |acts| :: Stands(items, account.nonce + i, acts[i]))
    && forall n | n >= account.nonce ::
         n < account.nonce + |acts| <==> PaidThrough(items, account.nonce, account.balance, n)
  }

  /** What is reported of an account: nothing, unless its state is known and its next action can be paid for. */
  ghost predicate RightlyPending(pending: map<string, seq<Action>>, a: string, qs: map<string, Queue>,
                                 confirmed: Option<Account>)
  {
    match confirmed
    case None => a !in pending
    case Some(account) =>
      && (a in pending <==>
            && a in qs && account.nonce in qs[a].items
            && qs[a].items[account.nonce].cost <= account.balance)
      && (a in pending ==> ReadyList(qs[a].items, account, pending[a]))
  }

  lemma ReadyActsListed(q: Queue)
    ensures ReadyList(q.items, Account(q.accountNonce, q.accountBalance), ReadyActs(q))
  {
    var acts := ReadyActs(q);
    forall i | 0 <= i < |acts| ensures Stands(q.items, q.accountNonce + i, acts[i]) {
      assert Lookup(q.items, q.accountNonce + i) == Some(acts[i]);
    }
    forall n | n >= q.accountNonce
      ensures n < PendingNonce(q) <==> PaidThrough(q.items, q.accountNonce, q.accountBalance, n)
    {
      ReadyMeans(q.items, q.accountNonce, q.accountBalance, n);
    }
  }

  lemma ReadyIsPaid(q: Queue, account: Account)
    ensures ReadyList(q.items, account, Ready(q, Some(account)))
    ensures Ready(q, Some(account)) != [] <==>
            account.nonce in q.items && q.items[account.nonce].cost <= account.balance
  {
    var c := Queue(q.items, q.deadlines, account.nonce, account.balance, q.ttl);
    ReadyActsListed(c);
    FirstReadyMeans(c);
  }

  lemma AllReadyMeans(qs: map<string, Queue>, confirmed: string -> Option<Account>, a: string)
    ensures RightlyPending(AllReady(qs, confirmed), a, qs, confirmed(a))
  {
    if a in qs && confirmed(a).Some? {
      ReadyIsPaid(qs[a], confirmed(a).value);
    }
  }

  lemma AllRightlyPending(qs: map<string, Queue>, confirmed: string -> Option<Account>)
    ensures forall a :: RightlyPending(AllReady(qs, confirmed), a, qs, confirmed(a))
  {
    forall a ensures RightlyPending(AllReady(qs, confirmed), a, qs, confirmed(a)) {
      AllReadyMeans(qs, confirmed, a);
    }
  }

  // ---------- what the pool reports ----------

  /** What the first workers report once their accounts have had their turn. */
  ghost predicate Reports(reports: seq<map<string, seq<Action>>>, from: seq<map<string, Queue>>, now: int,
                          confirmed: string -> Option<Account>)
  {
    && |reports| <= |from|
    && forall i {:trigger reports[i]} | 0 <= i < |reports| :: IsReport(reports[i], from[i], now, confirmed)
  }

  ghost predicate IsReport(report: map<string, seq<Action>>, qs: map<string, Queue>, now: int,
                           confirmed: string -> Option<Account>)
  {
    report == AllReady(TurnAll(qs, ExpireTurn(now)), confirmed)
  }

  /** Several reports put together; a later one counts. */
  function Merged(reports: seq<map<string, seq<Action>>>): map<string, seq<Action>> {
    if reports == [] then map[] else Merged(reports[..|reports| - 1]) + reports[|reports| - 1]
  }

  ghost predicate Gathered(reports: seq<map<string, seq<Action>>>, from: seq<map<string, Queue>>, now: int,
                           confirmed: string -> Option<Account>, pending: map<string, seq<Action>>)
  {
    Reports(reports, from, now, confirmed) && pending == Merged(reports)
  }

  lemma MergedFurther(reports: seq<map<string, seq<Action>>>, more: map<string, seq<Action>>)
    ensures Merged(reports + [more]) == Merged(reports) + more
  {
    assert (reports + [more])[..|reports|] == reports;
  }

  lemma ReportsFurther(reports: seq<map<string, seq<Action>>>, from: seq<map<string, Queue>>, now: int,
                       confirmed: string -> Option<Account>, more: map<string, seq<Action>>)
    requires Reports(reports, from, now, confirmed) && |reports| < |from|
    requires IsReport(more, from[|reports|], now, confirmed)
    ensures Reports(reports + [more], from, now, confirmed)
  {
  }

  /** The accounts are with the workers that their addresses are routed to. */
  ghost predicate Homed(qss: seq<map<string, Queue>>, route: string -> nat) {
    forall w, a | 0 <= w < |qss| && a in qss[w] :: route(a) == w
  }

  /** What is said of an account is what its own worker reports. */
  lemma {:induction false} MergedIsOwn(reports: seq<map<string, seq<Action>>>, route: string -> nat, a: string)
    requires forall w | 0 <= w < |reports| && w != route(a) :: a !in reports[w]
    ensures a in Merged(reports) <==> route(a) < |reports| && a in reports[route(a)]
    ensures a in Merged(reports) ==> Merged(reports)[a] == reports[route(a)][a]
    decreases |reports|
  {
    if reports != [] {
      MergedIsOwn(reports[..|reports| - 1], route, a);
    }
  }

  /** After the cleaning, exactly the accounts that should be are reported, with exactly their ready actions. */
  lemma GatheredMeans(reports: seq<map<string, seq<Action>>>, from: seq<map<string, Queue>>, now: int,
                      confirmed: string -> Option<Account>, pending: map<string, seq<Action>>,
                      route: string -> nat, a: string)
    requires Gathered(reports, from, now, confirmed, pending) && |reports| == |from|
    requires Homed(from, route) && route(a) < |from|
    ensures RightlyPending(pending, a, TurnAll(from[route(a)], ExpireTurn(now)), confirmed(a))
  {
    forall w | 0 <= w < |reports| && w != route(a) ensures a !in reports[w] {
      assert IsReport(reports[w], from[w], now, confirmed);
    }
    MergedIsOwn(reports, route, a);
    assert IsReport(reports[route(a)], from[route(a)], now, confirmed);
    AllReadyMeans(TurnAll(from[route(a)], ExpireTurn(now)), confirmed, a);
  }
}
