/**
 The pool as a value: every worker's queues, and the books. `Conserved` says that the books
 describe exactly the queued actions and the strays, which a failed state read has taken out of
 their queue behind the books' back. Each elementary change of a queue, together with what the
 pool writes into its books at that moment, keeps it.
 */
module PoolModel {
  import opened Actions
  import opened AccountQueue
  import opened PoolBooks
  import opened ReadyPrefix

  /** `route` gives the worker of a sender. */
  datatype Pool = Pool(route: string -> nat, workers: seq<map<string, Queue>>, books: Books)

  /** Every queued action carries its sender and nonce and is in the hash index. */
  ghost predicate QueueOk(all: map<Hash, Action>, addr: string, q: Queue) {
    && Valid(q)
    && forall n | n in q.items :: q.items[n].sender == addr && Indexed(all, q.items[n])
  }

  ghost predicate IsQueued(p: Pool, act: Action) {
    var w := p.route(act.sender);
    && w < |p.workers| && act.sender in p.workers[w]
    && Lookup(p.workers[w][act.sender].items, act.nonce) == Some(act)
  }

  ghost predicate AllIndexed(all: map<Hash, Action>, acts: set<Action>) {
    forall x | x in acts :: Indexed(all, x)
  }

  /** The books balance; each indexed action is either queued or a stray, and never both. */
  ghost predicate Conserved(p: Pool, stray: set<Action>) {
    match p
    case Pool(route, workers, books) =>
      && Balanced(books)
      && (forall w, a {:trigger workers[w][a]} | 0 <= w < |workers| && a in workers[w] ::
            route(a) == w && QueueOk(books.all, a, workers[w][a]))
      && (forall h | h in books.all :: books.all[h] in stray <==> !IsQueued(p, books.all[h]))
      && AllIndexed(books.all, stray)
  }

  function WithQueue(p: Pool, addr: string, q: Queue, books: Books): Pool
    requires p.route(addr) < |p.workers|
  {
    var w := p.route(addr);
    Pool(p.route, p.workers[w := p.workers[w][addr := q]], books)
  }

  /** The index loses and gains actions of one sender only. */
  ghost predicate OnlySender(addr: string, all: map<Hash, Action>, all': map<Hash, Action>) {
    && (forall h | h in all && all[h].sender != addr :: h in all' && all'[h] == all[h])
    && (forall h | h in all' && all'[h].sender != addr :: h in all && all'[h] == all[h])
  }

  /** The indexed actions of a sender that are not strays are those of its queue. */
  ghost predicate OfSender(addr: string, all: map<Hash, Action>, stray: set<Action>, items: Items) {
    forall h | h in all && all[h].sender == addr ::
      all[h] in stray <==> Lookup(items, all[h].nonce) != Some(all[h])
  }

  lemma OfSenderNow(p: Pool, stray: set<Action>, addr: string)
    requires Conserved(p, stray) && p.route(addr) < |p.workers|
    ensures
      var qs := p.workers[p.route(addr)];
      OfSender(addr, p.books.all, stray, if addr in qs then qs[addr].items else map[])
  {
    forall h | h in p.books.all && p.books.all[h].sender == addr
      ensures
        var qs := p.workers[p.route(addr)];
        p.books.all[h] in stray <==>
        Lookup(if addr in qs then qs[addr].items else map[], p.books.all[h].nonce) != Some(p.books.all[h])
    {
      assert p.books.all[h] in stray <==> !IsQueued(p, p.books.all[h]);
    }
  }

  /** One queue and the books change together: what has to hold for the pool to stay conserved. */
  lemma QueueChanged(p: Pool, stray: set<Action>, addr: string, q: Queue, books: Books)
    requires Conserved(p, stray) && p.route(addr) < |p.workers| && Balanced(books)
    requires OnlySender(addr, p.books.all, books.all) && AllIndexed(books.all, stray)
    requires OfSender(addr, books.all, stray, q.items) && QueueOk(books.all, addr, q)
    ensures Conserved(WithQueue(p, addr, q, books), stray)
  {
    var p' := WithQueue(p, addr, q, books);
    forall w, a | 0 <= w < |p'.workers| && a in p'.workers[w]
      ensures p'.route(a) == w && QueueOk(p'.books.all, a, p'.workers[w][a])
    {
      if !(w == p.route(addr) && a == addr) {
        assert p'.workers[w][a] == p.workers[w][a];
        assert p.route(a) == w && QueueOk(p.books.all, a, p.workers[w][a]);
      }
    }
    forall h | h in books.all ensures books.all[h] in stray <==> !IsQueued(p', books.all[h]) {
      if books.all[h].sender != addr {
        assert books.all[h] in stray <==> !IsQueued(p, p.books.all[h]);
      }
    }
  }

  /** Handle's bookkeeping: a replaced action leaves before the new one enters. */
  function AcceptBooks(b: Books, replaced: Option<Action>, act: Action): Books {
    Enter(match replaced case Some(prev) => Leave(b, prev) case None => b, act)
  }

  /** The queue that a new action of `addr` goes into. */
  ghost predicate IsTarget(p: Pool, addr: string, q: Queue) {
    var w := p.route(addr);
    w < |p.workers| && Valid(q) && if addr in p.workers[w] then q == p.workers[w][addr] else q.items == map[]
  }

  /** An accepted action enters its queue and the books; a replaced one leaves both. */
  lemma AcceptKeeps(p: Pool, stray: set<Action>, q: Queue, act: Action, now: int)
    requires Conserved(p, stray) && IsTarget(p, act.sender, q)
    requires act.hash !in p.books.all && q.accountNonce <= act.nonce
    ensures Conserved(WithQueue(p, act.sender, With(q, act, now), AcceptBooks(p.books, Replaced(q, act), act)), stray)
  {
    var addr, all, prev := act.sender, p.books.all, Replaced(q, act);
    OfSenderNow(p, stray, addr);
    assert OfSender(addr, all, stray, q.items) && QueueOk(all, addr, q);
    var b := match prev case Some(x) => Leave(p.books, x) case None => p.books;
    if prev.Some? {
      LeaveBalances(p.books, prev.value);
    }
    EnterBalances(b, act);
    AcceptedQueue(addr, all, stray, b.all, q, act, now);
    QueueChanged(p, stray, addr, With(q, act, now), Enter(b, act));
  }

  lemma AcceptedQueue(addr: string, all: map<Hash, Action>, stray: set<Action>, rest: map<Hash, Action>,
                      q: Queue, act: Action, now: int)
    requires Keyed(all) && AllIndexed(all, stray) && OfSender(addr, all, stray, q.items) && QueueOk(all, addr, q)
    requires act.sender == addr && act.hash !in all && q.accountNonce <= act.nonce
    requires rest == match Replaced(q, act) case Some(prev) => all - {prev.hash} case None => all
    ensures OnlySender(addr, all, rest[act.hash := act]) && AllIndexed(rest[act.hash := act], stray)
    ensures OfSender(addr, rest[act.hash := act], stray, With(q, act, now).items)
    ensures QueueOk(rest[act.hash := act], addr, With(q, act, now))
  {
    var q' := With(q, act, now);
    forall n | n in q'.items
      ensures q'.items[n].sender == addr && Indexed(rest[act.hash := act], q'.items[n])
    {
      if n != act.nonce {
        assert q.items[n].sender == addr && Indexed(all, q.items[n]);
      }
    }
  }

  /** Actions that leave a queue leave the books with it. */
  lemma PruneKeeps(p: Pool, stray: set<Action>, addr: string, q': Queue, gone: set<nat>, removed: seq<Action>)
    requires Conserved(p, stray) && p.route(addr) < |p.workers| && addr in p.workers[p.route(addr)]
    requires
      var items := p.workers[p.route(addr)][addr].items;
      q'.items == items - gone && Lists(removed, items, gone)
    requires Valid(q')
    ensures Conserved(WithQueue(p, addr, q', LeaveAll(p.books, removed)), stray)
    ensures LeaveAll(p.books, removed).all == p.books.all - HashesOf(removed)
  {
    var all, q := p.books.all, p.workers[p.route(addr)][addr];
    assert QueueOk(all, addr, q);
    OfSenderNow(p, stray, addr);
    forall i, j | 0 <= i < j < |removed| ensures removed[i].hash != removed[j].hash {
      assert removed[i] in removed && removed[j] in removed;
    }
    LeaveAllBalances(p.books, removed);
    PrunedQueue(addr, all, stray, q, q', gone, removed);
    QueueChanged(p, stray, addr, q', LeaveAll(p.books, removed));
  }

  lemma PrunedQueue(addr: string, all: map<Hash, Action>, stray: set<Action>, q: Queue, q': Queue,
                    gone: set<nat>, removed: seq<Action>)
    requires Keyed(all) && AllIndexed(all, stray) && OfSender(addr, all, stray, q.items) && QueueOk(all, addr, q)
    requires q'.items == q.items - gone && Lists(removed, q.items, gone) && Valid(q')
    ensures OnlySender(addr, all, all - HashesOf(removed)) && AllIndexed(all - HashesOf(removed), stray)
    ensures OfSender(addr, all - HashesOf(removed), stray, q'.items)
    ensures QueueOk(all - HashesOf(removed), addr, q')
  {
    forall h | h in all && all[h].sender != addr ensures h !in HashesOf(removed) {
      assert forall a | a in removed :: Indexed(all, a) && a.sender == addr;
    }
    forall n | n in q'.items ensures q'.items[n].hash !in HashesOf(removed) {
      assert Indexed(all, q.items[n]);
      assert forall a | a in removed :: Indexed(all, a) && a.nonce != n;
    }
  }

  /** removeEmptyAccounts: only accounts with an empty queue are forgotten. */
  ghost predicate Cleaned(qs: map<string, Queue>, qs': map<string, Queue>) {
    && (forall a | a in qs' :: a in qs && qs'[a] == qs[a])
    && (forall a | a in qs && a !in qs' :: qs[a].items == map[])
  }

  /** Forgetting accounts with empty queues changes nothing that the books describe. */
  lemma CleanKeeps(p: Pool, stray: set<Action>, w: nat, qs: map<string, Queue>)
    requires Conserved(p, stray) && w < |p.workers| && Cleaned(p.workers[w], qs)
    ensures Conserved(Pool(p.route, p.workers[w := qs], p.books), stray)
  {
    var p' := Pool(p.route, p.workers[w := qs], p.books);
    forall v, a | 0 <= v < |p'.workers| && a in p'.workers[v]
      ensures p'.route(a) == v && QueueOk(p'.books.all, a, p'.workers[v][a])
    {
      assert p'.workers[v][a] == p.workers[v][a];
      assert QueueOk(p.books.all, a, p.workers[v][a]);
    }
    forall h | h in p'.books.all ensures p'.books.all[h] in stray <==> !IsQueued(p', p'.books.all[h]) {
      var act := p.books.all[h];
      assert act in stray <==> !IsQueued(p, act);
    }
  }

  /** The pool itself determines which of its actions are strays. */
  lemma StraysAreDetermined(p: Pool, stray: set<Action>, stray': set<Action>)
    requires Conserved(p, stray) && Conserved(p, stray')
    ensures stray == stray'
  {
    assert forall x | x in stray + stray' :: Indexed(p.books.all, x) && p.books.all[x.hash] == x;
  }

  /**
   When a confirmed state cannot be read, a Reset empties the queue without telling the books: what
   was in it is from now on astray.
   */
  lemma FailedReadMakesStrays(p: Pool, stray: set<Action>, addr: string)
    requires Conserved(p, stray) && p.route(addr) < |p.workers| && addr in p.workers[p.route(addr)]
    ensures
      var q := p.workers[p.route(addr)][addr];
      Conserved(WithQueue(p, addr, Empty(0, 0, q.ttl), p.books), stray + q.items.Values)
  {
    var q := p.workers[p.route(addr)][addr];
    var p' := WithQueue(p, addr, Empty(0, 0, q.ttl), p.books);
    assert QueueOk(p.books.all, addr, q);
    forall h | h in p.books.all
      ensures p.books.all[h] in stray + q.items.Values <==> !IsQueued(p', p.books.all[h])
    {
      assert p.books.all[h] in stray <==> !IsQueued(p, p.books.all[h]);
    }
  }

  /** So the books lose track if and only if something was in the queue. */
  lemma FailedReadLosesTrack(p: Pool, stray: set<Action>, addr: string)
    requires Conserved(p, stray) && p.route(addr) < |p.workers| && addr in p.workers[p.route(addr)]
    ensures
      var q := p.workers[p.route(addr)][addr];
      Conserved(WithQueue(p, addr, Empty(0, 0, q.ttl), p.books), stray) <==> q.items == map[]
  {
    var q := p.workers[p.route(addr)][addr];
    var p' := WithQueue(p, addr, Empty(0, 0, q.ttl), p.books);
    FailedReadMakesStrays(p, stray, addr);
    if q.items != map[] {
      var n :| n in q.items;
      assert QueueOk(p.books.all, addr, q);
      assert IsQueued(p, q.items[n]) && q.items[n] in stray + q.items.Values;
      if Conserved(p', stray) { StraysAreDetermined(p', stray, stray + q.items.Values); }
    }
  }
}
