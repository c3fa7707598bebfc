/**
 The queue of one account, as the pool keeps it: a map of actions, two nonce heaps over shared
 objects, and a ready prefix that is maintained incrementally. Every operation is proved to act
 on `View()`, the queue without caches, as the corresponding operation of `AccountQueue`.
 */
module ActQueues {
  import opened Actions
  import opened HeapOrder
  import opened NonceHeaps
  import opened NonceIndexes
  import opened ReadyPrefix
  import AQ = AccountQueue
  import QR = QueueRules

  class ActQueue {
    var items: Items
    const index: NonceIndex
    var pendingNonce: nat
    var pendingBalance: map<nat, int>
    var accountNonce: nat
    var accountBalance: int
    const ttl: int

    ghost predicate Linked()
      reads index, index.asc, index.desc, index.asc.members, index.desc.members
    {
      index.Valid()
    }

    /** The heaps know exactly the queued nonces, and no item lies below the account nonce. */
    ghost predicate Stocked()
      reads this`items, this`accountNonce, index`deadlines
    {
      InStock(items, index.deadlines, accountNonce)
    }

    ghost predicate PrefixTo(p: nat)
      reads this
    {
      Cached(items, accountNonce, accountBalance, pendingBalance, p)
    }

    /** The ready prefix is maximal. */
    ghost predicate Full()
      reads this
    {
      Blocked(items, accountNonce, accountBalance, pendingNonce)
    }

    /** The invariant between UpdateAccountState and UpdateQueue: the prefix may not be maximal. */
    ghost predicate WeaklyValid()
      reads this, index, index.asc, index.desc, index.asc.members, index.desc.members
    {
      Linked() && Stocked() && PrefixTo(pendingNonce)
    }

    /** The invariant of a queue at rest. */
    ghost predicate Valid()
      reads this, index, index.asc, index.desc, index.asc.members, index.desc.members
    {
      WeaklyValid() && Full()
    }

    /** The objects that make up the queue. */
    ghost function Footprint(): set<object>
      reads index.asc`members, index.desc`members
    {
      {this, index, index.asc, index.desc} + index.asc.members + index.desc.members
    }

    /** The queue without its caches. */
    ghost function View(): AQ.Queue
      reads this, index
    {
      AQ.Queue(items, index.deadlines, accountNonce, accountBalance, ttl)
    }

    /** The incremental caches hold what the recomputation from scratch gives. */
    lemma CacheIsExact()
      requires Stocked() && PrefixTo(pendingNonce) && Full()
      ensures pendingNonce == AQ.PendingNonce(View()) && AQ.Valid(View())
      ensures forall n | accountNonce <= n :: CachedBalance(n) == AQ.BalanceAt(View(), n)
    {
      ReadyEndUnique(items, accountNonce, accountBalance, pendingNonce, AQ.PendingNonce(View()));
      forall n | accountNonce <= n ensures CachedBalance(n) == AQ.BalanceAt(View(), n) {
        var k := if n > pendingNonce then pendingNonce else n;
        assert Cached(items, accountNonce, accountBalance, pendingBalance, k);
        CacheRead(items, accountNonce, accountBalance, pendingBalance, k);
      }
    }

    constructor (nonce: nat, balance: int, ttl: int)
      ensures Valid() && View() == AQ.Empty(nonce, balance, ttl)
      ensures fresh(Footprint()) && index.asc.slots == []
    {
      items := map[];
      index := new NonceIndex();
      pendingNonce, pendingBalance := nonce, map[];
      accountNonce, accountBalance := nonce, balance;
      this.ttl := ttl;
    }

    predicate Empty()
      reads this`items
    {
      items == map[]
    }

    /** getPendingBalanceAtNonce */
    function CachedBalance(nonce: nat): int
      reads this
    {
      var n := if nonce > pendingNonce then pendingNonce else nonce;
      if n in pendingBalance then pendingBalance[n] else accountBalance
    }

    method UpdateFromNonce(from: nat)
      requires from <= pendingNonce ==> PrefixTo(from)
      modifies this`pendingNonce, this`pendingBalance
      ensures old(from > pendingNonce) ==> pendingNonce == old(pendingNonce) && pendingBalance == old(pendingBalance)
      ensures old(from <= pendingNonce) ==> PrefixTo(pendingNonce) && Full()
    {
      if from <= pendingNonce {
        ScanFrom(from);
      }
    }

    /** The loop of updateFromNonce; it ends because every round uses up one more item. */
    method ScanFrom(from: nat)
      requires from <= pendingNonce && PrefixTo(from)
      modifies this`pendingNonce, this`pendingBalance
      ensures PrefixTo(pendingNonce) && Full()
    {
      var start, balance := from, CachedBalance(from);
      CacheRead(items, accountNonce, accountBalance, pendingBalance, start);
      while start in items && items[start].cost <= balance
        invariant PrefixTo(start)
        invariant balance == accountBalance - Spent(items, accountNonce, start)
        decreases From(items, start)
      {
        FromShrinks(items, start);
        balance := balance - items[start].cost;
        CacheStep(items, accountNonce, accountBalance, pendingBalance, start, balance);
        pendingBalance := pendingBalance[start + 1 := balance];
        start := start + 1;
      }
      pendingNonce := start;
    }

    /** The checks at the head of Put, made on the caches. */
    method CheckPut(act: Action) returns (e: Option<Error>)
      requires Stocked() && PrefixTo(pendingNonce) && Full() && accountNonce <= act.nonce
      ensures e == AQ.PutError(View(), act)
    {
      CacheIsExact();
      if CachedBalance(act.nonce) < act.cost {
        return Some(ErrInsufficientFunds);
      }
      if act.nonce in items && !AQ.MayReplace(items[act.nonce], act, act.nonce < pendingNonce) {
        return Some(ErrReplaceUnderpriced);
      }
      e := None;
    }

    /** Put: turns the action away with the model's error and no change, or enters it. */
    method Put(act: Action, now: int) returns (r: Result<Option<Action>>)
      requires Valid() && accountNonce <= act.nonce
      modifies this, index, index.asc, index.desc, index.asc.members
      ensures Valid() && fresh(index.asc.members - old(index.asc.members))
      ensures
        match old(AQ.PutError(View(), act))
        case Some(e) => r == Err(e) && View() == old(View())
        case None => r == Ok(old(AQ.Replaced(View(), act))) && View() == AQ.With(old(View()), act, now)
    {
      var e := CheckPut(act);
      if e.Some? {
        return Err(e.value);
      }
      assert AQ.With(View(), act, now) == AQ.Queue(
          items[act.nonce := act], index.deadlines[act.nonce := now + ttl], accountNonce, accountBalance, ttl);
      if act.nonce in items {
        r := Ok(Some(items[act.nonce]));
        PutTaken(act, now, index.deadlines[act.nonce := now + ttl]);
      } else {
        r := Ok(None);
        PutFree(act, now, index.deadlines[act.nonce := now + ttl]);
      }
    }

    /**
     Put on a nonce that is taken. The heaps and the caches change different fields, so they can
     change in either order; here, and in `PutFree`, the heaps come first. `d` is what the deadlines
     become.
     */
    method PutTaken(act: Action, now: int, ghost d: map<nat, int>)
      requires Linked() && Stocked() && PrefixTo(pendingNonce) && Full() && act.nonce in items
      requires d == index.deadlines[act.nonce := now + ttl]
      modifies this`items, this`pendingNonce, this`pendingBalance, index`deadlines, index.asc.members`deadline
      ensures Linked() && Stocked() && PrefixTo(pendingNonce) && Full()
      ensures items == old(items)[act.nonce := act] && index.deadlines == d
    {
      StockedWith(items, index.deadlines, accountNonce, act, now + ttl);
      RestampNode(act.nonce, now + ttl, d);
      Substitute(act);
    }

    /** Put on a free nonce. */
    method PutFree(act: Action, now: int, ghost d: map<nat, int>)
      requires Linked() && Stocked() && PrefixTo(pendingNonce) && Full()
      requires act.nonce !in items && accountNonce <= act.nonce
      requires d == index.deadlines[act.nonce := now + ttl]
      modifies this`items, this`pendingNonce, this`pendingBalance,
               index, index.asc, index.desc, index.asc.members`ascIdx, index.asc.members`descIdx
      ensures Linked() && Stocked() && PrefixTo(pendingNonce) && Full()
      ensures fresh(index.asc.members - old(index.asc.members))
      ensures items == old(items)[act.nonce := act] && index.deadlines == d
    {
      StockedWith(items, index.deadlines, accountNonce, act, now + ttl);
      PushNode(act.nonce, now + ttl, d);
      Enter(act);
    }

    /** The two pushes of Put. */
    method PushNode(nonce: nat, deadline: int, ghost d: map<nat, int>)
      requires Linked() && nonce !in index.deadlines && d == index.deadlines[nonce := deadline]
      modifies index, index.asc, index.desc, index.asc.members`ascIdx, index.asc.members`descIdx
      ensures Linked() && fresh(index.asc.members - old(index.asc.members)) && index.deadlines == d
    {
      index.Add(nonce, deadline);
    }

    /** The new deadline of a replaced action. */
    method RestampNode(nonce: nat, deadline: int, ghost d: map<nat, int>)
      requires Linked() && nonce in index.deadlines && d == index.deadlines[nonce := deadline]
      modifies index`deadlines, index.asc.members`deadline
      ensures Linked() && index.deadlines == d
    {
      index.Restamp(nonce, deadline);
    }

    /** The replacement, and what it means for the ready prefix. */
    method Substitute(act: Action)
      requires Linked() && PrefixTo(pendingNonce) && Full() && accountNonce <= act.nonce
      modifies this`items, this`pendingNonce, this`pendingBalance
      ensures Linked() && index.deadlines == old(index.deadlines) && PrefixTo(pendingNonce) && Full()
      ensures items == old(items)[act.nonce := act]
    {
      var before := items;
      items := items[act.nonce := act];
      var p := if act.nonce <= pendingNonce then act.nonce else pendingNonce;
      assert Cached(before, accountNonce, accountBalance, pendingBalance, p);
      CacheFrame(before, items, accountNonce, accountBalance, pendingBalance, p);
      UpdateFromNonce(act.nonce);
    }

    /** The new item, and what it means for the ready prefix. */
    method Enter(act: Action)
      requires Linked() && act.nonce !in items && accountNonce <= act.nonce
      requires PrefixTo(pendingNonce) && Full()
      modifies this`items, this`pendingNonce, this`pendingBalance
      ensures Linked() && index.deadlines == old(index.deadlines) && PrefixTo(pendingNonce) && Full()
      ensures items == old(items)[act.nonce := act]
    {
      var before := items;
      PrefixPresent(items, accountNonce, accountBalance, pendingNonce);
      items := items[act.nonce := act];
      CacheFrame(before, items, accountNonce, accountBalance, pendingBalance, pendingNonce);
      if act.nonce == pendingNonce {
        UpdateFromNonce(pendingNonce);
      }
    }

    /**
     UpdateAccountState: exactly the items below the new account nonce go, in ascending order.
     The ready prefix restarts empty; UpdateQueue has to follow.
     */
    method UpdateAccountState(nonce: nat, balance: int) returns (removed: seq<Action>)
      requires Valid()
      modifies this, index, index.asc, index.desc, index.asc.members`ascIdx, index.asc.members`descIdx
      ensures WeaklyValid() && pendingNonce == nonce && accountNonce == nonce && accountBalance == balance
      ensures forall n :: n in items <==> n in old(items) && n >= nonce
      ensures forall n | n in items :: items[n] == old(items)[n]
      ensures index.asc.members <= old(index.asc.members)
      ensures View() == AQ.Confirm(old(View()), nonce, balance)
      ensures Lists(removed, old(items), set n | n in old(items) && n < nonce)
      ensures forall i, j | 0 <= i < j < |removed| :: removed[i].nonce < removed[j].nonce
    {
      ghost var i, d := items, index.deadlines;
      Restart(nonce, balance);
      StockedFrom(i, d, nonce);
      removed := DropBelow(nonce, i, d);
      NothingCached(items, nonce, balance);
    }

    /** The new account state; the ready prefix is empty for now. */
    method Restart(nonce: nat, balance: int)
      requires Linked()
      modifies this`pendingNonce, this`pendingBalance, this`accountNonce, this`accountBalance
      ensures Linked() && index.deadlines == old(index.deadlines)
      ensures pendingNonce == nonce && pendingBalance == map[] && accountNonce == nonce && accountBalance == balance
    {
      pendingNonce, pendingBalance := nonce, map[];
      accountNonce, accountBalance := nonce, balance;
    }

    /** All nonces below the bound leave the queue. */
    method DropBelow(bound: nat, ghost i: Items, ghost d: map<nat, int>) returns (removed: seq<Action>)
      requires Linked() && index.deadlines.Keys == items.Keys && Named(items) && items == i && index.deadlines == d
      modifies this`items, index, index.asc, index.desc, index.asc.members`ascIdx, index.asc.members`descIdx
      ensures Linked() && index.asc.members <= old(index.asc.members)
      ensures
        var gone := set n | n in i && n < bound;
        items == i - gone && index.deadlines == d - gone && Lists(removed, i, gone)
      ensures forall i, j | 0 <= i < j < |removed| :: removed[i].nonce < removed[j].nonce
    {
      removed := PopBelow(bound);
      DrainedExactly(i, d, bound, items, index.deadlines, removed);
    }

    /** The pop loop of UpdateAccountState. */
    method PopBelow(bound: nat) returns (removed: seq<Action>)
      requires Linked() && index.deadlines.Keys == items.Keys && Named(items)
      modifies this`items, index, index.asc, index.desc, index.asc.members`ascIdx, index.asc.members`descIdx
      ensures Linked() && index.asc.members <= old(index.asc.members)
      ensures index.deadlines.Keys == items.Keys && forall n | n in items :: bound <= n
      ensures Within(items, old(items)) && Within(index.deadlines, old(index.deadlines))
      ensures Drained(old(items), items.Keys, removed, bound)
    {
      removed := [];
      var done := false;
      while !done
        invariant Linked() && index.asc.members <= old(index.asc.members)
        invariant index.deadlines.Keys == items.Keys
        invariant Within(items, old(items)) && Within(index.deadlines, old(index.deadlines))
        invariant Drained(old(items), items.Keys, removed, bound)
        invariant done ==> forall n | n in items :: bound <= n
        decreases items.Keys, !done
      {
        ghost var rest := items.Keys;
        var next := PopNext(bound);
        if next.None? {
          done := true;
        } else {
          DrainStep(old(items), rest, removed, bound, next.value.nonce);
          removed := removed + [next.value];
        }
      }
    }

    /** One round of the loop: the smallest nonce leaves, unless it has reached the bound. */
    method PopNext(bound: nat) returns (next: Option<Action>)
      requires Linked() && index.deadlines.Keys == items.Keys && Named(items)
      modifies this`items, index, index.asc, index.desc, index.asc.members`ascIdx, index.asc.members`descIdx
      ensures Linked() && index.asc.members <= old(index.asc.members)
      ensures next.None? ==> items == old(items) && index.deadlines == old(index.deadlines)
      ensures next.None? ==> forall n | n in items :: bound <= n
      ensures next.Some? ==>
                var n := next.value.nonce;
                && n in old(items) && old(items)[n] == next.value && n < bound
                && (forall m | m in old(items) :: n <= m)
                && items == old(items) - {n} && index.deadlines == old(index.deadlines) - {n}
    {
      var empty, least := index.PeekSmallest();
      if empty || least >= bound {
        return None;
      }
      var n := index.Pop(true);
      next := Some(items[n]);
      items := items - {n};
    }

    /** UpdateQueue: expired actions beyond the prefix go, then the prefix is extended to the full. */
    method UpdateQueue(now: int) returns (removed: seq<Action>)
      requires WeaklyValid()
      modifies this, index, index.asc, index.desc, index.asc.members`ascIdx, index.asc.members`descIdx
      ensures Valid() && index.asc.members <= old(index.asc.members)
      ensures
        var gone := old(AQ.Expired(View(), pendingNonce, now));
        View() == AQ.Without(old(View()), gone) && Lists(removed, old(items), gone)
    {
      removed := CleanTimeout(now);
      UpdateFromNonce(pendingNonce);
    }

    method CleanTimeout(now: int) returns (removed: seq<Action>)
      requires WeaklyValid()
      modifies this`items, this`pendingBalance,
               index, index.asc, index.desc, index.asc.members`ascIdx, index.asc.members`descIdx
      ensures WeaklyValid() && index.asc.members <= old(index.asc.members)
      ensures
        var gone := old(AQ.Expired(View(), pendingNonce, now));
        View() == AQ.Without(old(View()), gone) && Lists(removed, old(items), gone)
    {
      if ttl == 0 {
        return [];
      }
      ghost var q := View();
      var stale := index.Compact(pendingNonce, now);
      ghost var gone := NoncesIn(NodesOf(stale));
      assert gone == AQ.Expired(q, pendingNonce, now);
      removed := DeleteAll(stale);
    }

    /** The deletions of cleanTimeout from the item and balance maps. */
    method DeleteAll(stale: seq<NonceWithTTL>) returns (removed: seq<Action>)
      requires Named(items) && PrefixTo(pendingNonce)
      requires DistinctNonces(stale) && forall o | o in stale :: o.nonce in items && o.nonce > pendingNonce
      modifies this`items, this`pendingBalance
      ensures items == old(items) - NoncesIn(NodesOf(stale))
      ensures Lists(removed, old(items), NoncesIn(NodesOf(stale)))
      ensures PrefixTo(pendingNonce)
    {
      removed := [];
      for i := 0 to |stale|
        invariant |removed| == i
        invariant forall k | 0 <= k < i :: removed[k] == old(items)[stale[k].nonce]
        invariant forall n | n in old(items) :: n in items <==> forall k | 0 <= k < i :: stale[k].nonce != n
        invariant Within(items, old(items)) && Within(pendingBalance, old(pendingBalance))
        invariant forall k | k in old(pendingBalance) && k <= pendingNonce :: k in pendingBalance
      {
        var n := stale[i].nonce;
        removed := removed + [items[n]];
        items := items - {n};
        pendingBalance := pendingBalance - {n};
      }
      CacheKept(old(items), items, accountNonce, accountBalance, old(pendingBalance), pendingBalance, pendingNonce);
      DeletedAll(old(items), items, stale, removed);
    }

    /** PopActionWithLargestNonce */
    method PopActionWithLargestNonce() returns (act: Option<Action>)
      requires Valid()
      modifies this, index, index.asc, index.desc, index.asc.members`ascIdx, index.asc.members`descIdx
      ensures Valid() && index.asc.members <= old(index.asc.members)
      ensures old(items) == map[] ==> act == None && View() == old(View())
      ensures old(items) != map[] ==>
                var n := AQ.MaxNonce(old(items));
                act == Some(old(items)[n]) && View() == AQ.Without(old(View()), {n})
    {
      if items == map[] {
        return None;
      }
      ghost var n := AQ.MaxNonce(items);
      assert AQ.Without(View(), {n}) == AQ.Queue(
          items - {n}, index.deadlines - {n}, accountNonce, accountBalance, ttl);
      var largest := TakeLargest();
      act := Some(largest);
    }

    method TakeLargest() returns (act: Action)
      requires Valid() && items != map[]
      modifies this`items, this`pendingNonce, this`pendingBalance,
               index, index.asc, index.desc, index.asc.members`ascIdx, index.asc.members`descIdx
      ensures Valid() && index.asc.members <= old(index.asc.members)
      ensures
        var n := AQ.MaxNonce(old(items));
        act == old(items)[n] && items == old(items) - {n} && index.deadlines == old(index.deadlines) - {n}
    {
      ghost var d := index.deadlines;
      var n := index.Pop(false);
      assert n == AQ.MaxNonce(items);
      d := d - {n};
      assert index.deadlines == d;
      act := items[n];
      Cut(n);
      assert index.deadlines == d;
    }

    /** The largest nonce has left the heaps; it leaves the items and the ready prefix is cut there. */
    method Cut(n: nat)
      requires n in items && forall m | m in items :: accountNonce <= m <= n
      requires PrefixTo(pendingNonce) && Full()
      modifies this`items, this`pendingNonce, this`pendingBalance
      ensures items == old(items) - {n}
      ensures PrefixTo(pendingNonce) && Full()
    {
      var before := items;
      items := items - {n};
      var p := if n <= pendingNonce then n else pendingNonce;
      assert Cached(before, accountNonce, accountBalance, pendingBalance, p);
      CacheFrame(before, items, accountNonce, accountBalance, pendingBalance, p);
      UpdateFromNonce(n);
    }

    /** Reset */
    method Reset()
      requires Valid()
      modifies this, index, index.asc, index.desc
      ensures Valid() && View() == AQ.Empty(0, 0, ttl) && index.asc.members == {}
    {
      items := map[];
      index.Clear();
      pendingNonce, pendingBalance := 0, map[];
      accountNonce, accountBalance := 0, 0;
    }

    /**
     PendingActs scans from scratch from the confirmed nonce and balance. When those are the
     queue's own, it returns exactly the actions of the cached ready prefix.
     */
    method PendingActs(nonce: nat, balance: int) returns (acts: seq<Action>)
      ensures |acts| == ReadyEnd(items, nonce, balance) - nonce
      ensures forall i | 0 <= i < |acts| :: Lookup(items, nonce + i) == Some(acts[i])
      ensures Valid() && nonce == accountNonce && balance == accountBalance ==> |acts| == pendingNonce - accountNonce
    {
      acts := [];
      var n, left := nonce, balance;
      while n in items && items[n].cost <= left
        invariant n == nonce + |acts| && left == balance - Spent(items, nonce, n)
        invariant Affordable(items, nonce, balance, n)
        invariant forall i | 0 <= i < |acts| :: Lookup(items, nonce + i) == Some(acts[i])
        decreases From(items, n)
      {
        FromShrinks(items, n);
        assert Pays(items, nonce, balance, n);
        left := left - items[n].cost;
        acts := acts + [items[n]];
        n := n + 1;
      }
      ReadyEndUnique(items, nonce, balance, n, ReadyEnd(items, nonce, balance));
      if Valid() && nonce == accountNonce && balance == accountBalance {
        ReadyEndUnique(items, nonce, balance, n, pendingNonce);
      }
    }

    /** AllActs: every queued action exactly once, in heap order. */
    method AllActs() returns (acts: seq<Action>)
      requires Linked() && Stocked()
      ensures Lists(acts, items, items.Keys)
    {
      acts := [];
      for i := 0 to |index.asc.slots|
        invariant |acts| == i
        invariant forall k | 0 <= k < i :: Lookup(items, index.asc.slots[k].nonce) == Some(acts[k])
      {
        index.MemberNonce(i);
        acts := acts + [items[index.asc.slots[i].nonce]];
      }
      index.MembersCover();
      SlotsList(items, index.asc.slots, acts);
    }

    /** NextAction: readiness and fee cap of the smallest nonce, which give the account its rank. */
    method NextAction() returns (ready: bool, cap: Option<int>)
      requires Valid()
      ensures (ready, cap) == AQ.NextAction(View())
      ensures cap.None? <==> items == map[]
      ensures cap.None? ==> !ready
      ensures cap.Some? ==> cap.value == QR.FirstCap(View()) && (ready <==> QR.FirstReady(View()))
      ensures AQ.Rank(View()) == match cap
                                 case None => Key(2, 0)
                                 case Some(fee) => Key(if ready then 1 else 0, fee)
    {
      CacheIsExact();
      QR.NextActionMeans(View());
      var empty, least := index.PeekSmallest();
      if empty {
        return false, None;
      }
      ready, cap := pendingNonce > accountNonce, Some(items[least].gasFeeCap);
    }
  }

  /** What Reset does to a queue whose confirmed state could be read. */
  method RefreshQueue(q: ActQueue, nonce: nat, balance: int, now: int) returns (acts: seq<Action>, acts2: seq<Action>)
    requires q.Valid()
    modifies q, q.index, q.index.asc, q.index.desc, q.index.asc.members`ascIdx, q.index.asc.members`descIdx
    ensures q.Valid() && q.View() == AQ.Refresh(old(q.View()), nonce, balance, now)
    ensures q.accountNonce == nonce && q.accountBalance == balance
    ensures IsReadyEnd(q.items, nonce, balance, q.pendingNonce)
    ensures
      var was := old(q.View());
      && QR.Remain(was, q.View())
      && forall n :: n in q.items <==> n in was.items && n >= nonce && (n > nonce ==> !QR.TooOld(was, n, now))
    ensures q.Footprint() <= old(q.Footprint())
    ensures Lists(acts, old(q.items), set n | n in old(q.items) && n < nonce)
    ensures
      var c := AQ.Confirm(old(q.View()), nonce, balance);
      Lists(acts2, c.items, AQ.Expired(c, nonce, now))
  {
    q.CacheIsExact();
    QR.RefreshMeans(q.View(), nonce, balance, now);
    acts := q.UpdateAccountState(nonce, balance);
    acts2 := q.UpdateQueue(now);
    q.CacheIsExact();
  }

  /** What eviction does to a queue and its objects; `v` and `v'` are the queue's values. */
  method PopQueue(q: ActQueue, ghost v: AQ.Queue, ghost objs: set<object>)
    returns (act: Option<Action>, ghost v': AQ.Queue)
    requires q.Valid() && q.View() == v && objs == q.Footprint()
    modifies objs
    ensures q.Valid() && q.View() == v' && q.Footprint() <= objs
    ensures AQ.Popped(v, act, v')
  {
    act := q.PopActionWithLargestNonce();
    v' := q.View();
  }

  /** What Put does to them. */
  method PutQueue(q: ActQueue, act: Action, now: int, ghost v: AQ.Queue, ghost objs: set<object>)
    returns (r: Result<Option<Action>>, ghost v': AQ.Queue)
    requires q.Valid() && q.View() == v && objs == q.Footprint() && v.accountNonce <= act.nonce
    modifies objs
    ensures q.Valid() && q.View() == v' && fresh(q.Footprint() - objs)
    ensures
      match AQ.PutError(v, act)
      case Some(e) => r == Err(e) && v' == v
      case None => r == Ok(AQ.Replaced(v, act)) && v' == AQ.With(v, act, now)
  {
    r := q.Put(act, now);
    v' := q.View();
  }

  /** What a call for the pending actions does to a queue first. */
  method ExpireQueue(q: ActQueue, now: int) returns (acts: seq<Action>)
    requires q.Valid()
    modifies q, q.index, q.index.asc, q.index.desc, q.index.asc.members`ascIdx, q.index.asc.members`descIdx
    ensures q.Valid() && q.View() == AQ.Expire(old(q.View()), now)
    ensures q.accountNonce == old(q.accountNonce) && q.accountBalance == old(q.accountBalance)
    ensures
      var was := old(q.View());
      && QR.Remain(was, q.View())
      && forall n :: n in q.items <==> n in was.items && (n > old(q.pendingNonce) ==> !QR.TooOld(was, n, now))
    ensures q.Footprint() <= old(q.Footprint())
    ensures Lists(acts, old(q.items), AQ.Expired(old(q.View()), AQ.PendingNonce(old(q.View())), now))
  {
    q.CacheIsExact();
    QR.ExpireMeans(q.View(), now);
    acts := q.UpdateQueue(now);
  }

  /** Deletions above p leave the cached prefix up to p as it was. */
  lemma CacheKept(items: Items, items': Items, a: nat, balance: int, cache: map<nat, int>, cache': map<nat, int>,
                  p: nat)
    requires Cached(items, a, balance, cache, p) && Within(items', items) && Within(cache', cache)
    requires forall n | n in items && n < p :: n in items'
    requires forall k | k in cache && k <= p :: k in cache'
    ensures Cached(items', a, balance, cache', p)
  {
    CacheFrame(items, items', a, balance, cache, p);
    CachePrune(items', a, balance, cache, cache', p);
  }

  /** Deleting the nonces of some nodes one after the other takes exactly those out. */
  lemma DeletedAll(items: Items, items': Items, stale: seq<NonceWithTTL>, removed: seq<Action>)
    requires Named(items) && DistinctNonces(stale) && (forall o | o in stale :: o.nonce in items) &&
             Within(items', items)
    requires |removed| == |stale| && forall k | 0 <= k < |stale| :: removed[k] == items[stale[k].nonce]
    requires forall n | n in items :: n in items' <==> forall k | 0 <= k < |stale| :: stale[k].nonce != n
    ensures items' == items - NoncesIn(NodesOf(stale)) && Lists(removed, items, NoncesIn(NodesOf(stale)))
  {
    forall n | n in items ensures n in items' <==> n !in NoncesIn(NodesOf(stale)) {
      if n !in items' {
        var k :| 0 <= k < |stale| && stale[k].nonce == n;
        assert stale[k] in NodesOf(stale);
      }
    }
    forall n | n in NoncesIn(NodesOf(stale)) ensures n in items && items[n] in removed {
      var o :| o in stale && o.nonce == n;
      var k :| 0 <= k < |stale| && stale[k] == o;
      assert removed[k] == items[n];
    }
  }

  /** The actions of slots that hold every nonce once are all actions, each once. */
  lemma SlotsList(items: Items, slots: seq<NonceWithTTL>, acts: seq<Action>)
    requires Named(items) && |acts| == |slots| && DistinctNonces(slots)
    requires forall k | 0 <= k < |slots| :: Lookup(items, slots[k].nonce) == Some(acts[k])
    requires forall n | n in items :: exists k :: 0 <= k < |slots| && slots[k].nonce == n
    ensures Lists(acts, items, items.Keys)
  {
    forall n | n in items ensures items[n] in acts {
      var k :| 0 <= k < |slots| && slots[k].nonce == n;
      assert acts[k] == items[n];
    }
  }

  /** Deadlines and items have the same nonces, none of them below the account nonce. */
  ghost predicate InStock(items: Items, deadlines: map<nat, int>, a: nat) {
    deadlines.Keys == items.Keys && forall n | n in items :: items[n].nonce == n && a <= n
  }

  lemma StockedWith(items: Items, deadlines: map<nat, int>, a: nat, act: Action, deadline: int)
    requires InStock(items, deadlines, a) && a <= act.nonce
    ensures InStock(items[act.nonce := act], deadlines[act.nonce := deadline], a)
  {
  }

  lemma StockedFrom(items: Items, deadlines: map<nat, int>, a: nat)
    requires deadlines.Keys == items.Keys && Named(items)
    ensures
      var gone := set n | n in items && n < a;
      InStock(items - gone, deadlines - gone, a)
  {
  }

  ghost predicate Named(items: Items) {
    forall n | n in items :: items[n].nonce == n
  }

  ghost predicate Within<T(!new)>(m: map<nat, T>, m0: map<nat, T>) {
    forall n | n in m :: n in m0 && m[n] == m0[n]
  }

  /** What was popped so far: all below the bound, in ascending order, and below all that is left. */
  ghost predicate Drained(items: Items, rest: set<nat>, removed: seq<Action>, bound: nat) {
    && (forall n | n in items :: n in rest || n in NoncesOf(removed))
    && (forall a | a in removed :: a.nonce in items && items[a.nonce] == a && a.nonce !in rest && a.nonce < bound)
    && (forall a, m | a in removed && m in rest :: a.nonce < m)
    && (forall i, j | 0 <= i < j < |removed| :: removed[i].nonce < removed[j].nonce)
  }

  ghost function NoncesOf(acts: seq<Action>): set<nat> {
    set a | a in acts :: a.nonce
  }

  /** When nothing below the bound is left, exactly what was below it is gone. */
  lemma DrainedExactly(items: Items, deadlines: map<nat, int>, bound: nat,
                       items': Items, deadlines': map<nat, int>, removed: seq<Action>)
    requires items.Keys == deadlines.Keys && items'.Keys == deadlines'.Keys
    requires Within(items', items) && Within(deadlines', deadlines)
    requires Drained(items, items'.Keys, removed, bound) && forall n | n in items' :: bound <= n
    ensures
      var gone := set n | n in items && n < bound;
      items' == items - gone && deadlines' == deadlines - gone && Lists(removed, items, gone)
  {
    var gone := set n | n in items && n < bound;
    assert forall n | n in items :: n in items' <==> n !in gone;
    forall n | n in gone ensures items[n] in removed {
      assert n in NoncesOf(removed);
    }
  }

  lemma NoncesOfMore(acts: seq<Action>, act: Action)
    ensures NoncesOf(acts + [act]) == NoncesOf(acts) + {act.nonce}
    ensures forall a :: a in acts + [act] <==> a in acts || a == act
  {
    var r := acts + [act];
    assert act in r && forall a | a in acts :: a in r;
    assert forall a | a in r :: a in acts || a == act;
  }

  lemma DrainStep(items: Items, rest: set<nat>, removed: seq<Action>, bound: nat, n: nat)
    requires Drained(items, rest, removed, bound)
    requires n in items && n in rest && n < bound && items[n].nonce == n
    requires forall m | m in rest :: n <= m
    ensures Drained(items, rest - {n}, removed + [items[n]], bound)
  {
    NoncesOfMore(removed, items[n]);
    assert forall i | 0 <= i < |removed| :: removed[i] in removed;
  }
}
