/**
 The accounts of one worker: a map from sender to item, and the heap over the same items. Each item
 has a queue object of its own. The root of the heap is the account that eviction takes from.
 */
module AccountPools {
  import opened Actions
  import opened HeapOrder
  import opened AccountQueue
  import opened AccountHeaps
  import opened ActQueues
  import opened ReadyPrefix
  import opened QueueRules

  /** The map and the heap hold the same items, and no item has two owners. */
  ghost predicate Matched(accounts: map<string, AccountItem>, owner: AccountItem -> string, members: set<AccountItem>) {
    && (forall a {:trigger accounts[a]} | a in accounts :: accounts[a] in members && owner(accounts[a]) == a)
    && (forall o {:trigger owner(o)} | o in members :: owner(o) in accounts && accounts[owner(o)] == o)
  }

  ghost function WithOwner(owner: AccountItem -> string, item: AccountItem, addr: string): AccountItem -> string {
    (o: AccountItem) => if o == item then addr else owner(o)
  }

  lemma MatchedAdd(accounts: map<string, AccountItem>, owner: AccountItem -> string, members: set<AccountItem>,
                   addr: string, item: AccountItem)
    requires Matched(accounts, owner, members) && addr !in accounts && item !in members
    ensures Matched(accounts[addr := item], WithOwner(owner, item, addr), members + {item})
  {
    var owner' := WithOwner(owner, item, addr);
    forall o | o in members + {item}
      ensures owner'(o) in accounts[addr := item] && accounts[addr := item][owner'(o)] == o
    {
      assert o != item ==> owner(o) in accounts && accounts[owner(o)] == o;
    }
  }

  lemma MatchedRemove(accounts: map<string, AccountItem>, owner: AccountItem -> string, members: set<AccountItem>,
                      addr: string)
    requires Matched(accounts, owner, members) && addr in accounts
    ensures Matched(accounts - {addr}, owner, members - {accounts[addr]})
  {
  }

  lemma SameQueue(queues: map<string, Queue>, addr: string)
    requires addr in queues
    ensures queues[addr := queues[addr]] == queues
  {
  }

  /** What a Put on the queue `q` of an account means for the queues. */
  ghost predicate PutDone(queues: map<string, Queue>, addr: string, q: Queue, act: Action, now: int,
                          r: Result<Option<Action>>, queues': map<string, Queue>)
  {
    match PutError(q, act)
    case Some(e) => r == Err(e) && queues' == queues
    case None => r == Ok(Replaced(q, act)) && queues' == queues[addr := With(q, act, now)]
  }

  lemma RankPutsEmptyLast()
    ensures EmptyLast(Rank)
  {
  }

  class AccountPool {
    var accounts: map<string, AccountItem>
    const heap: AccountHeap
    ghost var owner: AccountItem -> string
    /** The queue of each account, as a value. */
    ghost var queues: map<string, Queue>

    ghost predicate Tied()
      reads this, heap`members, heap.members`queue
    {
      match queues.Keys == accounts.Keys
      case true =>
        && Matched(accounts, owner, heap.members)
        && forall a {:trigger accounts[a]} | a in accounts :: accounts[a].queue == queues[a]
      case false => false
    }

    /** Everything but the heap order, which Range suspends. */
    ghost predicate Sound()
      reads this, heap, heap.members, heap.parts.Keys
    {
      heap.Numbered() && heap.Sound() && Tied()
    }

    ghost predicate Valid()
      reads this, heap, heap.members, heap.parts.Keys
    {
      heap.Valid() && heap.Sound() && Tied()
    }

    /** What the heap's order is like; it is fixed at construction. */
    ghost predicate Standard() {
      Ranks(heap.rank) && EmptyLast(heap.rank)
    }

    constructor ()
      ensures Valid() && Standard() && heap.rank == Rank && queues == map[]
      ensures fresh(heap) && heap.members == {} && heap.parts == map[]
    {
      accounts := map[];
      RankPutsEmptyLast();
      heap := new AccountHeap(Rank);
      owner, queues := (o: AccountItem) => "", map[];
    }

    /** Account */
    method Account(addr: string) returns (q: Option<ActQueue>)
      requires Sound()
      ensures q.Some? <==> addr in queues
      ensures q.Some? ==> q.value == accounts[addr].actQueue && q.value.Valid() && q.value.View() == queues[addr]
    {
      if addr in accounts {
        assert Backed(accounts[addr], heap.parts);
        q := Some(accounts[addr].actQueue);
      } else {
        q := None;
      }
    }

    /** The end of Range */
    method Reorder()
      requires Standard() && Sound()
      modifies heap`slots, heap`keys, heap.members`index
      ensures Valid()
    {
      heap.Init();
    }

    /** All values but that of one account are up to date. */
    ghost predicate TiedBut(addr: string)
      reads this, heap`members, heap.members`queue
    {
      match queues.Keys == accounts.Keys
      case true =>
        && Matched(accounts, owner, heap.members) && addr in accounts
        && forall a {:trigger accounts[a]} | a in accounts && a != addr :: accounts[a].queue == queues[a]
      case false => false
    }

    /** The record of one account follows its queue, as at the end of Range's callbacks. */
    ghost method Note(addr: string)
      requires TiedBut(addr) && heap.Sound()
      modifies this`queues
      ensures Tied() && heap.Sound() && queues == old(queues)[addr := accounts[addr].queue]
      ensures old(heap.Valid()) ==> heap.Valid()
      ensures old(heap.Numbered()) ==> heap.Numbered()
    {
      queues := queues[addr := accounts[addr].queue];
    }

    /** Nothing of the map and the heap has changed but the value of one item's queue. */
    twostate predicate OnlyQueueOf(new x: AccountItem)
      reads this, heap, heap.members
    {
      && unchanged(this) && unchanged(heap`slots, heap`members, heap`keys)
      && forall y | y in heap.members :: y.index == old(y.index) && (y != x ==> y.queue == old(y.queue))
    }

    /** Then all is up to date but for that item. */
    twostate lemma AllButOne(addr: string)
      requires old(Tied()) && addr in accounts && OnlyQueueOf(accounts[addr])
      ensures TiedBut(addr)
      ensures old(heap.Valid()) ==> heap.ValidBut(accounts[addr])
      ensures old(heap.Numbered()) ==> heap.Numbered()
    {
      assert forall a {:trigger accounts[a]} | a in accounts && a != addr :: accounts[a] != accounts[addr];
    }

    /** If its value has not changed either, all is as before. */
    twostate lemma AllAsBefore(addr: string)
      requires old(heap.Valid()) && old(Tied()) && addr in accounts && OnlyQueueOf(accounts[addr])
      requires accounts[addr].queue == old(accounts[addr].queue)
      ensures heap.Valid() && Tied()
    {
    }

    /** The heap is fixed at the position of an item whose queue has changed. */
    method Fix(x: AccountItem, ghost addr: string)
      requires Standard() && TiedBut(addr) && accounts[addr] == x && heap.ValidBut(x) && heap.Sound()
      modifies this`queues, heap`slots, heap`keys, heap.members`index
      ensures Valid() && queues == old(queues)[addr := old(x.queue)]
    {
      heap.Rekey(x);
      Note(addr);
    }

    /** The heap is as it should be; the map and the records follow. */
    method Settle(accounts': map<string, AccountItem>, ghost owner': AccountItem -> string,
                  ghost queues': map<string, Queue>, ghost all: set<AccountItem>)
      requires heap.Valid() && heap.Sound() && AllBacked(all, heap.parts) && Matched(accounts', owner', heap.members)
      requires queues'.Keys == accounts'.Keys
      requires forall a {:trigger accounts'[a]} | a in accounts' :: accounts'[a].queue == queues'[a]
      modifies this`accounts, this`owner, this`queues
      ensures Valid() && queues == queues' && accounts == accounts' && AllBacked(all, heap.parts)
    {
      accounts, owner, queues := accounts', owner', queues';
    }

    /** A new item's objects leave the map and the heap as they were. */
    twostate lemma OnlyObjects()
      requires old(heap.Valid()) && old(Tied())
      requires unchanged(this) && unchanged(heap`slots, heap`members, heap`keys) && unchanged(heap.members)
      ensures heap.Valid() && Tied()
    {
    }

    /** New objects elsewhere change nothing. */
    twostate lemma Still()
      requires old(Valid())
      requires unchanged(this) && unchanged(heap) && unchanged(heap.members) && unchanged(heap.parts.Keys)
      ensures Valid()
    {
    }

    /** Put on the queue object of an account that is there. */
    method PutObject(x: AccountItem, act: Action, now: int, ghost q: Queue)
      returns (r: Result<Option<Action>>, ghost q': Queue)
      requires heap.Sound() && x in heap.members && x.queue == q && q.accountNonce <= act.nonce
      modifies heap.parts.Keys
      ensures unchanged(this) && unchanged(heap) && unchanged(heap.members)
      ensures heap.Unclaimed({x}) && x.actQueue.View() == q' && fresh(x.actQueue.Footprint() - heap.parts.Keys)
      ensures
        match PutError(q, act)
        case Some(e) => r == Err(e) && q' == q
        case None => r == Ok(Replaced(q, act)) && q' == With(q, act, now)
    {
      r, q' := PutOwn(x, act, now, q, Others(heap.parts, x));
      heap.Worked(x);
    }

    /** It touches no other account's objects. */
    method PutOwn(x: AccountItem, act: Action, now: int, ghost q: Queue, ghost others: set<object>)
      returns (r: Result<Option<Action>>, ghost q': Queue)
      requires heap.Sound() && x in heap.members && x.queue == q && q.accountNonce <= act.nonce
      requires others == Others(heap.parts, x)
      modifies heap.parts.Keys
      ensures unchanged(this) && unchanged(heap) && unchanged(heap.members) && unchanged(others)
      ensures x.actQueue.Valid() && x.actQueue.View() == q'
      ensures fresh(x.actQueue.Footprint() - old(x.actQueue.Footprint()))
      ensures old(x.actQueue.Footprint()) <= heap.parts.Keys
      ensures
        match PutError(q, act)
        case Some(e) => r == Err(e) && q' == q
        case None => r == Ok(Replaced(q, act)) && q' == With(q, act, now)
    {
      assert Backed(x, heap.parts);
      r, q' := PutQueue(x.actQueue, act, now, q, x.actQueue.Footprint());
    }

    /** PopActionWithLargestNonce on the queue object of an account that is there. */
    method PopObject(x: AccountItem, ghost q: Queue) returns (act: Option<Action>, ghost q': Queue)
      requires heap.Sound() && x in heap.members && x.queue == q
      modifies heap.parts.Keys
      ensures unchanged(this) && unchanged(heap) && unchanged(heap.members)
      ensures heap.Unclaimed({x}) && x.actQueue.View() == q' && x.actQueue.Footprint() <= heap.parts.Keys
      ensures Popped(q, act, q')
    {
      act, q' := PopOwn(x, q, Others(heap.parts, x));
      heap.Worked(x);
    }

    /** Nor does this. */
    method PopOwn(x: AccountItem, ghost q: Queue, ghost others: set<object>)
      returns (act: Option<Action>, ghost q': Queue)
      requires heap.Sound() && x in heap.members && x.queue == q && others == Others(heap.parts, x)
      modifies heap.parts.Keys
      ensures unchanged(this) && unchanged(heap) && unchanged(heap.members) && unchanged(others)
      ensures x.actQueue.Valid() && x.actQueue.View() == q'
      ensures x.actQueue.Footprint() <= old(x.actQueue.Footprint()) <= heap.parts.Keys
      ensures Popped(q, act, q')
    {
      assert Backed(x, heap.parts);
      act, q' := PopQueue(x.actQueue, q, x.actQueue.Footprint());
    }

    /** Reset's work on the queue object of an account whose confirmed state could be read. */
    method RefreshObject(x: AccountItem, nonce: nat, balance: int, now: int) returns (removed: seq<Action>)
      requires heap.Sound() && x in heap.members
      modifies heap.parts.Keys
      ensures unchanged(this) && unchanged(heap) && unchanged(heap.members)
      ensures heap.Unclaimed({x}) && x.actQueue.View() == Refresh(x.queue, nonce, balance, now)
      ensures x.actQueue.Footprint() <= heap.parts.Keys
      ensures Lists(removed, x.queue.items, Dropped(x.queue, Refresh(x.queue, nonce, balance, now)))
    {
      assert Backed(x, heap.parts);
      x.actQueue.CacheIsExact();
      var acts, acts2 := RefreshQueue(x.actQueue, nonce, balance, now);
      RefreshDrops(x.queue, nonce, balance, now, acts, acts2);
      removed := acts + acts2;
      heap.Worked(x);
    }

    /** PendingActions' work on the queue object of an account. */
    method ExpireObject(x: AccountItem, now: int) returns (removed: seq<Action>)
      requires heap.Sound() && x in heap.members
      modifies heap.parts.Keys
      ensures unchanged(this) && unchanged(heap) && unchanged(heap.members)
      ensures heap.Unclaimed({x}) && x.actQueue.View() == Expire(x.queue, now)
      ensures x.actQueue.Footprint() <= heap.parts.Keys
      ensures Lists(removed, x.queue.items, Dropped(x.queue, Expire(x.queue, now)))
    {
      assert Backed(x, heap.parts);
      x.actQueue.CacheIsExact();
      removed := ExpireQueue(x.actQueue, now);
      ExpireDrops(x.queue, now, removed);
      heap.Worked(x);
    }

    /** Reset's work on the queue object of an account whose confirmed state could not be read. */
    method EmptyObject(x: AccountItem)
      requires heap.Sound() && x in heap.members
      modifies heap.parts.Keys
      ensures unchanged(this) && unchanged(heap) && unchanged(heap.members)
      ensures heap.Unclaimed({x}) && x.actQueue.View() == Empty(0, 0, x.queue.ttl)
      ensures x.actQueue.Footprint() <= heap.parts.Keys
    {
      assert Backed(x, heap.parts);
      x.actQueue.Reset();
      heap.Worked(x);
    }

    // ---------- the same, with the item looked after ----------

    method PutInto(x: AccountItem, act: Action, now: int) returns (r: Result<Option<Action>>)
      requires heap.Sound() && x in heap.members && x.queue.accountNonce <= act.nonce
      modifies heap`parts, heap.parts.Keys, x`queue
      ensures OnlyQueueOf(x) && heap.Sound() && fresh(heap.parts.Keys - old(heap.parts.Keys))
      ensures
        match PutError(old(x.queue), act)
        case Some(e) => r == Err(e) && x.queue == old(x.queue)
        case None => r == Ok(Replaced(old(x.queue), act)) && x.queue == With(old(x.queue), act, now)
    {
      ghost var q';
      r, q' := PutObject(x, act, now, x.queue);
      heap.Adjust(x);
    }

    method PopFrom(x: AccountItem) returns (act: Option<Action>)
      requires heap.Sound() && x in heap.members
      modifies heap`parts, heap.parts.Keys, x`queue
      ensures OnlyQueueOf(x) && heap.Sound() && heap.parts.Keys == old(heap.parts.Keys)
      ensures Popped(old(x.queue), act, x.queue)
    {
      ghost var q';
      act, q' := PopObject(x, x.queue);
      heap.Adjust(x);
    }

    method RefreshAccount(x: AccountItem, nonce: nat, balance: int, now: int) returns (removed: seq<Action>)
      requires heap.Sound() && x in heap.members
      modifies heap`parts, heap.parts.Keys, x`queue
      ensures OnlyQueueOf(x) && heap.Sound() && heap.parts.Keys == old(heap.parts.Keys)
      ensures x.queue == Refresh(old(x.queue), nonce, balance, now)
      ensures Lists(removed, old(x.queue).items, Dropped(old(x.queue), x.queue))
    {
      removed := RefreshObject(x, nonce, balance, now);
      heap.Adjust(x);
    }

    method ExpireAccount(x: AccountItem, now: int) returns (removed: seq<Action>)
      requires heap.Sound() && x in heap.members
      modifies heap`parts, heap.parts.Keys, x`queue
      ensures OnlyQueueOf(x) && heap.Sound() && heap.parts.Keys == old(heap.parts.Keys)
      ensures x.queue == Expire(old(x.queue), now)
      ensures Lists(removed, old(x.queue).items, Dropped(old(x.queue), x.queue))
    {
      removed := ExpireObject(x, now);
      heap.Adjust(x);
    }

    method EmptyAccount(x: AccountItem)
      requires heap.Sound() && x in heap.members
      modifies heap`parts, heap.parts.Keys, x`queue
      ensures OnlyQueueOf(x) && heap.Sound() && heap.parts.Keys == old(heap.parts.Keys)
      ensures x.queue == Empty(0, 0, old(x.queue).ttl)
    {
      EmptyObject(x);
      heap.Adjust(x);
    }

    lemma SameItems()
      requires Sound()
      ensures forall a {:trigger accounts[a]} | a in accounts :: accounts[a].actQueue.items == queues[a].items
    {
      assert forall a {:trigger accounts[a]} | a in accounts :: Backed(accounts[a], heap.parts);
    }

    lemma NonEmptyHeap()
      requires Sound() && |accounts| > 0
      ensures |heap.slots| > 0
    {
      var a :| a in accounts;
      assert accounts[a] in heap.members;
    }

    /** The item of a new account joins map and heap. */
    method Adopt(addr: string, item: AccountItem)
      requires Standard() && heap.Valid() && Tied() && addr !in queues
      requires item !in heap.members && AllBacked(heap.members + {item}, heap.parts)
      modifies this, heap`slots, heap`members, heap`keys, heap.members`index, item`index
      ensures Valid() && queues == old(queues)[addr := item.queue]
      ensures heap.members == old(heap.members) + {item}
    {
      ghost var objs := heap.members;
      heap.Push(item);
      MatchedAdd(accounts, owner, objs, addr, item);
      Settle(accounts[addr := item], WithOwner(owner, item, addr), queues[addr := item.queue], heap.members);
    }

    method Discard(addr: string)
      requires Standard() && Valid() && addr in queues
      modifies this, heap`slots, heap`members, heap`keys, heap.members`index
      ensures Valid() && queues == old(queues) - {addr}
      ensures heap.members == old(heap.members) - {old(accounts)[addr]} && AllBacked(old(heap.members), heap.parts)
    {
      var item := accounts[addr];
      heap.AtOwnIndex(item);
      ghost var all := heap.members;
      MatchedRemove(accounts, owner, all, addr);
      var _ := heap.Remove(item.index);
      Settle(accounts - {addr}, owner, queues - {addr}, all);
    }

    /** PutAction for a sender that is new: a failed Put leaves no account. */
    method PutNew(addr: string, nonce: nat, balance: int, ttl: int, act: Action, now: int)
      returns (r: Result<Option<Action>>)
      requires Standard() && Valid() && addr !in queues && nonce <= act.nonce
      modifies this, heap, heap.members`index
      ensures Valid() && fresh(heap.members - old(heap.members)) && fresh(heap.parts.Keys - old(heap.parts.Keys))
      ensures PutDone(old(queues), addr, Empty(nonce, balance, ttl), act, now, r, queues)
    {
      var item;
      r, item := MakeItem(nonce, balance, ttl, act, now);
      if item.Some? {
        Adopt(addr, item.value);
      }
    }

    /** The item of an account that is new, with the action in its queue; map and heap do not know of it yet. */
    method MakeItem(nonce: nat, balance: int, ttl: int, act: Action, now: int)
      returns (r: Result<Option<Action>>, item: Option<AccountItem>)
      requires Valid() && nonce <= act.nonce
      modifies heap`parts
      ensures heap.Valid() && Tied() && fresh(heap.parts.Keys - old(heap.parts.Keys))
      ensures
        var q := Empty(nonce, balance, ttl);
        match PutError(q, act)
        case Some(e) => r == Err(e) && item == None && heap.Sound()
        case None =>
          && r == Ok(Replaced(q, act)) && item.Some? && fresh(item.value) && item.value.queue == With(q, act, now)
          && AllBacked(heap.members + {item.value}, heap.parts)
    {
      item := None;
      var queue;
      ghost var objs;
      queue, r, objs := MakeQueue(nonce, balance, ttl, act, now);
      if r.Ok? {
        var x := heap.NewItem(|accounts|, queue, With(Empty(nonce, balance, ttl), act, now), objs);
        OnlyObjects();
        item := Some(x);
      }
    }

    /** A queue for an account that is new. */
    method MakeQueue(nonce: nat, balance: int, ttl: int, act: Action, now: int)
      returns (queue: ActQueue, r: Result<Option<Action>>, ghost objs: set<object>)
      requires Valid() && nonce <= act.nonce
      ensures Valid() && queue.Valid() && queue.Footprint() == objs && fresh(objs) && objs !! heap.parts.Keys
      ensures
        var q := Empty(nonce, balance, ttl);
        match PutError(q, act)
        case Some(e) => r == Err(e)
        case None => r == Ok(Replaced(q, act)) && queue.View() == With(q, act, now)
    {
      queue, r := NewQueue(nonce, balance, ttl, act, now);
      Still();
      objs := queue.Footprint();
    }

    /** PutAction for a sender that is there; `q'` is what its queue becomes. */
    method PutOld(addr: string, act: Action, now: int) returns (r: Result<Option<Action>>, ghost q': Queue)
      requires Standard() && Valid() && addr in queues && queues[addr].accountNonce <= act.nonce
      modifies this`queues, heap, heap.members, heap.parts.Keys
      ensures Valid() && heap.members == old(heap.members) && fresh(heap.parts.Keys - old(heap.parts.Keys))
      ensures queues == old(queues)[addr := q']
      ensures
        var q := old(queues)[addr];
        match PutError(q, act)
        case Some(e) => r == Err(e) && q' == q
        case None => r == Ok(Replaced(q, act)) && q' == With(q, act, now)
    {
      var x := accounts[addr];
      r := PutInto(x, act, now);
      q' := x.queue;
      if r.Ok? {
        AllButOne(addr);
        Fix(x, addr);
      } else {
        AllAsBefore(addr);
        SameQueue(queues, addr);
      }
    }

    /** PutAction: a failed Put changes nothing, not even for a sender that is new. */
    method PutAction(addr: string, nonce: nat, balance: int, ttl: int, act: Action, now: int)
      returns (r: Result<Option<Action>>)
      requires Standard() && Valid()
      requires (if addr in queues then queues[addr].accountNonce else nonce) <= act.nonce
      modifies this, heap, heap.members, heap.parts.Keys
      ensures Valid() && fresh(heap.members - old(heap.members))
      ensures fresh(heap.parts.Keys - old(heap.parts.Keys))
      ensures
        var q := if addr in old(queues) then old(queues)[addr] else Empty(nonce, balance, ttl);
        PutDone(old(queues), addr, q, act, now, r, queues)
    {
      if addr !in accounts {
        r := PutNew(addr, nonce, balance, ttl, act, now);
      } else {
        ghost var q';
        r, q' := PutOld(addr, act, now);
        SameQueue(old(queues), addr);
      }
    }

    /**
     PopPeek takes the largest nonce of an account that no other goes before: one that is not ready if
     there is one, and among equals one whose first action offers least. It finds nothing only when every
     queue is empty.
     */
    method PopPeek() returns (act: Option<Action>, ghost addr: string)
      requires Valid() && Standard()
      modifies this`queues, heap, heap.members, heap.parts.Keys
      ensures Valid() && heap.members == old(heap.members) && heap.parts.Keys == old(heap.parts.Keys)
      ensures act.None? <==> forall a | a in old(queues) :: old(queues)[a].items == map[]
      ensures act.None? ==> queues == old(queues)
      ensures act.Some? ==>
                && IsVictim(heap.rank, old(queues), addr) && GoesFirst(old(queues), addr)
                && act == Some(Largest(old(queues)[addr]))
                && queues == old(queues)[addr := WithoutLargest(old(queues)[addr])]
    {
      if |accounts| == 0 {
        return None, "";
      }
      NonEmptyHeap();
      addr := LeastAccount();
      ghost var q';
      if queues[addr].items != map[] {
        LeastGoesFirst(addr);
      }
      act, q' := PopOld(heap.slots[0], addr);
      SameQueue(old(queues), addr);
    }

    lemma LeastGoesFirst(addr: string)
      requires Standard() && IsVictim(heap.rank, queues, addr)
      ensures GoesFirst(queues, addr)
    {
      forall a | a in queues ensures Leq(Rank(queues[addr]), Rank(queues[a])) {
        assert Leq(heap.rank(queues[addr]), heap.rank(queues[a]));
      }
      VictimMeans(queues, addr);
    }

    /** The account at the root has least rank. */
    lemma LeastAccount() returns (addr: string)
      requires Valid() && Standard() && |heap.slots| > 0
      ensures addr in accounts && accounts[addr] == heap.slots[0]
      ensures forall a | a in queues :: Leq(heap.rank(queues[addr]), heap.rank(queues[a]))
      ensures queues[addr].items == map[] ==> forall a | a in queues :: queues[a].items == map[]
    {
      heap.RootRank();
      addr := owner(heap.slots[0]);
      assert forall a | a in queues ::
          accounts[a] in heap.members && Leq(heap.rank(queues[addr]), heap.rank(accounts[a].queue));
    }

    /** The largest nonce leaves the queue of an account; `q'` is what the queue becomes. */
    method PopOld(x: AccountItem, ghost addr: string) returns (act: Option<Action>, ghost q': Queue)
      requires Standard() && Valid() && addr in accounts && accounts[addr] == x
      modifies this`queues, heap, heap.members, heap.parts.Keys
      ensures Valid() && heap.members == old(heap.members) && heap.parts.Keys == old(heap.parts.Keys)
      ensures queues == old(queues)[addr := q']
      ensures Popped(old(queues)[addr], act, q')
    {
      act := PopFrom(x);
      q' := x.queue;
      AllButOne(addr);
      Fix(x, addr);
    }

    /** PopAccount: the queue leaves with its item, and keeps its objects. */
    method PopAccount(addr: string) returns (q: Option<ActQueue>, ghost item: Option<AccountItem>)
      requires Standard() && Valid()
      modifies this, heap`slots, heap`members, heap`keys, heap.members`index
      ensures Valid() && heap.members <= old(heap.members) && AllBacked(old(heap.members), heap.parts)
      ensures q.Some? <==> addr in old(queues)
      ensures item == if addr in old(queues) then Some(old(accounts)[addr]) else None
      ensures item.Some? ==> item.value in old(heap.members) - heap.members
      ensures item.Some? ==> q.value == item.value.actQueue && item.value.queue == old(queues)[addr]
      ensures queues == old(queues) - {addr}
    {
      if addr !in accounts {
        assert queues == queues - {addr};
        return None, None;
      }
      q, item := Some(accounts[addr].actQueue), Some(accounts[addr]);
      Discard(addr);
    }

    /** An account leaves; its queue gives up all actions and is emptied. */
    method Withdraw(addr: string) returns (acts: seq<Action>)
      requires Standard() && Valid() && addr in queues
      modifies this, heap`slots, heap`members, heap`keys, heap.members`index, heap.parts.Keys
      ensures Valid() && heap.members <= old(heap.members) && unchanged(heap`parts)
      ensures queues == old(queues) - {addr}
      ensures Lists(acts, old(queues)[addr].items, old(queues)[addr].items.Keys)
    {
      var q, item := PopAccount(addr);
      acts := EmptyOut(q.value, item.value);
    }

    /** The actions of a queue that has left the pool, which is then emptied. */
    method EmptyOut(q: ActQueue, ghost x: AccountItem) returns (acts: seq<Action>)
      requires Valid() && x !in heap.members && AllBacked(heap.members + {x}, heap.parts) && q == x.actQueue
      modifies heap.parts.Keys
      ensures Valid() && unchanged(this) && unchanged(heap)
      ensures Lists(acts, x.queue.items, x.queue.items.Keys)
    {
      assert Backed(x, heap.parts);
      acts := q.AllActs();
      q.Reset();
      heap.Apart(x);
      assert heap.members - {x} == heap.members;
      OnlyObjects();
    }

    /** DeleteIfEmpty */
    method DeleteIfEmpty(addr: string)
      requires Standard() && Valid()
      modifies this, heap, heap.members`index
      ensures Valid() && heap.members <= old(heap.members) && unchanged(heap`parts)
      ensures queues == if addr in old(queues) && old(queues)[addr].items == map[]
                        then old(queues) - {addr} else old(queues)
    {
      if addr in accounts {
        assert Backed(accounts[addr], heap.parts);
        if accounts[addr].actQueue.Empty() {
          Discard(addr);
        }
      }
    }
  }

  /** A queue for an account that is new, and the Put into it. */
  method NewQueue(nonce: nat, balance: int, ttl: int, act: Action, now: int)
    returns (queue: ActQueue, r: Result<Option<Action>>)
    requires nonce <= act.nonce
    ensures queue.Valid() && fresh(queue.Footprint())
    ensures
      var q := Empty(nonce, balance, ttl);
      match PutError(q, act)
      case Some(e) => r == Err(e)
      case None => r == Ok(Replaced(q, act)) && queue.View() == With(q, act, now)
  {
    queue := new ActQueue(nonce, balance, ttl);
    r := queue.Put(act, now);
  }
}
