/**
 The heap of accounts. An item's key is the rank of its queue, which other code changes in place;
 each item stores its own position. The comparison asks the queues themselves.
 */
module AccountHeaps {
  import opened HeapOrder
  import opened AccountQueue
  import opened NonceHeaps
  import opened NonceIndexes
  import opened ActQueues

  /** The ranks are those of the queues. */
  ghost predicate Ranks(rank: Queue -> Key) {
    forall q: Queue {:trigger Rank(q)} :: rank(q) == Rank(q)
  }

  class AccountItem {
    var index: nat
    const actQueue: ActQueue
    /** The queue as a value, as it was when the item was last looked after. */
    ghost var queue: Queue

    constructor (index: nat, actQueue: ActQueue)
      ensures this.index == index && this.actQueue == actQueue && queue == actQueue.View()
    {
      this.index, this.actQueue := index, actQueue;
      queue := actQueue.View();
    }
  }

  /** Which item an object that is part of a queue belongs to. */
  type Parts = map<object, AccountItem>

  ghost predicate QueueParts(parts: Parts) {
    forall o | o in parts :: o is ActQueue || o is NonceIndex || o is NonceHeap || o is NonceWithTTL
  }

  /** The item's queue is sound and has its objects to itself. */
  ghost predicate Housed(x: AccountItem, parts: Parts)
    reads parts.Keys
  {
    var q := x.actQueue;
    && {q, q.index, q.index.asc, q.index.desc} <= parts.Keys
    && (forall o | o in q.Footprint() :: o in parts && parts[o] == x)
    && q.Valid()
  }

  /** Besides, the item knows its value. */
  ghost predicate Backed(x: AccountItem, parts: Parts)
    reads x`queue, parts.Keys
  {
    Housed(x, parts) && x.actQueue.View() == x.queue
  }

  /** The item's queue is sound and none of its objects is another item's. */
  ghost predicate Claimable(x: AccountItem, parts: Parts)
    reads *
  {
    x.actQueue.Valid() && forall o | o in x.actQueue.Footprint() && o in parts :: parts[o] == x
  }

  ghost predicate AllBacked(items: set<AccountItem>, parts: Parts)
    reads items`queue, parts.Keys
  {
    match QueueParts(parts)
    case true => forall x {:trigger Backed(x, parts)} | x in items :: Backed(x, parts)
    case false => false
  }

  ghost function Claimed(parts: Parts, x: AccountItem, objs: set<object>): Parts {
    map o | o in parts.Keys + objs :: if o in objs then x else parts[o]
  }

  lemma ClaimKeeps(items: set<AccountItem>, parts: Parts, x: AccountItem, objs: set<object>)
    requires AllBacked(items, parts) && x !in items && objs == x.actQueue.Footprint()
    requires forall o | o in objs && o in parts :: parts[o] == x
    ensures AllBacked(items, Claimed(parts, x, objs))
  {
    var parts' := Claimed(parts, x, objs);
    forall y | y in items ensures Backed(y, parts') {
      assert Backed(y, parts);
    }
  }

  /** The objects of queues other than that of `x`. */
  ghost function Others(parts: Parts, x: AccountItem): set<object> {
    set o | o in parts && parts[o] != x
  }

  ghost function ItemsOf(s: seq<AccountItem>): set<AccountItem> {
    set o | o in s
  }

  /** `accountPriorityQueue` under `container/heap`. */
  class AccountHeap {
    ghost const rank: Queue -> Key
    var slots: seq<AccountItem>
    /** The items in the slots. */
    ghost var members: set<AccountItem>
    /** The ranks of the items in the slots. */
    ghost var keys: seq<Key>
    /** The objects of the queues. */
    ghost var parts: Parts

    constructor (ghost rank: Queue -> Key)
      ensures Valid() && Sound() && slots == [] && members == {} && parts == map[] && this.rank == rank
    {
      this.rank := rank;
      slots, members, keys, parts := [], {}, [], map[];
    }

    /** Every item's queue is sound, has its objects to itself, and is worth its value. */
    ghost predicate Sound()
      reads this`members, this`parts, members`queue, parts.Keys
    {
      AllBacked(members, parts)
    }

    /** Every item knows its true position. */
    ghost predicate Numbered()
      reads this`slots, this`members, members`index
    {
      && members == ItemsOf(slots)
      && forall i | 0 <= i < |slots| :: slots[i].index == i
    }

    ghost predicate Indexed()
      reads this`slots, this`members, this`keys, members`index, members`queue
    {
      && Numbered()
      && |keys| == |slots|
      && forall i | 0 <= i < |slots| :: keys[i] == rank(slots[i].queue)
    }

    ghost predicate Valid()
      reads this`slots, this`members, this`keys, members`index, members`queue
    {
      match |keys| == |slots|
      case true => Indexed() && IsHeap(keys)
      case false => false
    }

    /** These items have been worked on: their queues are sound and have taken no other item's objects. */
    ghost predicate Unclaimed(items: set<AccountItem>)
      reads *
    {
      match QueueParts(parts)
      case true =>
        && AllBacked(members - items, parts)
        && forall x {:trigger Claimable(x, parts)} | x in items :: Claimable(x, parts)
      case false => false
    }

    /** Whatever happens to the objects of one queue, the other items are as they were. */
    twostate lemma Apart(new x: AccountItem)
      requires old(Sound()) && members == old(members) && parts == old(parts)
      requires unchanged(Others(parts, x))
      requires forall y {:trigger y.queue} | y in members :: y.queue == old(y.queue)
      ensures AllBacked(members - {x}, parts)
    {
      forall y | y in members - {x} ensures Backed(y, parts) {
        assert old(Backed(y, parts));
      }
    }

    /** Work on a queue, with its own objects or new ones, leaves only that queue to be looked after. */
    twostate lemma Worked(new x: AccountItem)
      requires old(Sound()) && x in old(members) && members == old(members) && parts == old(parts)
      requires x.actQueue.Valid() && fresh(x.actQueue.Footprint() - old(x.actQueue.Footprint()))
      requires unchanged(Others(parts, x))
      requires forall y {:trigger y.queue} | y in members :: y.queue == old(y.queue)
      ensures Unclaimed({x})
    {
      Apart(x);
      assert old(Backed(x, parts));
      assert Claimable(x, parts);
    }

    /** The objects of a sound queue become, or stay, those of an item. */
    ghost method Claim(x: AccountItem)
      requires AllBacked(members - {x}, parts) && Claimable(x, parts)
      modifies this`parts
      ensures AllBacked(members - {x}, parts) && Housed(x, parts)
      ensures parts == Claimed(old(parts), x, x.actQueue.Footprint())
    {
      ClaimKeeps(members - {x}, parts, x, x.actQueue.Footprint());
      parts := Claimed(parts, x, x.actQueue.Footprint());
    }

    /** An item for a new queue; it is not in the heap yet. */
    method NewItem(index: nat, queue: ActQueue, ghost q: Queue, ghost objs: set<object>) returns (x: AccountItem)
      requires Sound() && queue.Valid() && queue.View() == q
      requires queue.Footprint() == objs && objs !! parts.Keys
      modifies this`parts
      ensures fresh(x) && x.actQueue == queue && x.queue == q
      ensures AllBacked(members + {x}, parts) && parts.Keys == old(parts.Keys) + objs
    {
      x := new AccountItem(index, queue);
      assert x !in members && members - {x} == members;
      Claim(x);
    }

    /** Less, asked of the queues as they are. */
    method LessAt(i: nat, j: nat) returns (less: bool)
      requires i < |slots| && j < |slots| && Numbered() && Sound() && Ranks(rank)
      ensures less == Less(slots[i].queue, slots[j].queue)
      ensures if less then Leq(rank(slots[i].queue), rank(slots[j].queue))
              else Leq(rank(slots[j].queue), rank(slots[i].queue))
    {
      assert Backed(slots[i], parts) && Backed(slots[j], parts);
      LessRespectsRank(slots[i].queue, slots[j].queue);
      var iReady, iCap := slots[i].actQueue.NextAction();
      var jReady, jCap := slots[j].actQueue.NextAction();
      if jCap.None? {
        return true;
      }
      if iCap.None? {
        return false;
      }
      if !iReady && jReady {
        return true;
      }
      if !jReady && iReady {
        return false;
      }
      less := iCap.value < jCap.value;
    }

    /** Swap leaves the queues alone. */
    method Swap(i: nat, j: nat)
      requires i < |slots| && j < |slots|
      requires Indexed() && Sound()
      modifies this`slots, this`keys, members`index
      ensures slots == Swapped(old(slots), i, j)
      ensures Indexed() && Sound()
      ensures keys == Swapped(old(keys), i, j)
    {
      Exchange(i, j);
    }

    /** Two slots change places and both items learn their new index. */
    method Exchange(i: nat, j: nat)
      requires i < |slots| && j < |slots|
      requires Indexed()
      modifies this`slots, this`keys, members`index
      ensures slots == Swapped(old(slots), i, j)
      ensures Indexed()
      ensures keys == Swapped(old(keys), i, j)
    {
      slots := Swapped(slots, i, j);
      keys := Swapped(keys, i, j);
      slots[i].index := i;
      slots[j].index := j;
    }

    method Up(start: nat, ghost n: nat)
      requires Ranks(rank) && Sound()
      requires start < n <= |slots|
      requires Indexed() && LooseAbove(keys, 0, n, start)
      modifies this`slots, this`keys, members`index
      ensures |slots| == old(|slots|)
      ensures Indexed() && Sound() && HeapFrom(keys, 0, n)
      ensures slots[n..] == old(slots[n..])
    {
      var j: nat := start;
      while true
        invariant j < n <= |slots| == old(|slots|)
        invariant Indexed() && Sound() && LooseAbove(keys, 0, n, j)
        invariant slots[n..] == old(slots[n..])
        decreases j
      {
        var i := Parent(j);
        if i == j {
          break;
        }
        var less := LessAt(j, i);
        if !less {
          break;
        }
        UpStep(keys, n, j);
        Swap(i, j);
        j := i;
      }
    }

    method SmallerChild(i: nat, n: nat) returns (j: nat)
      requires 2 * i + 1 < n <= |slots| && Ranks(rank) && Indexed() && Sound()
      ensures 1 <= j < n && Parent(j) == i
      ensures forall c | 1 <= c < n && Parent(c) == i :: Leq(keys[j], keys[c])
    {
      j := 2 * i + 1;
      if j + 1 < n {
        var less := LessAt(j + 1, j);
        j := if less then j + 1 else j;
      }
    }

    method Down(start: nat, n: nat, ghost lo: nat) returns (moved: bool)
      requires Ranks(rank) && Sound()
      requires lo <= start < n <= |slots|
      requires Indexed() && LooseAt(keys, lo, n, start)
      modifies this`slots, this`keys, members`index
      ensures Indexed() && Sound() && |slots| == old(|slots|)
      ensures slots[n..] == old(slots[n..])
      ensures moved ==> HeapFrom(keys, lo, n)
      ensures !moved ==> LooseAbove(keys, lo, n, start)
    {
      var i := start;
      while true
        invariant start <= i < n <= |slots| == old(|slots|)
        invariant Indexed() && Sound() && LooseAt(keys, lo, n, i)
        invariant i != start ==> Edge(keys, i)
        invariant slots[n..] == old(slots[n..])
        decreases n - i
      {
        if 2 * i + 1 >= n {
          break;
        }
        var j := SmallerChild(i, n);
        var less := LessAt(j, i);
        if !less {
          break;
        }
        DownStep(keys, lo, n, i, j);
        Swap(i, j);
        i := j;
      }
      DownStop(keys, lo, n, i);
      moved := i > start;
    }

    /** `heap.Fix`: slot i may hold any rank; all other edges are in order. */
    method Fix(i: nat)
      requires Ranks(rank) && Sound()
      requires i < |slots| && Indexed() && LooseAt(keys, 0, |slots|, i)
      modifies this`slots, this`keys, members`index
      ensures Valid() && Sound()
    {
      var moved := Down(i, |slots|, 0);
      if !moved {
        Up(i, |slots|);
      }
    }

    /** The keys of all items but one are up to date. */
    ghost predicate ValidBut(x: AccountItem)
      reads this`slots, this`members, this`keys, members`index, members`queue
    {
      match |keys| == |slots|
      case true =>
        && Numbered() && IsHeap(keys)
        && forall i | 0 <= i < |slots| && slots[i] != x :: keys[i] == rank(slots[i].queue)
      case false => false
    }

    /** An item's queue has changed: the heap is fixed at the item's position. */
    method Rekey(x: AccountItem)
      requires Ranks(rank)
      requires ValidBut(x) && Sound() && x in members
      modifies this`slots, this`keys, members`index
      ensures Valid() && Sound()
    {
      var i := x.index;
      AtOwnIndex(x);
      KeyChanged(keys, i, rank(x.queue));
      keys := keys[i := rank(x.queue)];
      Fix(i);
    }

    /** A queue has been worked on: the item keeps its objects, with new ones, and learns its value. */
    ghost method Adjust(x: AccountItem)
      requires x in members && Unclaimed({x})
      modifies this`parts, x`queue
      ensures Sound() && x.queue == old(x.actQueue.View())
      ensures parts.Keys == old(parts.Keys) + old(x.actQueue.Footprint())
    {
      assert Claimable(x, parts);
      Claim(x);
      Revalue(x);
    }

    /** The item learns the value of its queue. */
    ghost method Revalue(x: AccountItem)
      requires x in members && AllBacked(members - {x}, parts) && Housed(x, parts)
      modifies x`queue
      ensures Sound() && x.queue == x.actQueue.View()
    {
      x.queue := x.actQueue.View();
    }

    /** `heap.Push` */
    method Push(x: AccountItem)
      requires Ranks(rank)
      requires Valid() && x !in members && AllBacked(members + {x}, parts)
      modifies this`slots, this`members, this`keys, members`index, x`index
      ensures Valid() && Sound() && members == old(members) + {x}
    {
      x.index := |slots|;
      slots := slots + [x];
      members := members + {x};
      keys := keys + [rank(x.queue)];
      forall c | 1 <= c < |slots| - 1 ensures Edge(keys, c) {
        assert Edge(old(keys), c);
      }
      Up(|slots| - 1, |slots|);
    }

    /** `heap.Remove` */
    method Remove(i: nat) returns (x: AccountItem)
      requires Ranks(rank) && Sound()
      requires Valid() && i < |slots|
      modifies this`slots, this`members, this`keys, members`index
      ensures x == old(slots[i]) && x in old(members)
      ensures Valid() && Sound() && members == old(members) - {x} && AllBacked(old(members), parts)
    {
      MoveLast(i);
      x := slots[|slots| - 1];
      DropLast();
    }

    /** The item of slot i trades places with the last one, unless it is the last one itself. */
    method MoveLast(i: nat)
      requires Ranks(rank) && Sound()
      requires Valid() && i < |slots|
      modifies this`slots, this`keys, members`index
      ensures |slots| == old(|slots|) && slots[|slots| - 1] == old(slots[i])
      ensures Indexed() && Sound() && HeapFrom(keys, 0, |slots| - 1)
    {
      if i == |slots| - 1 {
        FewerSlots(keys, i);
      } else {
        SiftLast(i);
      }
    }

    /** The last item, put into slot i, is sifted into the rest. */
    method SiftLast(i: nat)
      requires Ranks(rank) && Sound()
      requires Valid() && i < |slots| - 1
      modifies this`slots, this`keys, members`index
      ensures |slots| == old(|slots|) && slots[|slots| - 1] == old(slots[i])
      ensures Indexed() && Sound() && HeapFrom(keys, 0, |slots| - 1)
    {
      var n := |slots| - 1;
      LastIntoSlot(keys, i);
      Swap(i, n);
      ghost var tail := slots[n..];
      var moved := Down(i, n, 0);
      if !moved {
        Up(i, n);
      }
      assert slots[n] == slots[n..][0] == tail[0];
    }

    /** The slice type's own Pop. */
    method DropLast()
      requires |slots| > 0 && Indexed() && Sound() && HeapFrom(keys, 0, |slots| - 1)
      modifies this`slots, this`members, this`keys
      ensures slots == old(slots)[..|old(slots)| - 1]
      ensures Valid() && Sound() && members == old(members) - {old(slots)[|old(slots)| - 1]}
      ensures AllBacked(old(members), parts)
    {
      var n := |slots| - 1;
      ghost var s, ks := slots, keys;
      members := members - {slots[n]};
      slots := slots[..n];
      keys := keys[..n];
      assert s == slots + [s[n]];
      forall c | 1 <= c < n ensures Edge(keys, c) {
        assert Edge(ks, c);
      }
    }

    /** `heap.Init`: whatever the ranks have become, the heap is put back in order. */
    method Init()
      requires Numbered() && Ranks(rank) && Sound()
      modifies this`slots, this`keys, members`index
      ensures Valid() && Sound()
    {
      keys := seq(|slots|, i requires 0 <= i < |slots| reads this, slots => rank(slots[i].queue));
      var n := |slots|;
      var i := n / 2;
      while i > 0
        invariant 0 <= i <= n / 2 && |slots| == n
        invariant Indexed() && Sound() && HeapFrom(keys, i, n)
      {
        i := i - 1;
        assert LooseAt(keys, i, n, i) by {
          forall c | 1 <= c < n && i <= Parent(c) && c != i && Parent(c) != i ensures Edge(keys, c) {
            assert i + 1 <= Parent(c);
          }
        }
        var _ := Down(i, n, i);
      }
    }

    lemma AtOwnIndex(x: AccountItem)
      requires Numbered() && x in members
      ensures x.index < |slots| && slots[x.index] == x
    {
    }

    /** The account at the root has a least rank. */
    lemma RootRank()
      requires Valid() && |slots| > 0
      ensures slots[0] in members && forall o | o in members :: Leq(rank(slots[0].queue), rank(o.queue))
    {
      forall o | o in members ensures Leq(rank(slots[0].queue), rank(o.queue)) {
        var i :| 0 <= i < |slots| && slots[i] == o;
        RootIsLeast(keys, i);
      }
    }
  }
}
