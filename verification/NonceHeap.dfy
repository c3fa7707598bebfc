/**
 The two nonce heaps of an account's queue. Both heaps hold pointers to the same
 `NonceWithTTL` objects, and every object stores its own position in each heap.
 */
module NonceHeaps {
  import opened HeapOrder

  class NonceWithTTL {
    const nonce: nat
    var deadline: int
    var ascIdx: nat
    var descIdx: nat

    constructor (nonce: nat, deadline: int)
      ensures this.nonce == nonce && this.deadline == deadline
    {
      this.nonce, this.deadline := nonce, deadline;
      ascIdx, descIdx := 0, 0;
    }
  }

  function KeyOf(ascending: bool, o: NonceWithTTL): Key {
    var n: int := o.nonce;
    Key(0, if ascending then n else -n)
  }

  ghost function KeysOf(ascending: bool, s: seq<NonceWithTTL>): (ks: seq<Key>)
    ensures |ks| == |s|
    ensures forall i {:trigger ks[i]} | 0 <= i < |s| :: ks[i] == KeyOf(ascending, s[i])
  {
    seq(|s|, i requires 0 <= i < |s| => KeyOf(ascending, s[i]))
  }

  ghost function NodesOf(s: seq<NonceWithTTL>): set<NonceWithTTL> {
    set o | o in s
  }

  lemma KeysOfSwapped(ascending: bool, s: seq<NonceWithTTL>, i: nat, j: nat)
    requires i < |s| && j < |s|
    ensures KeysOf(ascending, Swapped(s, i, j)) == Swapped(KeysOf(ascending, s), i, j)
    ensures NodesOf(Swapped(s, i, j)) == NodesOf(s)
  {
  }

  /** `ascNoncePriorityQueue` (ascending) or `descNoncePriorityQueue` under `container/heap`. */
  class NonceHeap {
    const ascending: bool
    var slots: seq<NonceWithTTL>
    /** The objects in the slots. */
    ghost var members: set<NonceWithTTL>

    constructor (ascending: bool)
      ensures this.ascending == ascending && slots == [] && members == {}
    {
      this.ascending := ascending;
      slots := [];
      members := {};
    }

    ghost function Keys(): seq<Key>
      reads this
    {
      KeysOf(ascending, slots)
    }

    /** The objects whose ascIdx, respectively descIdx, this heap may write. */
    ghost function AscFrame(): set<NonceWithTTL>
      reads this
    {
      if ascending then members else {}
    }

    ghost function DescFrame(): set<NonceWithTTL>
      reads this
    {
      if ascending then {} else members
    }

    /** Every object knows its true position. */
    ghost predicate Indexed()
      reads this, AscFrame()`ascIdx, DescFrame()`descIdx
    {
      && members == NodesOf(slots)
      && if ascending then forall i | 0 <= i < |slots| :: slots[i].ascIdx == i
         else forall i | 0 <= i < |slots| :: slots[i].descIdx == i
    }

    ghost predicate Valid()
      reads this, AscFrame()`ascIdx, DescFrame()`descIdx
    {
      Indexed() && IsHeap(Keys())
    }

    predicate Less(i: nat, j: nat)
      requires i < |slots| && j < |slots|
      reads this
    {
      if ascending then slots[i].nonce < slots[j].nonce else slots[i].nonce > slots[j].nonce
    }

    method Swap(i: nat, j: nat)
      requires i < |slots| && j < |slots|
      requires Indexed()
      modifies this`slots, AscFrame()`ascIdx, DescFrame()`descIdx
      ensures slots == Swapped(old(slots), i, j)
      ensures Indexed()
      ensures Keys() == Swapped(old(Keys()), i, j)
    {
      KeysOfSwapped(ascending, slots, i, j);
      slots := Swapped(slots, i, j);
      if ascending {
        slots[i].ascIdx := i;
        slots[j].ascIdx := j;
      } else {
        slots[i].descIdx := i;
        slots[j].descIdx := j;
      }
    }

    method Up(start: nat, ghost n: nat)
      requires start < n <= |slots|
      requires Indexed() && LooseAbove(Keys(), 0, n, start)
      modifies this`slots, AscFrame()`ascIdx, DescFrame()`descIdx
      ensures |slots| == old(|slots|)
      ensures Indexed() && HeapFrom(Keys(), 0, n)
      ensures slots[n..] == old(slots[n..])
    {
      var j: nat := start;
      while true
        invariant j < n <= |slots| == old(|slots|)
        invariant Indexed() && LooseAbove(Keys(), 0, n, j)
        invariant slots[n..] == old(slots[n..])
        decreases j
      {
        var i := Parent(j);
        if i == j || !Less(j, i) {
          break;
        }
        UpStep(Keys(), n, j);
        Swap(i, j);
        j := i;
      }
    }

    function SmallerChild(i: nat, n: nat): (j: nat)
      requires 2 * i + 1 < n <= |slots|
      reads this
      ensures 1 <= j < n && Parent(j) == i
      ensures forall c | 1 <= c < n && Parent(c) == i :: Leq(Keys()[j], Keys()[c])
    {
      var l := 2 * i + 1;
      if l + 1 < n && Less(l + 1, l) then l + 1 else l
    }

    method Down(start: nat, n: nat, ghost lo: nat) returns (moved: bool)
      requires lo <= start < n <= |slots|
      requires Indexed() && LooseAt(Keys(), lo, n, start)
      modifies this`slots, AscFrame()`ascIdx, DescFrame()`descIdx
      ensures Indexed() && |slots| == old(|slots|)
      ensures slots[n..] == old(slots[n..])
      ensures moved ==> HeapFrom(Keys(), lo, n)
      ensures !moved ==> LooseAbove(Keys(), lo, n, start)
    {
      var i := start;
      while true
        invariant start <= i < n <= |slots| == old(|slots|)
        invariant Indexed() && LooseAt(Keys(), lo, n, i)
        invariant i != start ==> Edge(Keys(), i)
        invariant slots[n..] == old(slots[n..])
        decreases n - i
      {
        if 2 * i + 1 >= n {
          break;
        }
        var j := SmallerChild(i, n);
        if !Less(j, i) {
          break;
        }
        DownStep(Keys(), lo, n, i, j);
        Swap(i, j);
        i := j;
      }
      DownStop(Keys(), lo, n, i);
      moved := i > start;
    }

    method Push(x: NonceWithTTL)
      requires Valid() && x !in slots
      modifies this, AscFrame()`ascIdx, DescFrame()`descIdx, x`ascIdx, x`descIdx
      ensures Valid() && members == old(members) + {x}
      ensures |slots| == old(|slots|) + 1
      ensures ascending ==> x.descIdx == old(x.descIdx)
      ensures !ascending ==> x.ascIdx == old(x.ascIdx)
    {
      if ascending {
        x.ascIdx := |slots|;
      } else {
        x.descIdx := |slots|;
      }
      slots := slots + [x];
      members := members + {x};
      forall c | 1 <= c < |slots| - 1 ensures Edge(Keys(), c) {
        assert Edge(old(Keys()), c);
      }
      Up(|slots| - 1, |slots|);
    }

    /** `heap.Remove`; `heap.Pop` is the case i = 0. */
    method Remove(i: nat) returns (x: NonceWithTTL)
      requires Valid() && i < |slots|
      modifies this, AscFrame()`ascIdx, DescFrame()`descIdx
      ensures x == old(slots[i])
      ensures Valid() && members == old(members) - {x}
      ensures |slots| == old(|slots|) - 1
    {
      MoveLast(i);
      x := slots[|slots| - 1];
      DropLast();
    }

    /** The object of slot i trades places with the last one, unless it is the last one itself. */
    method MoveLast(i: nat)
      requires Valid() && i < |slots|
      modifies this`slots, AscFrame()`ascIdx, DescFrame()`descIdx
      ensures |slots| == old(|slots|) && slots[|slots| - 1] == old(slots[i])
      ensures Indexed() && HeapFrom(Keys(), 0, |slots| - 1)
    {
      if i == |slots| - 1 {
        FewerSlots(Keys(), i);
      } else {
        SiftLast(i);
      }
    }

    /** The last object, put into slot i, is sifted into the rest. */
    method SiftLast(i: nat)
      requires Valid() && i < |slots| - 1
      modifies this`slots, AscFrame()`ascIdx, DescFrame()`descIdx
      ensures |slots| == old(|slots|) && slots[|slots| - 1] == old(slots[i])
      ensures Indexed() && HeapFrom(Keys(), 0, |slots| - 1)
    {
      var n := |slots| - 1;
      LastIntoSlot(Keys(), i);
      Swap(i, n);
      ghost var tail := slots[n..];
      var moved := Down(i, n, 0);
      if !moved {
        Up(i, n);
      }
      assert slots[n] == slots[n..][0] == tail[0];
    }

    /** The slice type's own Pop. */
    method DropLast()
      requires |slots| > 0 && Indexed() && HeapFrom(Keys(), 0, |slots| - 1)
      modifies this
      ensures slots == old(slots)[..|old(slots)| - 1]
      ensures Valid() && members == old(members) - {old(slots)[|old(slots)| - 1]}
    {
      var n := |slots| - 1;
      ghost var s := slots;
      members := members - {slots[n]};
      slots := slots[..n];
      assert s == slots + [s[n]];
      forall c | 1 <= c < n ensures Edge(Keys(), c) {
        assert Edge(KeysOf(ascending, s), c);
      }
    }

    method Init()
      requires Indexed()
      modifies this`slots, AscFrame()`ascIdx, DescFrame()`descIdx
      ensures Valid() && |slots| == old(|slots|)
    {
      var n := |slots|;
      var i := n / 2;
      while i > 0
        invariant 0 <= i <= n / 2 && |slots| == n == old(|slots|)
        invariant Indexed() && HeapFrom(Keys(), i, n)
      {
        i := i - 1;
        assert LooseAt(Keys(), i, n, i) by {
          forall c | 1 <= c < n && i <= Parent(c) && c != i && Parent(c) != i ensures Edge(Keys(), c) {
            assert i + 1 <= Parent(c);
          }
        }
        var _ := Down(i, n, i);
      }
    }
  }
}
