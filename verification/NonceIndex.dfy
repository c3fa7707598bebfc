/**
 The pair of nonce heaps of one queue. The heaps always hold the same objects, one for each
 queued nonce, and each object knows its place in both.
 */
module NonceIndexes {
  import opened HeapOrder
  import opened NonceHeaps

  /** The objects are exactly those the map gives, each under its own nonce. */
  ghost predicate Paired(nodes: map<nat, NonceWithTTL>, objs: set<NonceWithTTL>) {
    && (forall n {:trigger nodes[n]} | n in nodes :: nodes[n].nonce == n && nodes[n] in objs)
    && (forall o | o in objs :: o.nonce in nodes && nodes[o.nonce] == o)
  }

  lemma PairedAdd(nodes: map<nat, NonceWithTTL>, objs: set<NonceWithTTL>, o: NonceWithTTL)
    requires Paired(nodes, objs) && o.nonce !in nodes
    ensures o !in objs && Paired(nodes[o.nonce := o], objs + {o})
  {
  }

  lemma PairedRemove(nodes: map<nat, NonceWithTTL>, objs: set<NonceWithTTL>, o: NonceWithTTL)
    requires Paired(nodes, objs) && o in objs
    ensures Paired(nodes - {o.nonce}, objs - {o})
  {
  }

  ghost function NoncesIn(objs: set<NonceWithTTL>): set<nat> {
    set o | o in objs :: o.nonce
  }

  ghost predicate DistinctNonces(s: seq<NonceWithTTL>) {
    forall i, j | 0 <= i < j < |s| :: s[i].nonce != s[j].nonce
  }

  lemma PairedDistinct(nodes: map<nat, NonceWithTTL>, objs: set<NonceWithTTL>, s: seq<NonceWithTTL>)
    requires Paired(nodes, objs) && Distinct(s) && NodesOf(s) <= objs
    ensures DistinctNonces(s)
  {
    forall i, j | 0 <= i < j < |s| ensures s[i].nonce != s[j].nonce {
      assert s[i] in NodesOf(s) && s[j] in NodesOf(s);
    }
  }

  /** Dropping some objects together with their nonces leaves the rest paired. */
  lemma PairedSplit(nodes: map<nat, NonceWithTTL>, objs: set<NonceWithTTL>, live: set<NonceWithTTL>,
                    gone: set<NonceWithTTL>)
    requires Paired(nodes, objs) && live !! gone && live + gone == objs
    ensures Paired(nodes - NoncesIn(gone), live)
    ensures forall n | n in nodes :: n in NoncesIn(gone) <==> nodes[n] in gone
  {
    forall n | n in nodes ensures n in NoncesIn(gone) <==> nodes[n] in gone {
      assert nodes[n] in objs;
    }
  }

  predicate Stale(o: NonceWithTTL, bound: nat, now: int)
    reads o
  {
    now > o.deadline && o.nonce > bound
  }

  ghost predicate Distinct(s: seq<NonceWithTTL>) {
    forall i, j | 0 <= i < j < |s| :: s[i] != s[j]
  }

  /** Overwriting slot i with the last object and dropping the last slot removes one object. */
  lemma OverwriteRemoves(s: seq<NonceWithTTL>, i: nat)
    requires i < |s| && Distinct(s)
    ensures
      var r := s[i := s[|s| - 1]][..|s| - 1];
      Distinct(r) && NodesOf(r) == NodesOf(s) - {s[i]}
  {
    var n := |s| - 1;
    var r := s[i := s[n]][..n];
    forall o | o in s && o != s[i] ensures o in r {
      var k :| 0 <= k < |s| && s[k] == o;
      assert r[if k == n then i else k] == o;
    }
  }

  /** The compaction loop of cleanTimeout: stale objects are overwritten by the last one. */
  method Sweep(slots: seq<NonceWithTTL>, bound: nat, now: int)
    returns (live: seq<NonceWithTTL>, gone: seq<NonceWithTTL>)
    requires Distinct(slots)
    ensures Distinct(live) && Distinct(gone)
    ensures NodesOf(live) !! NodesOf(gone) && NodesOf(live) + NodesOf(gone) == NodesOf(slots)
    ensures forall o | o in live :: !Stale(o, bound, now)
    ensures forall o | o in gone :: Stale(o, bound, now)
  {
    live, gone := slots, [];
    var i := 0;
    while i < |live|
      invariant 0 <= i <= |live|
      invariant Distinct(live) && Distinct(gone)
      invariant NodesOf(live) !! NodesOf(gone) && NodesOf(live) + NodesOf(gone) == NodesOf(slots)
      invariant forall k | 0 <= k < i :: !Stale(live[k], bound, now)
      invariant forall o | o in gone :: Stale(o, bound, now)
      decreases |live| - i
    {
      if Stale(live[i], bound, now) {
        OverwriteRemoves(live, i);
        assert live[i] in NodesOf(live);
        gone := gone + [live[i]];
        live := live[i := live[|live| - 1]][..|live| - 1];
      } else {
        i := i + 1;
      }
    }
  }

  class NonceIndex {
    const asc: NonceHeap
    const desc: NonceHeap
    /** The object that stands for each queued nonce. */
    ghost var nodes: map<nat, NonceWithTTL>
    /** The deadline of each queued nonce. */
    ghost var deadlines: map<nat, int>

    /** Both heaps are in order and hold the same objects at the recorded positions. */
    ghost predicate HeapsOk()
      reads asc, desc, asc.members`ascIdx, desc.members`descIdx
    {
      match (asc.ascending, desc.ascending)
      case (true, false) =>
        asc.Valid() && desc.Valid() && |asc.slots| == |desc.slots| && asc.members == desc.members
      case _ => false
    }

    /** There is one object for each nonce, and it carries that nonce's deadline. */
    ghost predicate NodesOk()
      reads this, asc, asc.members`deadline
    {
      && Paired(nodes, asc.members)
      && nodes.Keys == deadlines.Keys
      && forall n {:trigger nodes[n]} | n in nodes :: nodes[n].deadline == deadlines[n]
    }

    ghost predicate Valid()
      reads this, asc, desc, asc.members, desc.members
    {
      match (asc.ascending, desc.ascending)
      case (true, false) => HeapsOk() && NodesOk()
      case _ => false
    }

    constructor ()
      ensures Valid() && deadlines == map[] && fresh(asc) && fresh(desc)
      ensures asc.slots == []
    {
      asc := new NonceHeap(true);
      desc := new NonceHeap(false);
      nodes, deadlines := map[], map[];
    }

    lemma MemberNonce(i: nat)
      requires Valid() && i < |asc.slots|
      ensures asc.slots[i].nonce in deadlines
    {
      assert asc.slots[i] in asc.members;
    }

    /** Every queued nonce sits in exactly one slot. */
    lemma MembersCover()
      requires Valid()
      ensures forall n | n in deadlines :: exists k :: 0 <= k < |asc.slots| && asc.slots[k].nonce == n
      ensures forall i, j | 0 <= i < j < |asc.slots| :: asc.slots[i].nonce != asc.slots[j].nonce
    {
      forall n | n in deadlines ensures exists k :: 0 <= k < |asc.slots| && asc.slots[k].nonce == n {
        assert nodes[n] in asc.members;
        var k :| 0 <= k < |asc.slots| && asc.slots[k] == nodes[n];
      }
      assert Distinct(asc.slots);
      PairedDistinct(nodes, asc.members, asc.slots);
    }

    method PushBoth(o: NonceWithTTL)
      requires HeapsOk() && o !in asc.members
      modifies asc, desc, asc.members`ascIdx, asc.members`descIdx, o`ascIdx, o`descIdx
      ensures HeapsOk() && asc.members == old(asc.members) + {o}
      ensures |asc.slots| == old(|asc.slots|) + 1
    {
      asc.Push(o);
      desc.Push(o);
    }

    /** The heaps are as they should be; the records follow. */
    ghost method Settle(ns: map<nat, NonceWithTTL>, ds: map<nat, int>)
      requires HeapsOk() && Paired(ns, asc.members)
      requires ns.Keys == ds.Keys && forall n {:trigger ns[n]} | n in ns :: ns[n].deadline == ds[n]
      modifies this`nodes, this`deadlines
      ensures Valid() && deadlines == ds
    {
      nodes, deadlines := ns, ds;
    }

    /** One new object goes into both heaps. */
    method Add(nonce: nat, deadline: int)
      requires Valid() && nonce !in deadlines
      modifies this, asc, desc, asc.members`ascIdx, asc.members`descIdx
      ensures Valid()
      ensures deadlines == old(deadlines)[nonce := deadline]
      ensures fresh(asc.members - old(asc.members))
    {
      var o := new NonceWithTTL(nonce, deadline);
      ghost var objs := asc.members;
      PairedAdd(nodes, objs, o);
      PushBoth(o);
      Settle(nodes[nonce := o], deadlines[nonce := deadline]);
    }

    /** The object of a nonce is found in the ascending heap and gets a new deadline. */
    method Restamp(nonce: nat, deadline: int)
      requires Valid() && nonce in deadlines
      modifies this`deadlines, asc.members`deadline
      ensures Valid()
      ensures deadlines == old(deadlines)[nonce := deadline]
    {
      var i := 0;
      assert nodes[nonce] in asc.slots;
      ghost var at :| 0 <= at < |asc.slots| && asc.slots[at] == nodes[nonce];
      while i < |asc.slots| && asc.slots[i].nonce != nonce
        invariant i <= at
      {
        i := i + 1;
      }
      assert asc.slots[i] in asc.members;
      asc.slots[i].deadline := deadline;
      deadlines := deadlines[nonce := deadline];
    }

    /** The root of one heap leaves both: `heap.Pop` on one, `heap.Remove` on the other. */
    method PopBoth(smallest: bool) returns (x: NonceWithTTL)
      requires HeapsOk() && |asc.slots| > 0
      modifies asc, desc, asc.members`ascIdx, asc.members`descIdx
      ensures HeapsOk() && x in old(asc.members) && asc.members == old(asc.members) - {x}
      ensures |asc.slots| == old(|asc.slots|) - 1
      ensures forall o | o in old(asc.members) :: if smallest then x.nonce <= o.nonce else o.nonce <= x.nonce
    {
      if smallest {
        RootIsExtreme(asc);
        x := asc.Remove(0);
        assert x in desc.members;
        var _ := desc.Remove(x.descIdx);
      } else {
        RootIsExtreme(desc);
        x := desc.Remove(0);
        assert x in asc.members;
        var _ := asc.Remove(x.ascIdx);
      }
    }

    /** The nonce at the root of the ascending heap. */
    method PeekSmallest() returns (empty: bool, nonce: nat)
      requires Valid()
      ensures empty <==> deadlines == map[]
      ensures !empty ==> nonce in deadlines && forall n | n in deadlines :: nonce <= n
    {
      empty, nonce := |asc.slots| == 0, 0;
      if empty {
        assert forall n | n in deadlines :: nodes[n] in asc.members;
      } else {
        nonce := asc.slots[0].nonce;
        assert asc.slots[0] in asc.members;
        RootIsExtreme(asc);
        assert forall n | n in deadlines :: nodes[n] in asc.members;
      }
    }

    method Pop(smallest: bool) returns (nonce: nat)
      requires Valid() && deadlines != map[]
      modifies this, asc, desc, asc.members`ascIdx, asc.members`descIdx
      ensures Valid() && asc.members <= old(asc.members)
      ensures nonce in old(deadlines) && deadlines == old(deadlines) - {nonce}
      ensures forall n | n in old(deadlines) :: if smallest then nonce <= n else n <= nonce
    {
      ghost var n :| n in deadlines;
      assert nodes[n] in asc.slots;
      ghost var objs := asc.members;
      var x := PopBoth(smallest);
      nonce := x.nonce;
      PairedRemove(nodes, objs, x);
      Settle(nodes - {nonce}, deadlines - {nonce});
    }

    /** Both heaps are refilled with the same objects, which are renumbered and re-sifted. */
    method Rebuild(live: seq<NonceWithTTL>)
      requires asc.ascending && !desc.ascending && Distinct(live)
      modifies asc, desc, live`ascIdx, live`descIdx
      ensures HeapsOk() && asc.members == NodesOf(live)
    {
      asc.slots, desc.slots := live, live;
      asc.members, desc.members := NodesOf(live), NodesOf(live);
      var i := 0;
      while i < |live|
        invariant i <= |live| && asc.slots == live && desc.slots == live
        invariant asc.members == NodesOf(live) && desc.members == NodesOf(live)
        invariant forall k | 0 <= k < i :: live[k].ascIdx == k && live[k].descIdx == k
      {
        live[i].ascIdx, live[i].descIdx := i, i;
        i := i + 1;
      }
      asc.Init();
      desc.Init();
    }

    /** cleanTimeout's work on the heaps: exactly the expired nonces above the bound go. */
    method Compact(bound: nat, now: int) returns (gone: seq<NonceWithTTL>)
      requires Valid()
      modifies this, asc, desc, asc.members`ascIdx, asc.members`descIdx
      ensures Valid() && asc.members <= old(asc.members)
      ensures DistinctNonces(gone) && NoncesIn(NodesOf(gone)) <= old(deadlines).Keys
      ensures deadlines == old(deadlines) - NoncesIn(NodesOf(gone))
      ensures forall n | n in old(deadlines) ::
                n in NoncesIn(NodesOf(gone)) <==> n > bound && now > old(deadlines)[n]
    {
      var live;
      live, gone := Separate(bound, now);
      Rebuild(live);
      ghost var ns := NoncesIn(NodesOf(gone));
      Settle(nodes - ns, deadlines - ns);
    }

    method Separate(bound: nat, now: int) returns (live: seq<NonceWithTTL>, gone: seq<NonceWithTTL>)
      requires Valid()
      ensures NodesOf(live) <= asc.members && Distinct(live) && DistinctNonces(gone)
      ensures NoncesIn(NodesOf(gone)) <= deadlines.Keys
      ensures Paired(nodes - NoncesIn(NodesOf(gone)), NodesOf(live))
      ensures forall n | n in deadlines :: n in NoncesIn(NodesOf(gone)) <==> n > bound && now > deadlines[n]
    {
      live, gone := Sweep(asc.slots, bound, now);
      PairedSplit(nodes, asc.members, NodesOf(live), NodesOf(gone));
      PairedDistinct(nodes, asc.members, gone);
      assert forall n | n in deadlines :: n in NoncesIn(NodesOf(gone)) <==> Stale(nodes[n], bound, now);
    }

    method Clear()
      requires asc.ascending && !desc.ascending
      modifies this, asc, desc
      ensures Valid() && deadlines == map[] && asc.slots == []
    {
      asc.slots, desc.slots := [], [];
      asc.members, desc.members := {}, {};
      nodes, deadlines := map[], map[];
    }
  }

  /** No heap holds anything smaller, respectively larger, than its root. */
  lemma RootIsExtreme(h: NonceHeap)
    requires h.Valid() && |h.slots| > 0
    ensures forall o | o in h.members ::
              if h.ascending then h.slots[0].nonce <= o.nonce else o.nonce <= h.slots[0].nonce
  {
    forall o | o in h.members
      ensures if h.ascending then h.slots[0].nonce <= o.nonce else o.nonce <= h.slots[0].nonce
    {
      var i :| 0 <= i < |h.slots| && h.slots[i] == o;
      RootIsLeast(h.Keys(), i);
    }
  }
}
