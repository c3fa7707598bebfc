/**
 The order theory behind Go's `container/heap`, stated over the sequence of keys that the
 slots of a heap hold. The three heaps of the action pool (nonces ascending, nonces
 descending, accounts) all run the same sift loops; every step of those loops is justified by
 a lemma of this module.
 */
module HeapOrder {

  /** A key: elements are ordered by tier first and by weight inside one tier. */
  datatype Key = Key(tier: int, weight: int)

  /** The total preorder on keys. */
  predicate Leq(a: Key, b: Key) {
    a.tier < b.tier || (a.tier == b.tier && a.weight <= b.weight)
  }

  /** The parent slot; Go computes (0-1)/2 as 0. */
  function Parent(i: nat): nat {
    if i == 0 then 0 else (i - 1) / 2
  }

  function Swapped<T>(s: seq<T>, i: nat, j: nat): (r: seq<T>)
    requires i < |s| && j < |s|
    ensures |r| == |s|
    ensures forall x | x in r :: x in s
    ensures forall x | x in s :: x in r
  {
    var r := s[i := s[j]][j := s[i]];
    assert forall x :: x in s ==> x in r by {
      forall x | x in s ensures x in r {
        var k :| 0 <= k < |s| && s[k] == x;
        assert r[if k == i then j else if k == j then i else k] == x;
      }
    }
    r
  }

  /** The edge from the parent of c down to c is in order. */
  predicate Edge(ks: seq<Key>, c: nat)
    requires c < |ks|
  {
    Leq(ks[Parent(c)], ks[c])
  }

  /** Heap order of the first n slots, for the edges that start at slot lo or later. */
  predicate HeapFrom(ks: seq<Key>, lo: nat, n: nat)
    requires n <= |ks|
  {
    forall c {:trigger Edge(ks, c)} :: 1 <= c < n && lo <= Parent(c) ==> Edge(ks, c)
  }

  predicate IsHeap(ks: seq<Key>) {
    HeapFrom(ks, 0, |ks|)
  }

  /** The first slots of a heap are in order, too. */
  lemma FewerSlots(ks: seq<Key>, n: nat)
    requires IsHeap(ks) && n <= |ks|
    ensures HeapFrom(ks, 0, n)
  {
  }

  /** In order except for the edges that touch slot i, which may hold any key. */
  predicate LooseAt(ks: seq<Key>, lo: nat, n: nat, i: nat)
    requires n <= |ks|
  {
    && (forall c {:trigger Edge(ks, c)} :: 1 <= c < n && lo <= Parent(c) && c != i && Parent(c) != i ==> Edge(ks, c))
    && BypassOk(ks, lo, n, i)
  }

  /** In order except for the edge into slot i. */
  predicate LooseAbove(ks: seq<Key>, lo: nat, n: nat, i: nat)
    requires n <= |ks|
  {
    && (forall c {:trigger Edge(ks, c)} :: 1 <= c < n && lo <= Parent(c) && c != i ==> Edge(ks, c))
    && BypassOk(ks, lo, n, i)
  }

  /** The children of slot i are in order with the parent of slot i. */
  predicate BypassOk(ks: seq<Key>, lo: nat, n: nat, i: nat)
    requires n <= |ks|
  {
    forall c :: 1 <= c < n && Parent(c) == i && 1 <= i && lo <= Parent(i) ==> Leq(ks[Parent(i)], ks[c])
  }

  /** One iteration of `down`: the key of slot i trades places with its smaller child j. */
  lemma DownStep(ks: seq<Key>, lo: nat, n: nat, i: nat, j: nat)
    requires n <= |ks| && lo <= i && 1 <= j < n && Parent(j) == i
    requires LooseAt(ks, lo, n, i)
    requires forall c :: 1 <= c < n && Parent(c) == i ==> Leq(ks[j], ks[c])
    requires Leq(ks[j], ks[i])
    ensures LooseAt(Swapped(ks, i, j), lo, n, j)
    ensures Edge(Swapped(ks, i, j), j)
  {
    var r := Swapped(ks, i, j);
    assert r[i] == ks[j] && r[j] == ks[i];
    forall c | 1 <= c < n && lo <= Parent(c) && c != j && Parent(c) != j ensures Edge(r, c) {
      if c != i && Parent(c) != i { assert Edge(ks, c); }
    }
    forall c | 1 <= c < n && Parent(c) == j ensures Leq(r[Parent(j)], r[c]) {
      assert Edge(ks, c);
    }
  }

  /** `down` stops at slot i because no child is smaller. */
  lemma DownStop(ks: seq<Key>, lo: nat, n: nat, i: nat)
    requires n <= |ks| && LooseAt(ks, lo, n, i)
    requires forall c :: 1 <= c < n && Parent(c) == i ==> Leq(ks[i], ks[c])
    ensures LooseAbove(ks, lo, n, i)
    ensures 1 <= i < n && Edge(ks, i) ==> HeapFrom(ks, lo, n)
  {
    forall c | 1 <= c < n && lo <= Parent(c) && c != i ensures Edge(ks, c) {
      if Parent(c) == i { assert Leq(ks[i], ks[c]); }
    }
  }

  /** One iteration of `up`: the key of slot j trades places with its parent. */
  lemma UpStep(ks: seq<Key>, n: nat, j: nat)
    requires 1 <= j < n <= |ks|
    requires LooseAbove(ks, 0, n, j)
    requires Leq(ks[j], ks[Parent(j)])
    ensures LooseAbove(Swapped(ks, Parent(j), j), 0, n, Parent(j))
  {
    var i := Parent(j);
    var r := Swapped(ks, i, j);
    assert r[i] == ks[j] && r[j] == ks[i];
    forall c | 1 <= c < n && c != i ensures Edge(r, c) {
      if Parent(c) == j {
        assert Leq(ks[Parent(j)], ks[c]);
      } else if c != j {
        assert Edge(ks, c);
      }
    }
    forall c | 1 <= c < n && Parent(c) == i && 1 <= i ensures Leq(r[Parent(i)], r[c]) {
      assert Edge(ks, i);
      if c != j { assert Edge(ks, c); }
    }
  }

  /** Moving the last key of a heap into slot i leaves only the edges at slot i in doubt. */
  lemma LastIntoSlot(ks: seq<Key>, i: nat)
    requires IsHeap(ks) && i < |ks| - 1
    ensures LooseAt(Swapped(ks, i, |ks| - 1), 0, |ks| - 1, i)
  {
    var n := |ks| - 1;
    var r := Swapped(ks, i, n);
    forall c | 1 <= c < n && c != i && Parent(c) != i ensures Edge(r, c) {
      assert Edge(ks, c);
    }
    forall c | 1 <= c < n && Parent(c) == i && 1 <= i ensures Leq(r[Parent(i)], r[c]) {
      assert Edge(ks, c) && Edge(ks, i);
    }
  }

  /** Any key may be written into slot i of a heap: only the edges at slot i come into doubt. */
  lemma KeyChanged(ks: seq<Key>, i: nat, k: Key)
    requires IsHeap(ks) && i < |ks|
    ensures LooseAt(ks[i := k], 0, |ks|, i)
  {
    var r := ks[i := k];
    forall c | 1 <= c < |ks| && c != i && Parent(c) != i ensures Edge(r, c) {
      assert Edge(ks, c);
    }
    forall c | 1 <= c < |ks| && Parent(c) == i && 1 <= i ensures Leq(r[Parent(i)], r[c]) {
      assert Edge(ks, c) && Edge(ks, i);
    }
  }

  /** The root of a heap holds a least key. */
  lemma {:induction false} RootIsLeast(ks: seq<Key>, i: nat)
    requires IsHeap(ks) && i < |ks|
    ensures Leq(ks[0], ks[i])
  {
    if i != 0 {
      RootIsLeast(ks, Parent(i));
      assert Edge(ks, i);
    }
  }
}
