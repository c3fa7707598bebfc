/**
 What is pushed when the chain moves from one block to another: getCommonAncestor walks both
 blocks back through the stored headers until they meet. Where the program ends itself because a
 header is missing, nothing is returned.
 */
module CommonAncestors {
  import opened Actions

  /** A block as the notifications describe it. */
  datatype Ctx = Ctx(number: nat, hash: Hash, parentHash: Hash, timestamp: nat)

  /** The stored chain, genesis first. */
  type Store = seq<Ctx>

  /** Each stored block has the one before it as its parent; the parent of the first is not stored. */
  ghost predicate Linear(store: Store) {
    && (forall i {:trigger store[i]} | 0 <= i < |store| :: store[i].number == i && store[i].hash != store[0].parentHash)
    && (forall i, j {:trigger store[i], store[j]} | 0 <= i < |store| && j == i + 1 && j < |store| ::
          store[j].parentHash == store[i].hash)
    && forall i, j {:trigger store[i], store[j]} | 0 <= i < j < |store| :: store[i].hash != store[j].hash
  }

  ghost predicate Stored(store: Store, c: Ctx) {
    c.number < |store| && store[c.number] == c
  }

  /** dao.Header and dao.GetBlockHash: the stored block with the hash. */
  function Find(store: Store, h: Hash): (r: Option<Ctx>)
    ensures r.None? ==> forall i | 0 <= i < |store| :: store[i].hash != h
    ensures r.Some? ==> r.value.hash == h && exists i :: 0 <= i < |store| && store[i] == r.value
  {
    if store == [] then None
    else if store[|store| - 1].hash == h then Some(store[|store| - 1])
    else Find(store[..|store| - 1], h)
  }

  function Parent(store: Store, c: Ctx): Option<Ctx> {
    Find(store, c.parentHash)
  }

  /** How many steps back there can be. */
  ghost function Depth(store: Store, c: Ctx): nat {
    if Stored(store, c) then c.number else |store|
  }

  lemma ParentIsDeeper(store: Store, c: Ctx)
    requires Linear(store)
    ensures
      match Parent(store, c)
      case None => Stored(store, c) ==> c.number == 0
      case Some(p) =>
        && Stored(store, p) && Depth(store, p) < Depth(store, c)
        && (Stored(store, c) ==> p.number + 1 == c.number)
  {
    if Stored(store, c) && c.number > 0 {
      assert store[c.number - 1].hash == c.parentHash;
    }
    if Parent(store, c).Some? {
      var i :| 0 <= i < |store| && store[i] == Parent(store, c).value;
      if Stored(store, c) {
        assert c.number != 0;
        assert store[c.number - 1].hash == store[i].hash;
      }
    }
  }

  /** The common ancestor, and the ways from it to the two blocks. */
  datatype Walk = Walk(ancestor: Ctx, dropBlocks: seq<Ctx>, newBlocks: seq<Ctx>)

  /** The walk goes on from its end to later blocks. */
  function StepBack(w: Option<Walk>, dropBlocks: seq<Ctx>, newBlocks: seq<Ctx>): Option<Walk> {
    match w
    case None => None
    case Some(v) => Some(Walk(v.ancestor, v.dropBlocks + dropBlocks, v.newBlocks + newBlocks))
  }

  /** The first loop: from `b` back to the height `n`, or below. */
  function Descend(store: Store, b: Ctx, n: nat): Option<Walk>
    requires Linear(store)
    decreases Depth(store, b)
  {
    if b.number <= n then Some(Walk(b, [], []))
    else
      ParentIsDeeper(store, b);
      match Parent(store, b)
      case None => None
      case Some(p) =>
        StepBack(Descend(store, p, n), [], [b])
  }

  /** The second loop: both blocks go back together until they are the same. */
  function Meet(store: Store, a: Ctx, b: Ctx): Option<Walk>
    requires Linear(store)
    decreases Depth(store, a)
  {
    if a.hash == b.hash then Some(Walk(a, [], []))
    else
      ParentIsDeeper(store, a);
      match (Parent(store, a), Parent(store, b))
      case (Some(pa), Some(pb)) => StepBack(Meet(store, pa, pb), [a], [b])
      case (_, _) => None
  }

  /** Both loops, without the shortcut for a child of `a`. */
  function WalkBack(store: Store, a: Ctx, b: Ctx): Option<Walk>
    requires Linear(store)
  {
    match Descend(store, b, a.number)
    case None => None
    case Some(d) => StepBack(Meet(store, a, d.ancestor), [], d.newBlocks)
  }

  /** getCommonAncestor */
  function Ancestor(store: Store, a: Ctx, b: Ctx): Option<Walk>
    requires Linear(store)
  {
    if b.parentHash == a.hash then Some(Walk(a, [], [b])) else WalkBack(store, a, b)
  }

  // ---------- the loops ----------

  function Reversed(s: seq<Ctx>): (r: seq<Ctx>)
    ensures |r| == |s| && forall i :: 0 <= i < |s| ==> r[i] == s[|s| - 1 - i]
  {
    if s == [] then [] else Reversed(s[1..]) + [s[0]]
  }

  lemma ReversedExtends(s: seq<Ctx>, c: Ctx)
    ensures Reversed(s + [c]) == [c] + Reversed(s)
  {
  }

  lemma StepBackTwice(w: Option<Walk>, d1: seq<Ctx>, n1: seq<Ctx>, d2: seq<Ctx>, n2: seq<Ctx>)
    ensures StepBack(StepBack(w, d1, n1), d2, n2) == StepBack(w, d1 + d2, n1 + n2)
  {
    if w.Some? {
      var v := w.value;
      assert v.dropBlocks + d1 + d2 == v.dropBlocks + (d1 + d2) && v.newBlocks + n1 + n2 == v.newBlocks + (n1 + n2);
    }
  }

  lemma NoStep(w: Option<Walk>)
    ensures StepBack(w, [], []) == w
  {
    if w.Some? {
      assert w.value.dropBlocks + [] == w.value.dropBlocks && w.value.newBlocks + [] == w.value.newBlocks;
    }
  }

  method GetCommonAncestor(store: Store, blocka: Ctx, blockb: Ctx) returns (r: Option<Walk>)
    requires Linear(store)
    ensures r == Ancestor(store, blocka, blockb)
  {
    if blockb.parentHash == blocka.hash {
      return Some(Walk(blocka, [], [blockb]));
    }
    var b, chainB := blockb, [];
    NoStep(Descend(store, b, blocka.number));
    while b.number > blocka.number
      invariant StepBack(Descend(store, b, blocka.number), [], Reversed(chainB)) ==
                Descend(store, blockb, blocka.number)
      decreases Depth(store, b)
    {
      ParentIsDeeper(store, b);
      var p := Parent(store, b);
      if p.None? {
        return None;
      }
      ReversedExtends(chainB, b);
      ghost var none: seq<Ctx> := [];
      StepBackTwice(Descend(store, p.value, blocka.number), none, [b], none, Reversed(chainB));
      assert none + none == none;
      chainB := chainB + [b];
      b := p.value;
    }
    r := MeetBoth(store, blocka, b, chainB);
    ghost var none: seq<Ctx> := [];
    assert none + none == none && none + Reversed(chainB) == Reversed(chainB);
    assert Descend(store, blockb, blocka.number) == Some(Walk(b, none, Reversed(chainB)));
  }

  method MeetBoth(store: Store, blocka: Ctx, blockb: Ctx, chain: seq<Ctx>) returns (r: Option<Walk>)
    requires Linear(store)
    ensures r == StepBack(Meet(store, blocka, blockb), [], Reversed(chain))
  {
    var a, b, chainA, chainB := blocka, blockb, [], chain;
    while a.hash != b.hash
      invariant StepBack(Meet(store, a, b), Reversed(chainA), Reversed(chainB)) ==
                StepBack(Meet(store, blocka, blockb), [], Reversed(chain))
      decreases Depth(store, a)
    {
      ParentIsDeeper(store, a);
      var pa, pb := Parent(store, a), Parent(store, b);
      if pa.None? || pb.None? {
        return None;
      }
      ReversedExtends(chainA, a);
      ReversedExtends(chainB, b);
      StepBackTwice(Meet(store, pa.value, pb.value), [a], [b], Reversed(chainA), Reversed(chainB));
      chainA, chainB := chainA + [a], chainB + [b];
      a, b := pa.value, pb.value;
    }
    r := Some(Walk(a, Reversed(chainA), Reversed(chainB)));
    assert [] + Reversed(chainA) == Reversed(chainA) && [] + Reversed(chainB) == Reversed(chainB);
  }

  // ---------- what the answer means, for any two blocks ----------

  /** `s` leads, parent by parent, from the block with hash `from` to `to`. */
  ghost predicate Leads(from: Hash, s: seq<Ctx>, to: Ctx) {
    if s == [] then from == to.hash
    else s[|s| - 1] == to && s[0].parentHash == from && Linked(s)
  }

  ghost predicate Linked(s: seq<Ctx>) {
    forall i, j {:trigger s[i], s[j]} | 0 <= i < |s| && j == i + 1 && j < |s| :: s[j].parentHash == s[i].hash
  }

  lemma LeadsFurther(from: Hash, s: seq<Ctx>, p: Ctx, c: Ctx)
    requires Leads(from, s, p) && c.parentHash == p.hash
    ensures Leads(from, s + [c], c)
  {
  }

  lemma {:induction false} DescendLeads(store: Store, b: Ctx, n: nat)
    requires Linear(store)
    ensures
      match Descend(store, b, n)
      case Some(w) =>
        Leads(w.ancestor.hash, w.newBlocks, b) && w.dropBlocks == [] && (w.newBlocks == [] ==> w.ancestor == b)
      case None => true
    decreases Depth(store, b)
  {
    if b.number > n && Parent(store, b).Some? {
      ParentIsDeeper(store, b);
      var p := Parent(store, b).value;
      DescendLeads(store, p, n);
      if Descend(store, p, n).Some? {
        var w := Descend(store, p, n).value;
        LeadsFurther(w.ancestor.hash, w.newBlocks, p, b);
      }
    }
  }

  lemma {:induction false} MeetLeads(store: Store, a: Ctx, b: Ctx)
    requires Linear(store)
    ensures
      match Meet(store, a, b)
      case Some(w) => Leads(w.ancestor.hash, w.dropBlocks, a) && Leads(w.ancestor.hash, w.newBlocks, b)
      case None => true
    decreases Depth(store, a)
  {
    if a.hash != b.hash && Parent(store, a).Some? && Parent(store, b).Some? {
      ParentIsDeeper(store, a);
      var pa, pb := Parent(store, a).value, Parent(store, b).value;
      MeetLeads(store, pa, pb);
      if Meet(store, pa, pb).Some? {
        var w := Meet(store, pa, pb).value;
        LeadsFurther(w.ancestor.hash, w.dropBlocks, pa, a);
        LeadsFurther(w.ancestor.hash, w.newBlocks, pb, b);
      }
    }
  }

  lemma LeadsOn(from: Hash, s: seq<Ctx>, p: Ctx, t: seq<Ctx>, c: Ctx)
    requires Leads(from, s, p) && Leads(p.hash, t, c) && (t == [] ==> p == c)
    ensures Leads(from, s + t, c)
  {
    if t == [] {
      assert s + t == s;
    } else {
      assert (s + t)[|s + t| - 1] == t[|t| - 1];
    }
  }

  /** Whatever the two blocks are: an answer is a way down from one and a way up to the other. */
  lemma AnswerLeads(store: Store, a: Ctx, b: Ctx)
    requires Linear(store) && Ancestor(store, a, b).Some?
    ensures
      var w := Ancestor(store, a, b).value;
      Leads(w.ancestor.hash, w.dropBlocks, a) && Leads(w.ancestor.hash, w.newBlocks, b)
  {
    if b.parentHash != a.hash {
      DescendLeads(store, b, a.number);
      var d := Descend(store, b, a.number).value;
      MeetLeads(store, a, d.ancestor);
      var m := Meet(store, a, d.ancestor).value;
      LeadsOn(m.ancestor.hash, m.newBlocks, d.ancestor, d.newBlocks, b);
      assert m.dropBlocks + [] == m.dropBlocks;
    }
  }

  // ---------- when there is an answer ----------

  /** Where the first loop ends: at the height `n`, or at the parent of `b` if that is lower already. */
  function Cursor(store: Store, b: Ctx, n: nat): Option<Ctx>
    requires Linear(store)
  {
    if b.number <= n then Some(b)
    else
      match Parent(store, b)
      case None => None
      case Some(p) =>
        ParentIsDeeper(store, b);
        Some(store[if p.number < n then p.number else n])
  }

  /** Two blocks have an ancestor in common if they are one, or if their parents are equally high. */
  predicate SameHeightParents(store: Store, a: Ctx, b: Ctx) {
    Parent(store, a).Some? && Parent(store, b).Some? && Parent(store, a).value.number == Parent(store, b).value.number
  }

  lemma {:induction false} DescendEnds(store: Store, b: Ctx, n: nat)
    requires Linear(store)
    ensures Descend(store, b, n).None? <==> Cursor(store, b, n).None?
    ensures Descend(store, b, n).Some? ==> Descend(store, b, n).value.ancestor == Cursor(store, b, n).value
    decreases Depth(store, b)
  {
    if b.number > n && Parent(store, b).Some? {
      ParentIsDeeper(store, b);
      var p := Parent(store, b).value;
      DescendEnds(store, p, n);
      if p.number > n {
        ParentIsDeeper(store, p);
      }
    }
  }

  lemma {:induction false} StoredMeet(store: Store, a: Ctx, b: Ctx)
    requires Linear(store) && Stored(store, a) && Stored(store, b)
    ensures Meet(store, a, b).Some? <==> a.number == b.number
    ensures a == b ==> Meet(store, a, b) == Some(Walk(a, [], []))
    decreases Depth(store, a)
  {
    if a.hash != b.hash {
      ParentIsDeeper(store, a);
      ParentIsDeeper(store, b);
      if Parent(store, a).Some? && Parent(store, b).Some? {
        StoredMeet(store, Parent(store, a).value, Parent(store, b).value);
      }
    }
  }

  /** For any two blocks: the walk ends with an answer, and not with a missing header, exactly then. */
  lemma WalkSucceeds(store: Store, a: Ctx, b: Ctx)
    requires Linear(store)
    ensures
      var c := Cursor(store, b, a.number);
      WalkBack(store, a, b).Some? <==> c.Some? && (a.hash == c.value.hash || SameHeightParents(store, a, c.value))
  {
    DescendEnds(store, b, a.number);
    if Cursor(store, b, a.number).Some? {
      var c := Cursor(store, b, a.number).value;
      if a.hash != c.hash && Parent(store, a).Some? && Parent(store, c).Some? {
        ParentIsDeeper(store, a);
        ParentIsDeeper(store, c);
        StoredMeet(store, Parent(store, a).value, Parent(store, c).value);
      }
    }
  }

  // ---------- blocks on the chain, or right beside it ----------

  /** The block is stored, or its parent is the stored block below its height. */
  ghost predicate Attached(store: Store, c: Ctx) {
    || Stored(store, c)
    || (0 < c.number <= |store| && c.parentHash == store[c.number - 1].hash && Find(store, c.hash).None?)
  }

  /** The highest stored block that `a` and `b` both come after, or are. */
  ghost function Fork(store: Store, a: Ctx, b: Ctx): nat
    requires Attached(store, a) && Attached(store, b) && a.number <= b.number && a != b
  {
    if Stored(store, a) && a.number < b.number then a.number else a.number - 1
  }

  lemma AttachedParent(store: Store, c: Ctx)
    requires Linear(store) && Attached(store, c) && c.number > 0
    ensures c.number - 1 < |store| && Parent(store, c) == Some(store[c.number - 1])
  {
    ParentIsDeeper(store, c);
    var p := store[c.number - 1];
    assert p.hash == c.parentHash;
    var i :| 0 <= i < |store| && store[i] == Parent(store, c).value;
  }

  lemma {:induction false} DescendAttached(store: Store, b: Ctx, n: nat)
    requires Linear(store) && Attached(store, b) && n < b.number
    ensures Descend(store, b, n) == Some(Walk(store[n], [], store[n + 1..b.number] + [b]))
    decreases Depth(store, b)
  {
    AttachedParent(store, b);
    ParentIsDeeper(store, b);
    var p := store[b.number - 1];
    if n < p.number {
      DescendAttached(store, p, n);
      assert store[n + 1..p.number] + [p] == store[n + 1..b.number];
    } else {
      var none: seq<Ctx> := [];
      assert store[n + 1..b.number] == none && none + [b] == [b] && none + none == none;
    }
  }

  /**
   With both blocks on the chain or beside it, the new blocks are the stored ones after the fork
   and `b`; at most `a` is dropped.
   */
  lemma AttachedAnswer(store: Store, a: Ctx, b: Ctx)
    requires Linear(store) && Attached(store, a) && Attached(store, b) && a.number <= b.number && a.hash != b.hash
    ensures
      var f := Fork(store, a, b);
      WalkBack(store, a, b) ==
      Some(Walk(store[f], if f == a.number then [] else [a], store[f + 1..b.number] + [b]))
  {
    var f := Fork(store, a, b);
    if a.number < b.number {
      DescendAttached(store, b, a.number);
      var c := store[a.number];
      if Stored(store, a) {
        assert [] + (store[f + 1..b.number] + [b]) == store[f + 1..b.number] + [b];
      } else {
        OneStepApart(store, a, c);
        assert [c] + (store[a.number + 1..b.number] + [b]) == store[f + 1..b.number] + [b];
        assert [a] + [] == [a];
      }
    } else {
      OneStepApart(store, a, b);
      NoStep(Meet(store, a, b));
      assert store[f + 1..b.number] + [b] == [b];
    }
  }

  /** Two blocks of one height, not both stored: they meet at their parents. */
  lemma OneStepApart(store: Store, a: Ctx, b: Ctx)
    requires Linear(store) && Attached(store, a) && Attached(store, b) && a.number == b.number && a.hash != b.hash
    ensures a.number > 0 && Meet(store, a, b) == Some(Walk(store[a.number - 1], [a], [b]))
  {
    assert a.number > 0;
    AttachedParent(store, a);
    AttachedParent(store, b);
    var p := store[a.number - 1];
    assert Meet(store, p, p) == Some(Walk(p, [], []));
    assert [] + [a] == [a] && [] + [b] == [b];
  }

  /** The shortcut for a child of a stored block agrees with the walk. */
  lemma ShortcutAgrees(store: Store, a: Ctx, b: Ctx)
    requires Linear(store) && Stored(store, a) && Attached(store, b) && b.parentHash == a.hash && b.number > 0
    ensures Ancestor(store, a, b) == WalkBack(store, a, b)
  {
    AttachedParent(store, b);
    assert store[b.number - 1].hash == store[a.number].hash;
    assert b.number == a.number + 1;
    assert b.hash != a.hash;
    AttachedAnswer(store, a, b);
    assert store[a.number + 1..b.number] + [b] == [b];
  }

  // ---------- pushBlockChange ----------

  datatype Change = Change(changeType: nat, newBlocks: seq<Ctx>, dropBlocks: seq<Ctx>)

  datatype Outcome = Quiet | Push(change: Change) | Fatal

  /** The block as it is pushed: right after the last pushed block, that one is named as its parent. */
  function Pushed(last: Ctx, blk: Ctx): Ctx {
    if blk.number == last.number + 1 then blk.(parentHash := last.hash) else blk
  }

  /** pushBlockChange; `blk` carries the parent hash of its own header. */
  function PushBlockChange(store: Store, lastPushed: Option<Ctx>, blk: Ctx): Outcome
    requires Linear(store)
  {
    if lastPushed.None? || lastPushed.value.number > blk.number then Quiet
    else
      match Ancestor(store, lastPushed.value, Pushed(lastPushed.value, blk))
      case None => Fatal
      case Some(w) =>
        if w.dropBlocks != [] then Push(Change(2, w.newBlocks, w.dropBlocks))
        else if w.newBlocks != [] then Push(Change(1, w.newBlocks, []))
        else Quiet
  }

  /** What a consumer makes of a notification: the dropped blocks go, the new ones follow. */
  function Consume(chain: seq<Ctx>, c: Change): seq<Ctx>
    requires |c.dropBlocks| <= |chain|
  {
    chain[..|chain| - |c.dropBlocks|] + c.newBlocks
  }

  /** The consumer's chain: parent-linked, and it ends with the block that was pushed last. */
  ghost predicate EndsWith(chain: seq<Ctx>, c: Ctx) {
    chain != [] && Linked(chain) && chain[|chain| - 1] == c
  }

  /** The notification fits a consumer at `a` and takes it to `b`. */
  ghost predicate Takes(chain: seq<Ctx>, c: Change, b: Ctx) {
    && |c.dropBlocks| <= |chain| && chain[|chain| - |c.dropBlocks|..] == c.dropBlocks
    && EndsWith(Consume(chain, c), b)
  }

  lemma AnswerTakes(chain: seq<Ctx>, a: Ctx, from: Hash, c: Change, b: Ctx)
    requires EndsWith(chain, a) && Leads(from, c.dropBlocks, a) && Leads(from, c.newBlocks, b)
    requires (c.dropBlocks == [] || c.dropBlocks == [a]) && c.newBlocks != []
    ensures Takes(chain, c, b)
  {
    var kept := chain[..|chain| - |c.dropBlocks|];
    assert kept != [] ==> kept[|kept| - 1].hash == from;
    var r := kept + c.newBlocks;
    assert r[|r| - 1] == b;
  }

  lemma PushOf(store: Store, last: Ctx, blk: Ctx, w: Walk) returns (c: Change)
    requires Linear(store) && last.number <= blk.number
    requires Ancestor(store, last, Pushed(last, blk)) == Some(w) && w.newBlocks != []
    ensures PushBlockChange(store, Some(last), blk) == Push(c) && c.newBlocks == w.newBlocks &&
            c.dropBlocks == w.dropBlocks
  {
    c := Change(if w.dropBlocks != [] then 2 else 1, w.newBlocks, w.dropBlocks);
  }

  /**
   Whatever the two blocks are. A notification of type 2 drops blocks, one of type 1 does not, and there
   is no third; both ways start at one block, and the new one ends with the block that is pushed. Nothing
   is said before the first block, for a lower block, or for the same one again.
   */
  lemma PushMeans(store: Store, lastPushed: Option<Ctx>, blk: Ctx)
    requires Linear(store)
    ensures lastPushed.None? || lastPushed.value.number > blk.number ==>
              PushBlockChange(store, lastPushed, blk) == Quiet
    ensures
      match PushBlockChange(store, lastPushed, blk)
      case Quiet => lastPushed.None? || lastPushed.value.number > blk.number || lastPushed.value.hash == blk.hash
      case Fatal => lastPushed.Some? && WalkBack(store, lastPushed.value, Pushed(lastPushed.value, blk)).None?
      case Push(c) =>
        && lastPushed.Some? && lastPushed.value.number <= blk.number
        && (if c.dropBlocks != [] then c.changeType == 2 else c.changeType == 1 && c.newBlocks != [])
        && (exists from ::
              Leads(from, c.dropBlocks, lastPushed.value) && Leads(from, c.newBlocks, Pushed(lastPushed.value, blk)))
        && (c.newBlocks != [] ==>
              var e := c.newBlocks[|c.newBlocks| - 1];
              && e.number == blk.number && e.hash == blk.hash && e.timestamp == blk.timestamp
              && e.parentHash ==
                 if blk.number == lastPushed.value.number + 1 then lastPushed.value.hash else blk.parentHash)
  {
    if lastPushed.Some? && lastPushed.value.number <= blk.number {
      var last, b := lastPushed.value, Pushed(lastPushed.value, blk);
      if Ancestor(store, last, b).Some? {
        AnswerLeads(store, last, b);
      }
    }
  }

  /**
   A consumer who is at the last pushed block is, after the notification, at the new block; the
   dropped blocks were its last ones. There is a notification unless the block is the same one; a
   hash stands for one block only.
   */
  lemma ConsumerFollows(store: Store, last: Ctx, blk: Ctx, chain: seq<Ctx>)
    requires Linear(store) && Attached(store, last) && Attached(store, blk) && last.number <= blk.number
    requires EndsWith(chain, last) && (last.hash == blk.hash ==> last == blk)
    ensures
      match PushBlockChange(store, Some(last), blk)
      case Fatal => false
      case Quiet => last == blk
      case Push(c) => Takes(chain, c, Pushed(last, blk))
  {
    var b := Pushed(last, blk);
    if b.parentHash == last.hash {
      var c := PushOf(store, last, blk, Walk(last, [], [b]));
      AnswerTakes(chain, last, last.hash, c, b);
    } else if last == blk {
      NoStep(Meet(store, last, blk));
    } else {
      AttachedAnswer(store, last, blk);
      AnswerLeads(store, last, blk);
      var w := Ancestor(store, last, blk).value;
      assert w.newBlocks[|w.newBlocks| - 1] == blk;
      var c := PushOf(store, last, blk, w);
      AnswerTakes(chain, last, w.ancestor.hash, c, blk);
    }
  }

  /**
   A block right after the last pushed one is announced as its child without a look at the header.
   The announced parent is the true one exactly when the header says so, too.
   */
  lemma SequentialPush(store: Store, last: Ctx, blk: Ctx)
    requires Linear(store) && Attached(store, last) && Stored(store, blk) && blk.number == last.number + 1
    ensures PushBlockChange(store, Some(last), blk) == Push(Change(1, [Pushed(last, blk)], []))
    ensures Pushed(last, blk) == blk <==> Stored(store, last)
    ensures !Stored(store, last) ==>
              WalkBack(store, last, blk).Some? && WalkBack(store, last, blk).value.dropBlocks == [last]
  {
    assert store[last.number].hash == blk.parentHash;
    if !Stored(store, last) {
      assert last.hash != store[last.number].hash && last.hash != blk.hash;
      AttachedAnswer(store, last, blk);
    }
  }

  /** The chain has replaced the last pushed block; the next block is announced as the child of the old one. */
  lemma WrongParentIsAnnounced() returns (store: Store, last: Ctx)
    ensures Linear(store) && Attached(store, last) && |store| == 3 && last.number == 1 && last !in store
    ensures PushBlockChange(store, Some(last), store[2]) == Push(Change(1, [Pushed(last, store[2])], []))
    ensures Pushed(last, store[2]).parentHash == last.hash != store[2].parentHash
  {
    store := [Ctx(0, 10, 9, 0), Ctx(1, 11, 10, 0), Ctx(2, 12, 11, 0)];
    last := Ctx(1, 21, 10, 0);
    assert forall i {:trigger store[i]} | 0 <= i < |store| :: store[i].number == i && store[i].hash == 10 + i;
    assert Linear(store);
    SequentialPush(store, last, store[2]);
  }
}
