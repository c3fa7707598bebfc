/**
 What the syncer's definitions come to, said of the arrivals and the chain's answers alone: which block
 is committed and whose peers are blocked, what height is aimed for, and where everything that the
 syncer holds has come from.
 */
module SyncRules {
  import opened Actions
  import opened BlockBuffers
  import opened BlockSyncs

  // ---------- commitBlocks ----------

  /** The block at place `k` is the first that the chain accepts; if there is none, `k` is behind the last. */
  ghost predicate FirstAt(answers: Answers, log: seq<Block>, blks: seq<PeerBlock>, k: nat) {
    && k <= |blks| && (forall j :: 0 <= j < k ==> answers(log, blks[j].block) != Committed)
    && (k < |blks| ==> answers(log, blks[k].block) == Committed)
  }

  /** Accepted is the first block that the chain accepts. */
  lemma {:induction false} AcceptedIsFirst(answers: Answers, log: seq<Block>, blks: seq<PeerBlock>) returns (k: nat)
    ensures FirstAt(answers, log, blks, k)
    ensures FirstAccepted(answers, log, blks) == if k < |blks| then Some(blks[k].block) else None
    decreases |blks|
  {
    k := 0;
    if blks != [] && answers(log, blks[0].block) != Committed {
      k := AcceptedIsFirst(answers, log, blks[1..]);
      assert forall j :: 0 < j < |blks| ==> blks[j] == blks[1..][j - 1];
      k := k + 1;
    }
  }

  /** `places` ascend, and are those of the failing blocks from `i` on, before `k`. */
  ghost predicate AreFailing(answers: Answers, log: seq<Block>, blks: seq<PeerBlock>, i: nat, k: nat, places: seq<nat>)
    requires k <= |blks|
  {
    match forall m, n :: 0 <= m < n < |places| ==> places[m] < places[n]
    case true =>
      && (forall m :: 0 <= m < |places| ==> i <= places[m] < k && answers(log, blks[places[m]].block) == Failed)
      && forall j: nat :: i <= j < k && answers(log, blks[j].block) == Failed ==> j in places
    case false => false
  }

  ghost predicate ArePeersOf(peers: seq<string>, blks: seq<PeerBlock>, places: seq<nat>) {
    match |peers| == |places|
    case true => forall m :: 0 <= m < |places| ==> places[m] < |blks| && peers[m] == blks[places[m]].pid
    case false => false
  }

  lemma FailsHere(answers: Answers, log: seq<Block>, blks: seq<PeerBlock>, i: nat, k: nat, later: seq<nat>)
    requires i < k <= |blks| && AreFailing(answers, log, blks, i + 1, k, later)
    requires answers(log, blks[i].block) == Failed
    ensures AreFailing(answers, log, blks, i, k, [i] + later)
  {
    var places := [i] + later;
    assert forall m :: 0 < m < |places| ==> places[m] == later[m - 1];
    forall j: nat | i <= j < k && answers(log, blks[j].block) == Failed ensures j in places {
      assert j == places[0] || j in later;
    }
  }

  lemma DoesNotFailHere(answers: Answers, log: seq<Block>, blks: seq<PeerBlock>, i: nat, k: nat, later: seq<nat>)
    requires i < k <= |blks| && AreFailing(answers, log, blks, i + 1, k, later)
    requires answers(log, blks[i].block) != Failed
    ensures AreFailing(answers, log, blks, i, k, later)
  {
  }

  lemma PeersHere(peers: seq<string>, blks: seq<PeerBlock>, later: seq<nat>, i: nat)
    requires i < |blks| && ArePeersOf(peers, blks, later)
    ensures ArePeersOf([blks[i].pid] + peers, blks, [i] + later)
  {
  }

  lemma BlockedOnTheWay(answers: Answers, log: seq<Block>, blks: seq<PeerBlock>, i: nat)
    requires i < |blks| && answers(log, blks[i].block) != Committed
    ensures BlockedPeers(answers, log, blks[i..]) ==
            (if answers(log, blks[i].block) == Failed then [blks[i].pid] else [])
            + BlockedPeers(answers, log, blks[i + 1..])
  {
    assert blks[i..][0] == blks[i] && blks[i..][1..] == blks[i + 1..];
  }

  lemma OneBlockEarlier(answers: Answers, log: seq<Block>, blks: seq<PeerBlock>, i: nat, k: nat, later: seq<nat>)
    returns (places: seq<nat>)
    requires i < k <= |blks| && answers(log, blks[i].block) != Committed
    requires AreFailing(answers, log, blks, i + 1, k, later)
    requires ArePeersOf(BlockedPeers(answers, log, blks[i + 1..]), blks, later)
    ensures AreFailing(answers, log, blks, i, k, places)
    ensures ArePeersOf(BlockedPeers(answers, log, blks[i..]), blks, places)
  {
    var peers := BlockedPeers(answers, log, blks[i + 1..]);
    BlockedOnTheWay(answers, log, blks, i);
    if answers(log, blks[i].block) == Failed {
      FailsHere(answers, log, blks, i, k, later);
      PeersHere(peers, blks, later, i);
      places := [i] + later;
    } else {
      DoesNotFailHere(answers, log, blks, i, k, later);
      assert [] + peers == peers;
      places := later;
    }
  }

  lemma {:induction false} BlockedFrom(answers: Answers, log: seq<Block>, blks: seq<PeerBlock>, i: nat, k: nat)
    returns (places: seq<nat>)
    requires FirstAt(answers, log, blks, k) && i <= k
    ensures AreFailing(answers, log, blks, i, k, places)
    ensures ArePeersOf(BlockedPeers(answers, log, blks[i..]), blks, places)
    decreases k - i
  {
    if i == k {
      places := [];
    } else {
      places := BlockedFrom(answers, log, blks, i + 1, k);
      places := OneBlockEarlier(answers, log, blks, i, k, places);
    }
  }

  /** Blocked are, in order, the peers of the blocks that fail before one is accepted, and no others. */
  lemma BlockedHaveFailed(answers: Answers, log: seq<Block>, blks: seq<PeerBlock>, k: nat) returns (places: seq<nat>)
    requires FirstAt(answers, log, blks, k)
    ensures AreFailing(answers, log, blks, 0, k, places)
    ensures ArePeersOf(BlockedPeers(answers, log, blks), blks, places)
  {
    places := BlockedFrom(answers, log, blks, 0, k);
    assert blks[0..] == blks;
  }

  // ---------- what is aimed for ----------

  /** The height that an arrival makes the syncer aim for: its own, but not beyond the window of that moment. */
  ghost function AimedFor(tip: nat, bufferSize: nat, arrivals: seq<Arrival>, i: nat): nat
    requires i < |arrivals|
  {
    var h, t := arrivals[i].blk.block.height, RunAll(Initial(tip), bufferSize, arrivals[..i]).tip;
    if h <= t + bufferSize then h else t + bufferSize
  }

  /** `target` is the greatest of the heights aimed for. */
  ghost predicate IsGreatest(tip: nat, bufferSize: nat, arrivals: seq<Arrival>, target: nat) {
    match arrivals == []
    case true => target == 0
    case false =>
      && (forall i :: 0 <= i < |arrivals| ==> AimedFor(tip, bufferSize, arrivals, i) <= target)
      && exists i :: 0 <= i < |arrivals| && AimedFor(tip, bufferSize, arrivals, i) == target
  }

  lemma GreatestSoFar(tip: nat, bufferSize: nat, arrivals: seq<Arrival>, target: nat)
    requires arrivals != [] && IsGreatest(tip, bufferSize, arrivals[..|arrivals| - 1], target)
    ensures
      var aim := AimedFor(tip, bufferSize, arrivals, |arrivals| - 1);
      IsGreatest(tip, bufferSize, arrivals, if aim > target then aim else target)
  {
    var n := |arrivals| - 1;
    var before := arrivals[..n];
    forall i | 0 <= i < n ensures AimedFor(tip, bufferSize, arrivals, i) == AimedFor(tip, bufferSize, before, i) {
      assert before[..i] == arrivals[..i];
    }
    if AimedFor(tip, bufferSize, arrivals, n) < target {
      var i :| 0 <= i < |before| && AimedFor(tip, bufferSize, before, i) == target;
      assert AimedFor(tip, bufferSize, arrivals, i) == target;
    }
  }

  /** The target of the syncer is that height. */
  lemma {:induction false} TargetIsGreatest(tip: nat, bufferSize: nat, arrivals: seq<Arrival>)
    ensures IsGreatest(tip, bufferSize, arrivals, RunAll(Initial(tip), bufferSize, arrivals).target)
    decreases |arrivals|
  {
    if arrivals != [] {
      var n := |arrivals| - 1;
      var before, s := arrivals[..n], RunAll(Initial(tip), bufferSize, arrivals[..n]);
      TargetIsGreatest(tip, bufferSize, before);
      RunIsSound(tip, bufferSize, before);
      ProcessedTarget(tip, bufferSize, s, arrivals[n].blk, arrivals[n].answers);
      GreatestSoFar(tip, bufferSize, arrivals, s.target);
    }
  }

  lemma ProcessedTarget(base: nat, bufferSize: nat, s: Sync, blk: PeerBlock, answers: Answers)
    requires Sound(base, bufferSize, s)
    ensures
      var h := blk.block.height;
      var aim := if h <= s.tip + bufferSize then h else s.tip + bufferSize;
      Processed(s, bufferSize, blk, answers).target == if aim > s.target then aim else s.target
  {
    var h := blk.block.height;
    var seen := if h > s.tip + bufferSize then s.tip + bufferSize else h;
    var target := if seen > s.target then seen else s.target;
    BufferedKeeps(base, bufferSize, s, blk, target);
    if s.tip < h <= s.tip + bufferSize {
      var queues := Buffered(s.queues, bufferSize, s.tip, blk);
      FlushKeeps(base, bufferSize, Sync(s.tip, s.log, queues, target, s.lastTip, s.blocked), answers);
    }
  }

  /** A block from outside the window changes nothing but the target. */
  lemma OutsideIsIgnored(s: Sync, bufferSize: nat, blk: PeerBlock, answers: Answers)
    requires blk.block.height <= s.tip || blk.block.height > s.tip + bufferSize
    ensures
      var s' := Processed(s, bufferSize, blk, answers);
      && s'.tip == s.tip && s'.log == s.log && s'.queues == s.queues && s'.lastTip == s.lastTip
      && s'.blocked == s.blocked
  {
  }

  // ---------- where the committed blocks come from ----------

  ghost predicate Arrived(arrivals: seq<Arrival>, b: PeerBlock) {
    exists i :: 0 <= i < |arrivals| && arrivals[i].blk == b
  }

  ghost predicate ArrivedFrom(arrivals: seq<Arrival>, pid: string) {
    exists i :: 0 <= i < |arrivals| && arrivals[i].blk.pid == pid
  }

  /** The chain accepted the block on top of these, and a peer sent it. */
  ghost predicate Earned(arrivals: seq<Arrival>, log: seq<Block>, b: Block) {
    && (exists i :: 0 <= i < |arrivals| && arrivals[i].answers(log, b) == Committed)
    && exists i :: 0 <= i < |arrivals| && arrivals[i].blk.block == b
  }

  /** Nothing is committed, buffered or blocked that did not arrive, and nothing committed that the chain refused. */
  ghost predicate Accounted(arrivals: seq<Arrival>, s: Sync) {
    && (forall i {:trigger s.log[i]} | 0 <= i < |s.log| :: Earned(arrivals, s.log[..i], s.log[i]))
    && (forall h, b | h in s.queues && b in s.queues[h] :: Arrived(arrivals, b))
    && forall p | p in s.blocked :: ArrivedFrom(arrivals, p)
  }

  lemma AccountedStill(before: seq<Arrival>, a: Arrival, s: Sync)
    requires Accounted(before, s)
    ensures Accounted(before + [a], s)
  {
    var arrivals := before + [a];
    assert forall i :: 0 <= i < |before| ==> arrivals[i] == before[i];
    forall i {:trigger s.log[i]} | 0 <= i < |s.log| ensures Earned(arrivals, s.log[..i], s.log[i]) {
      assert Earned(before, s.log[..i], s.log[i]);
      var j :| 0 <= j < |before| && before[j].answers(s.log[..i], s.log[i]) == Committed;
      var k :| 0 <= k < |before| && before[k].blk.block == s.log[i];
      assert arrivals[j].answers(s.log[..i], s.log[i]) == Committed && arrivals[k].blk.block == s.log[i];
    }
    forall h, b | h in s.queues && b in s.queues[h] ensures Arrived(arrivals, b) {
      assert Arrived(before, b);
      var i :| 0 <= i < |before| && before[i].blk == b;
      assert arrivals[i].blk == b;
    }
    forall p | p in s.blocked ensures ArrivedFrom(arrivals, p) {
      assert ArrivedFrom(before, p);
      var i :| 0 <= i < |before| && before[i].blk.pid == p;
      assert arrivals[i].blk.pid == p;
    }
  }

  lemma BlockedArrived(arrivals: seq<Arrival>, answers: Answers, log: seq<Block>, blks: seq<PeerBlock>)
    requires forall b | b in blks :: Arrived(arrivals, b)
    ensures forall p | p in BlockedPeers(answers, log, blks) :: ArrivedFrom(arrivals, p)
  {
    var k := AcceptedIsFirst(answers, log, blks);
    var places := BlockedHaveFailed(answers, log, blks, k);
    forall p | p in BlockedPeers(answers, log, blks) ensures ArrivedFrom(arrivals, p) {
      var m :| 0 <= m < |places| && BlockedPeers(answers, log, blks)[m] == p;
      assert Arrived(arrivals, blks[places[m]]);
    }
  }

  lemma RoundIsAccounted(arrivals: seq<Arrival>, s: Sync, j: nat)
    requires Accounted(arrivals, s) && j < |arrivals|
    ensures Accounted(arrivals, Round(s, arrivals[j].answers))
  {
    var answers, blks := arrivals[j].answers, QueueAt(s.queues, s.tip + 1);
    var s' := Round(s, answers);
    BlockedArrived(arrivals, answers, s.log, blks);
    var k := AcceptedIsFirst(answers, s.log, blks);
    if k < |blks| {
      assert Arrived(arrivals, blks[k]);
      assert Earned(arrivals, s.log, blks[k].block);
      forall i {:trigger s'.log[i]} | 0 <= i < |s'.log| ensures Earned(arrivals, s'.log[..i], s'.log[i]) {
        assert s'.log[..i] == s.log[..i];
      }
    }
  }

  lemma {:induction false} FlushIsAccounted(arrivals: seq<Arrival>, s: Sync, j: nat)
    requires Accounted(arrivals, s) && j < |arrivals|
    ensures Accounted(arrivals, Flush(s, arrivals[j].answers))
    decreases |s.queues|
  {
    RoundIsAccounted(arrivals, s, j);
    if Goes(s, arrivals[j].answers) {
      RoundShrinks(s, arrivals[j].answers);
      FlushIsAccounted(arrivals, Round(s, arrivals[j].answers), j);
    }
  }

  /** Over all runs, every committed block was sent by a peer and accepted on top of those before it. */
  lemma {:induction false} RunIsAccounted(tip: nat, bufferSize: nat, arrivals: seq<Arrival>)
    ensures Accounted(arrivals, RunAll(Initial(tip), bufferSize, arrivals))
    decreases |arrivals|
  {
    if arrivals != [] {
      var n := |arrivals| - 1;
      var before, a := arrivals[..n], arrivals[n];
      var s := RunAll(Initial(tip), bufferSize, before);
      RunIsAccounted(tip, bufferSize, before);
      AccountedStill(before, a, s);
      assert before + [a] == arrivals;
      BufferedIsAccounted(arrivals, s, bufferSize, n);
    }
  }

  lemma BufferedIsAccounted(arrivals: seq<Arrival>, s: Sync, bufferSize: nat, j: nat)
    requires Accounted(arrivals, s) && j < |arrivals|
    ensures Accounted(arrivals, Processed(s, bufferSize, arrivals[j].blk, arrivals[j].answers))
  {
    var blk := arrivals[j].blk;
    var h := blk.block.height;
    if s.tip < h <= s.tip + bufferSize {
      var queues := Buffered(s.queues, bufferSize, s.tip, blk);
      assert Arrived(arrivals, blk);
      forall k, b | k in queues && b in queues[k] ensures Arrived(arrivals, b) {
        assert b == blk || (k in s.queues && b in s.queues[k]);
      }
      var t := if h > s.target then h else s.target;
      FlushIsAccounted(arrivals, Sync(s.tip, s.log, queues, t, s.lastTip, s.blocked), j);
    }
  }

  /** The last tip that was noted is the height of the chain, once this syncer has committed anything. */
  ghost predicate TipNoted(s: Sync) {
    s.lastTip == if s.log == [] then 0 else s.tip
  }

  lemma {:induction false} FlushNotesTip(base: nat, bufferSize: nat, s: Sync, answers: Answers)
    requires Flushing(base, bufferSize, s) && TipNoted(s)
    ensures TipNoted(Flush(s, answers))
    decreases |s.queues|
  {
    RoundKeeps(base, bufferSize, s, answers);
    if Goes(s, answers) {
      RoundShrinks(s, answers);
      CommittedIsNext(base, bufferSize, s, answers);
      FlushNotesTip(base, bufferSize, Round(s, answers), answers);
    }
  }

  lemma CommittedIsNext(base: nat, bufferSize: nat, s: Sync, answers: Answers)
    requires Flushing(base, bufferSize, s) && Goes(s, answers)
    ensures FirstAccepted(answers, s.log, QueueAt(s.queues, s.tip + 1)).value.height == s.tip + 1
  {
    var blks := QueueAt(s.queues, s.tip + 1);
    var k := AcceptedIsFirst(answers, s.log, blks);
    assert blks[k] in blks;
  }

  lemma {:induction false} RunNotesTip(tip: nat, bufferSize: nat, arrivals: seq<Arrival>)
    ensures TipNoted(RunAll(Initial(tip), bufferSize, arrivals))
    decreases |arrivals|
  {
    if arrivals != [] {
      var before, last := arrivals[..|arrivals| - 1], arrivals[|arrivals| - 1];
      var s := RunAll(Initial(tip), bufferSize, before);
      RunNotesTip(tip, bufferSize, before);
      RunIsSound(tip, bufferSize, before);
      var h := last.blk.block.height;
      if s.tip < h <= s.tip + bufferSize {
        var target := if h > s.target then h else s.target;
        BufferedKeeps(tip, bufferSize, s, last.blk, target);
        var queues := Buffered(s.queues, bufferSize, s.tip, last.blk);
        FlushNotesTip(tip, bufferSize, Sync(s.tip, s.log, queues, target, s.lastTip, s.blocked), last.answers);
      }
    }
  }
}
