/**
 The block syncer: blocks arrive in any order, wait in the buffer and are committed in the order
 of their heights. The chain behind the handlers is a value: what the syncer has committed. A
 verdict says what the chain answers to a block that is offered to it.
 */
module BlockSyncs {
  import opened Actions
  import opened BlockBuffers

  datatype Verdict = Committed | RemoteHeightTooLow | Paused | Failed

  /** The chain's answers, as a function of what was committed so far. */
  type Answers = (seq<Block>, Block) -> Verdict

  // ---------- the syncer as a value ----------

  /** `tip` is the height of the chain, `log` what this syncer has committed to it, `blocked` the peers it blocked. */
  datatype Sync = Sync(
    tip: nat,
    log: seq<Block>,
    queues: map<nat, seq<PeerBlock>>,
    target: nat,
    lastTip: nat,
    blocked: seq<string>)

  /** commitBlocks: the first block that the chain accepts; peers of failing blocks are blocked on the way. */
  function FirstAccepted(answers: Answers, log: seq<Block>, blks: seq<PeerBlock>): Option<Block> {
    if blks == [] then None
    else if answers(log, blks[0].block) == Committed then Some(blks[0].block)
    else FirstAccepted(answers, log, blks[1..])
  }

  function BlockedPeers(answers: Answers, log: seq<Block>, blks: seq<PeerBlock>): seq<string> {
    if blks == [] || answers(log, blks[0].block) == Committed then []
    else (if answers(log, blks[0].block) == Failed then [blks[0].pid] else []) + BlockedPeers(answers, log, blks[1..])
  }

  function QueueAt(queues: map<nat, seq<PeerBlock>>, h: nat): seq<PeerBlock> {
    if h in queues then queues[h] else []
  }

  /** One round of the flush: the blocks above the tip are popped and offered. */
  function Round(s: Sync, answers: Answers): Sync {
    var blks := QueueAt(s.queues, s.tip + 1);
    var queues, blocked := s.queues - {s.tip + 1}, s.blocked + BlockedPeers(answers, s.log, blks);
    match FirstAccepted(answers, s.log, blks)
    case None => Sync(s.tip, s.log, queues, s.target, s.lastTip, blocked)
    case Some(b) =>
      Sync(s.tip + 1, s.log + [b], queues, s.target, if b.height > s.lastTip then b.height else s.lastTip, blocked)
  }

  predicate Goes(s: Sync, answers: Answers) {
    FirstAccepted(answers, s.log, QueueAt(s.queues, s.tip + 1)).Some?
  }

  lemma RoundShrinks(s: Sync, answers: Answers)
    requires Goes(s, answers)
    ensures |Round(s, answers).queues| < |s.queues|
  {
    var h := s.tip + 1;
    assert h in s.queues;
    assert s.queues.Keys == (s.queues - {h}).Keys + {h};
  }

  /** The flush ends because every commit takes a height out of the buffer. */
  function Flush(s: Sync, answers: Answers): Sync
    decreases |s.queues|
  {
    if Goes(s, answers) then
      RoundShrinks(s, answers);
      Flush(Round(s, answers), answers)
    else Round(s, answers)
  }

  /** ProcessBlock, on values. */
  function Processed(s: Sync, bufferSize: nat, blk: PeerBlock, answers: Answers): Sync {
    var h := blk.block.height;
    var seen := if h > s.tip + bufferSize then s.tip + bufferSize else h;
    var target := if seen > s.target then seen else s.target;
    if s.tip < h <= s.tip + bufferSize then
      Flush(Sync(s.tip, s.log, Buffered(s.queues, bufferSize, s.tip, blk), target, s.lastTip, s.blocked), answers)
    else
      Sync(s.tip, s.log, s.queues, target, s.lastTip, s.blocked)
  }

  // ---------- what every step keeps ----------

  /** A buffered height holds blocks of that height, none of them twice. */
  ghost predicate QueueOk(h: nat, blks: seq<PeerBlock>) {
    blks != [] && Distinct(blks) && forall b | b in blks :: b.block.height == h
  }

  /** The committed blocks have consecutive heights, starting right above `base`. */
  ghost predicate Consecutive(base: nat, log: seq<Block>) {
    forall i {:trigger log[i]} | 0 <= i < |log| :: log[i].height == base + 1 + i
  }

  /** During a flush, everything buffered is above the tip and within the window. */
  ghost predicate Flushing(base: nat, bufferSize: nat, s: Sync) {
    && s.tip == base + |s.log| && Consecutive(base, s.log)
    && s.target <= s.tip + bufferSize && s.lastTip <= s.tip
    && forall h {:trigger s.queues[h]} | h in s.queues :: s.tip < h <= s.tip + bufferSize && QueueOk(h, s.queues[h])
  }

  /** Between blocks, moreover, nothing is buffered right above the tip. */
  ghost predicate Sound(base: nat, bufferSize: nat, s: Sync) {
    Flushing(base, bufferSize, s) && s.tip + 1 !in s.queues
  }

  lemma {:induction false} AcceptedIsOffered(answers: Answers, log: seq<Block>, blks: seq<PeerBlock>)
    ensures
      match FirstAccepted(answers, log, blks)
      case Some(b) => (exists i :: 0 <= i < |blks| && blks[i].block == b) && answers(log, b) == Committed
      case None => forall i :: 0 <= i < |blks| ==> answers(log, blks[i].block) != Committed
  {
    if blks != [] && answers(log, blks[0].block) != Committed {
      AcceptedIsOffered(answers, log, blks[1..]);
      match FirstAccepted(answers, log, blks[1..])
      case Some(b) =>
        var i :| 0 <= i < |blks[1..]| && blks[1..][i].block == b;
        assert blks[i + 1].block == b;
      case None =>
        assert forall i :: 0 < i < |blks| ==> blks[i] == blks[1..][i - 1];
    }
  }

  lemma RoundKeeps(base: nat, bufferSize: nat, s: Sync, answers: Answers)
    requires Flushing(base, bufferSize, s)
    ensures
      var s' := Round(s, answers);
      && (if Goes(s, answers) then Flushing(base, bufferSize, s') else Sound(base, bufferSize, s'))
      && s'.target == s.target && s.log <= s'.log
  {
    var blks := QueueAt(s.queues, s.tip + 1);
    AcceptedIsOffered(answers, s.log, blks);
    if Goes(s, answers) {
      var b := FirstAccepted(answers, s.log, blks).value;
      var i :| 0 <= i < |blks| && blks[i].block == b;
      assert blks[i] in blks;
    }
  }

  lemma {:induction false} FlushKeeps(base: nat, bufferSize: nat, s: Sync, answers: Answers)
    requires Flushing(base, bufferSize, s)
    ensures
      var s' := Flush(s, answers);
      Sound(base, bufferSize, s') && s'.target == s.target && s.log <= s'.log
    decreases |s.queues|
  {
    RoundKeeps(base, bufferSize, s, answers);
    if Goes(s, answers) {
      RoundShrinks(s, answers);
      FlushKeeps(base, bufferSize, Round(s, answers), answers);
    }
  }

  lemma BufferedKeeps(base: nat, bufferSize: nat, s: Sync, blk: PeerBlock, target: nat)
    requires Sound(base, bufferSize, s) && target <= s.tip + bufferSize
    ensures
      var queues := Buffered(s.queues, bufferSize, s.tip, blk);
      Flushing(base, bufferSize, Sync(s.tip, s.log, queues, target, s.lastTip, s.blocked))
  {
    var h := blk.block.height;
    if s.tip < h <= s.tip + bufferSize {
      EnqueuedIsDistinct(QueueAt(s.queues, h), blk);
    }
  }

  /**
   One block keeps the syncer sound; the committed blocks and the target only grow, the tip with
   them.
   */
  lemma ProcessedKeeps(base: nat, bufferSize: nat, s: Sync, blk: PeerBlock, answers: Answers)
    requires Sound(base, bufferSize, s)
    ensures
      var s' := Processed(s, bufferSize, blk, answers);
      Sound(base, bufferSize, s') && s.log <= s'.log && s.tip <= s'.tip && s.target <= s'.target
  {
    var h := blk.block.height;
    var seen := if h > s.tip + bufferSize then s.tip + bufferSize else h;
    var target := if seen > s.target then seen else s.target;
    BufferedKeeps(base, bufferSize, s, blk, target);
    if s.tip < h <= s.tip + bufferSize {
      var queues := Buffered(s.queues, bufferSize, s.tip, blk);
      FlushKeeps(base, bufferSize, Sync(s.tip, s.log, queues, target, s.lastTip, s.blocked), answers);
    }
  }

  // ---------- runs ----------

  datatype Arrival = Arrival(blk: PeerBlock, answers: Answers)

  function RunAll(s: Sync, bufferSize: nat, arrivals: seq<Arrival>): Sync
    decreases |arrivals|
  {
    if arrivals == [] then s
    else
      var last := arrivals[|arrivals| - 1];
      Processed(RunAll(s, bufferSize, arrivals[..|arrivals| - 1]), bufferSize, last.blk, last.answers)
  }

  function Initial(tip: nat): Sync {
    Sync(tip, [], map[], 0, 0, [])
  }

  /**
   Whatever arrives, and whatever the chain answers: the committed blocks have consecutive heights
   from the first tip on, and the buffer and the target stay within the window above the tip.
   */
  lemma {:induction false} RunIsSound(tip: nat, bufferSize: nat, arrivals: seq<Arrival>)
    ensures Sound(tip, bufferSize, RunAll(Initial(tip), bufferSize, arrivals))
    decreases |arrivals|
  {
    if arrivals != [] {
      var before, last := arrivals[..|arrivals| - 1], arrivals[|arrivals| - 1];
      RunIsSound(tip, bufferSize, before);
      ProcessedKeeps(tip, bufferSize, RunAll(Initial(tip), bufferSize, before), last.blk, last.answers);
    }
  }

  // ---------- when the chain accepts everything ----------

  ghost predicate Willing(answers: Answers) {
    forall log, b {:trigger answers(log, b)} :: answers(log, b) == Committed
  }

  lemma WillingRound(base: nat, bufferSize: nat, s: Sync, answers: Answers)
    requires Flushing(base, bufferSize, s) && Willing(answers)
    ensures
      var s1 := Round(s, answers);
      && s1.queues.Keys == s.queues.Keys - {s.tip + 1}
      && (s.tip + 1 in s.queues ==>
            Goes(s, answers) && s1.tip == s.tip + 1 && |s1.queues| < |s.queues| && Flushing(base, bufferSize, s1))
      && (s.tip + 1 !in s.queues ==> !Goes(s, answers) && s1.tip == s.tip)
  {
    var blks := QueueAt(s.queues, s.tip + 1);
    assert blks != [] ==> answers(s.log, blks[0].block) == Committed;
    RoundKeeps(base, bufferSize, s, answers);
    if Goes(s, answers) {
      RoundShrinks(s, answers);
    }
  }

  /** From height `lo` to `tip` everything was there, right above nothing was, and what was higher still waits. */
  ghost predicate Drained(lo: nat, there: set<nat>, tip: nat, waiting: set<nat>) {
    && lo <= tip && tip + 1 !in there
    && (forall h: nat :: lo < h <= tip ==> h in there)
    && (forall h: nat :: h in waiting <==> h in there && h > tip)
  }

  /** A flush then stops at the first height that is not buffered. */
  lemma {:induction false} FlushDrains(base: nat, bufferSize: nat, s: Sync, answers: Answers)
    requires Flushing(base, bufferSize, s) && Willing(answers)
    ensures Drained(s.tip, s.queues.Keys, Flush(s, answers).tip, Flush(s, answers).queues.Keys)
    decreases |s.queues|
  {
    WillingRound(base, bufferSize, s, answers);
    if s.tip + 1 in s.queues {
      var s1 := Round(s, answers);
      FlushDrains(base, bufferSize, s1, answers);
      DrainedFromBelow(s.tip, s.queues.Keys, Flush(s1, answers).tip, Flush(s1, answers).queues.Keys);
    } else {
      DrainedHere(s.tip, s.queues.Keys);
    }
  }

  lemma DrainedHere(lo: nat, there: set<nat>)
    requires lo + 1 !in there && forall h | h in there :: h > lo
    ensures Drained(lo, there, lo, there - {lo + 1})
  {
  }

  lemma DrainedFromBelow(lo: nat, there: set<nat>, tip: nat, waiting: set<nat>)
    requires lo + 1 in there && Drained(lo + 1, there - {lo + 1}, tip, waiting)
    ensures Drained(lo, there, tip, waiting)
  {
    forall h: nat | lo < h <= tip ensures h in there {
      assert h == lo + 1 || h in there - {lo + 1};
    }
    assert tip + 1 !in there - {lo + 1};
  }

  ghost predicate AllWilling(arrivals: seq<Arrival>) {
    forall i :: 0 <= i < |arrivals| ==> Willing(arrivals[i].answers)
  }

  /** The heights that were within the window when they arrived. */
  function Taken(tip: nat, bufferSize: nat, arrivals: seq<Arrival>): set<nat>
    decreases |arrivals|
  {
    if arrivals == [] then {}
    else
      var before, h := arrivals[..|arrivals| - 1], arrivals[|arrivals| - 1].blk.block.height;
      var t := RunAll(Initial(tip), bufferSize, before).tip;
      Taken(tip, bufferSize, before) + if t < h <= t + bufferSize then {h} else {}
  }

  /**
   Whatever arrives in whatever order: if the chain accepts everything, it ends right before the
   first height that was not taken, and exactly the higher ones that were taken wait.
   */
  lemma {:induction false} TipIsBeforeFirstGap(tip: nat, bufferSize: nat, arrivals: seq<Arrival>)
    requires AllWilling(arrivals)
    ensures
      var s := RunAll(Initial(tip), bufferSize, arrivals);
      Drained(tip, Taken(tip, bufferSize, arrivals), s.tip, s.queues.Keys)
    decreases |arrivals|
  {
    if arrivals != [] {
      var before, last := arrivals[..|arrivals| - 1], arrivals[|arrivals| - 1];
      TipIsBeforeFirstGap(tip, bufferSize, before);
      RunIsSound(tip, bufferSize, before);
      OneMoreArrival(tip, bufferSize, RunAll(Initial(tip), bufferSize, before), last, Taken(tip, bufferSize, before));
    }
  }

  lemma OneMoreArrival(tip: nat, bufferSize: nat, s: Sync, a: Arrival, taken: set<nat>)
    requires Sound(tip, bufferSize, s) && Willing(a.answers) && Drained(tip, taken, s.tip, s.queues.Keys)
    ensures
      var h, s' := a.blk.block.height, Processed(s, bufferSize, a.blk, a.answers);
      Drained(tip, taken + (if s.tip < h <= s.tip + bufferSize then {h} else {}), s'.tip, s'.queues.Keys)
  {
    var h := a.blk.block.height;
    var s' := Processed(s, bufferSize, a.blk, a.answers);
    if s.tip < h <= s.tip + bufferSize {
      var target := if h > s.target then h else s.target;
      var s1 := Sync(s.tip, s.log, Buffered(s.queues, bufferSize, s.tip, a.blk), target, s.lastTip, s.blocked);
      BufferedKeeps(tip, bufferSize, s, a.blk, target);
      FlushDrains(tip, bufferSize, s1, a.answers);
      assert s' == Flush(s1, a.answers) && s1.queues.Keys == s.queues.Keys + {h};
      DrainedFurther(tip, taken, s.tip, s.queues.Keys, h, s'.tip, s'.queues.Keys);
    } else {
      assert taken + {} == taken;
    }
  }

  lemma DrainedFurther(lo: nat, there: set<nat>, tip: nat, waiting: set<nat>, h: nat, tip': nat, waiting': set<nat>)
    requires Drained(lo, there, tip, waiting) && Drained(tip, waiting + {h}, tip', waiting') && tip < h
    ensures Drained(lo, there + {h}, tip', waiting')
  {
    forall k: nat | lo < k <= tip' ensures k in there + {h} {
      assert k <= tip || k in waiting + {h};
    }
    assert tip' + 1 !in waiting + {h};
  }

  lemma DrainedIsDetermined(lo: nat, there: set<nat>, tip: nat, waiting: set<nat>, tip': nat, waiting': set<nat>)
    requires Drained(lo, there, tip, waiting) && Drained(lo, there, tip', waiting')
    ensures tip == tip' && waiting == waiting'
  {
  }

  lemma {:induction false} TakenIsAbove(tip: nat, bufferSize: nat, arrivals: seq<Arrival>)
    ensures forall h | h in Taken(tip, bufferSize, arrivals) :: h > tip
    decreases |arrivals|
  {
    if arrivals != [] {
      var before := arrivals[..|arrivals| - 1];
      TakenIsAbove(tip, bufferSize, before);
      RunIsSound(tip, bufferSize, before);
    }
  }

  /** Two runs that the chain accepts throughout end alike if and only if they took the same heights. */
  lemma EndsAlike(tip: nat, bufferSize: nat, first: seq<Arrival>, second: seq<Arrival>)
    requires AllWilling(first) && AllWilling(second)
    ensures
      var s, t := RunAll(Initial(tip), bufferSize, first), RunAll(Initial(tip), bufferSize, second);
      s.tip == t.tip && s.queues.Keys == t.queues.Keys <==>
      Taken(tip, bufferSize, first) == Taken(tip, bufferSize, second)
  {
    var s, t := RunAll(Initial(tip), bufferSize, first), RunAll(Initial(tip), bufferSize, second);
    var one, other := Taken(tip, bufferSize, first), Taken(tip, bufferSize, second);
    TipIsBeforeFirstGap(tip, bufferSize, first);
    TipIsBeforeFirstGap(tip, bufferSize, second);
    if one == other {
      DrainedIsDetermined(tip, one, s.tip, s.queues.Keys, t.tip, t.queues.Keys);
    }
    TakenIsAbove(tip, bufferSize, first);
    TakenIsAbove(tip, bufferSize, second);
    DrainedIsExhaustive(tip, one, s.tip, s.queues.Keys);
    DrainedIsExhaustive(tip, other, t.tip, t.queues.Keys);
  }

  lemma DrainedIsExhaustive(lo: nat, there: set<nat>, tip: nat, waiting: set<nat>)
    requires Drained(lo, there, tip, waiting) && forall h | h in there :: h > lo
    ensures forall h: nat :: h in there <==> lo < h <= tip || h in waiting
  {
  }

  function Heights(arrivals: seq<Arrival>): set<nat> {
    set i | 0 <= i < |arrivals| :: arrivals[i].blk.block.height
  }

  function Above(tip: nat, heights: set<nat>): set<nat> {
    set h | h in heights && h > tip
  }

  lemma HeightsExtend(arrivals: seq<Arrival>)
    requires arrivals != []
    ensures Heights(arrivals) == Heights(arrivals[..|arrivals| - 1]) + {arrivals[|arrivals| - 1].blk.block.height}
  {
    var before, last := arrivals[..|arrivals| - 1], arrivals[|arrivals| - 1];
    assert arrivals == before + [last];
    assert forall i :: 0 <= i < |before| ==> arrivals[i] == before[i];
    assert arrivals[|before|] == last;
  }

  /** Nothing arrives from beyond the first window. */
  ghost predicate InWindow(tip: nat, bufferSize: nat, arrivals: seq<Arrival>) {
    forall i :: 0 <= i < |arrivals| ==> arrivals[i].blk.block.height <= tip + bufferSize
  }

  /** Within the first window, everything above the first tip is taken, whatever the order. */
  lemma {:induction false} WindowIsTaken(tip: nat, bufferSize: nat, arrivals: seq<Arrival>)
    requires AllWilling(arrivals) && InWindow(tip, bufferSize, arrivals)
    ensures Taken(tip, bufferSize, arrivals) == Above(tip, Heights(arrivals))
    decreases |arrivals|
  {
    if arrivals != [] {
      var before := arrivals[..|arrivals| - 1];
      WindowIsTaken(tip, bufferSize, before);
      TipIsBeforeFirstGap(tip, bufferSize, before);
      HeightsExtend(arrivals);
    }
  }

  /** So within the first window neither the order of arrival matters, nor how often a height arrives. */
  lemma OrderDoesNotMatter(tip: nat, bufferSize: nat, first: seq<Arrival>, second: seq<Arrival>)
    requires AllWilling(first) && InWindow(tip, bufferSize, first)
    requires AllWilling(second) && InWindow(tip, bufferSize, second)
    requires Heights(first) == Heights(second)
    ensures
      var s, t := RunAll(Initial(tip), bufferSize, first), RunAll(Initial(tip), bufferSize, second);
      s.tip == t.tip && s.queues.Keys == t.queues.Keys
  {
    WindowIsTaken(tip, bufferSize, first);
    WindowIsTaken(tip, bufferSize, second);
    EndsAlike(tip, bufferSize, first, second);
  }

  /** What a run has taken, and where it ends. */
  ghost predicate Ends(tip: nat, bufferSize: nat, arrivals: seq<Arrival>, taken: set<nat>, t: nat) {
    Taken(tip, bufferSize, arrivals) == taken && RunAll(Initial(tip), bufferSize, arrivals).tip == t
  }

  lemma EndsNext(tip: nat, bufferSize: nat, before: seq<Arrival>, a: Arrival, taken: set<nat>, t: nat,
                 taken': set<nat>, t': nat)
    requires AllWilling(before) && Willing(a.answers) && Ends(tip, bufferSize, before, taken, t)
    requires taken' == taken + if t < a.blk.block.height <= t + bufferSize then {a.blk.block.height} else {}
    requires tip <= t' && t' + 1 !in taken' && forall h: nat :: tip < h <= t' ==> h in taken'
    ensures AllWilling(before + [a]) && Ends(tip, bufferSize, before + [a], taken', t')
  {
    var arrivals := before + [a];
    assert arrivals[..|before|] == before;
    TipIsBeforeFirstGap(tip, bufferSize, arrivals);
    var s := RunAll(Initial(tip), bufferSize, arrivals);
    DrainedIsDetermined(tip, taken', t', (set h | h in taken' && h > t'), s.tip, s.queues.Keys);
  }

  /**
   Beyond the window the order matters, whatever the window: a block right behind it is taken after
   the next block of the chain, but not before. With room for one block the tips differ, too.
   */
  lemma OrderMattersBeyondWindow(tip: nat, bufferSize: nat, near: Arrival, far: Arrival)
    requires bufferSize > 0 && Willing(near.answers) && Willing(far.answers)
    requires near.blk.block.height == tip + 1 && far.blk.block.height == tip + bufferSize + 1
    ensures Ends(tip, bufferSize, [near] + [far], {tip + 1, tip + bufferSize + 1},
                 if bufferSize == 1 then tip + 2 else tip + 1)
    ensures Ends(tip, bufferSize, [far] + [near], {tip + 1}, tip + 1)
  {
    var none: seq<Arrival> := [];
    assert Ends(tip, bufferSize, none, {}, tip);
    assert none + [near] == [near] && none + [far] == [far];
    EndsNext(tip, bufferSize, none, near, {}, tip, {tip + 1}, tip + 1);
    EndsNext(tip, bufferSize, [near], far, {tip + 1}, tip + 1,
             {tip + 1, tip + bufferSize + 1}, if bufferSize == 1 then tip + 2 else tip + 1);
    EndsNext(tip, bufferSize, none, far, {}, tip, {}, tip);
    EndsNext(tip, bufferSize, [far], near, {}, tip, {tip + 1}, tip + 1);
  }

  // ---------- the syncer as an object ----------

  class BlockSyncer {
    const buf: BlockBuffer
    var targetHeight: nat
    var lastTip: nat
    var tip: nat
    var log: seq<Block>
    var blocked: seq<string>

    ghost function View(): Sync
      reads this, buf
    {
      Sync(tip, log, buf.queues, targetHeight, lastTip, blocked)
    }

    ghost predicate Valid()
      reads this, buf, buf.blockQueues.Values
    {
      buf.Valid()
    }

    constructor (tip: nat, bufferSize: nat, intervalSize: nat)
      ensures Valid() && View() == Initial(tip) && buf.bufferSize == bufferSize
    {
      this.tip, log, targetHeight, lastTip, blocked := tip, [], 0, 0, [];
      buf := new BlockBuffer(bufferSize, intervalSize);
    }

    /** commitBlocks */
    method CommitBlocks(blks: seq<PeerBlock>, answers: Answers) returns (ok: bool)
      modifies this
      ensures ok <==> FirstAccepted(answers, old(log), blks).Some?
      ensures blocked == old(blocked) + BlockedPeers(answers, old(log), blks) && targetHeight == old(targetHeight)
      ensures
        match FirstAccepted(answers, old(log), blks)
        case None => tip == old(tip) && log == old(log) && lastTip == old(lastTip)
        case Some(b) =>
          && tip == old(tip) + 1 && log == old(log) + [b]
          && lastTip == if b.height > old(lastTip) then b.height else old(lastTip)
    {
      for i := 0 to |blks|
        invariant tip == old(tip) && log == old(log) && lastTip == old(lastTip) && targetHeight == old(targetHeight)
        invariant FirstAccepted(answers, log, blks[i..]) == FirstAccepted(answers, log, blks)
        invariant blocked + BlockedPeers(answers, log, blks[i..]) == old(blocked) + BlockedPeers(answers, log, blks)
      {
        var blk := blks[i];
        assert blks[i..][0] == blk && blks[i..][1..] == blks[i + 1..];
        match answers(log, blk.block)
        case Committed =>
          tip, log := tip + 1, log + [blk.block];
          if blk.block.height > lastTip {
            lastTip := blk.block.height;
          }
          return true;
        case RemoteHeightTooLow =>
        case Paused =>
        case Failed =>
          blocked := blocked + [blk.pid];
      }
      return false;
    }

    /** One round of the flush: pop the height above the chain and offer its blocks. */
    method CommitNext(answers: Answers) returns (ok: bool)
      requires Valid()
      modifies this, buf, buf.blockQueues.Values
      ensures Valid() && buf.blockQueues.Values <= old(buf.blockQueues.Values)
      ensures ok <==> Goes(old(View()), answers)
      ensures View() == Round(old(View()), answers)
    {
      var blks := buf.Pop(tip + 1);
      ok := CommitBlocks(blks, answers);
    }

    /** The loop of ProcessBlock; the height it counts up is the height of the chain. */
    method FlushBuffer(answers: Answers)
      requires Valid()
      modifies this, buf, buf.blockQueues.Values
      ensures Valid() && View() == Flush(old(View()), answers)
    {
      ghost var s := View();
      while true
        invariant Valid() && buf.blockQueues.Values <= old(buf.blockQueues.Values)
        invariant s == View() && Flush(s, answers) == Flush(old(View()), answers)
        decreases |s.queues|
      {
        var ok := CommitNext(answers);
        if !ok {
          break;
        }
        RoundShrinks(s, answers);
        s := View();
      }
    }

    /** ProcessBlock */
    method ProcessBlock(blk: PeerBlock, answers: Answers)
      requires Valid()
      modifies this, buf, buf.blockQueues.Values
      ensures Valid() && View() == Processed(old(View()), buf.bufferSize, blk, answers)
    {
      var added, seen := buf.AddBlock(tip, blk);
      if seen > targetHeight {
        targetHeight := seen;
      }
      if added {
        ghost var queues := Buffered(old(buf.queues), buf.bufferSize, tip, blk);
        assert View() == Sync(tip, log, queues, targetHeight, lastTip, blocked);
        FlushBuffer(answers);
      }
    }
  }
}
