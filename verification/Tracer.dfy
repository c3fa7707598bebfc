/**
 The tracer that bridges actions to transactions: logs wait in a buffer until their transaction
 ends or is discarded. What happens to every single log is said by looking at the events alone.
 */
module Tracers {
  /** A log that reached the inner tracer, with its index in the block. */
  datatype Forwarded = Forwarded(log: nat, index: nat)

  datatype Event =
    | TxStart
    | TxEnd
    | CaptureStart
    | CaptureEnd
    | OnLog(log: nat)
    | TransferLog(log: nat)
    | Discard

  /**
   The tracer's fields, and what the inner tracer has got: logs, and the actions whose transaction
   was begun. `actions` says of each action whether it is a transaction at all.
   */
  datatype State = State(
    actions: seq<bool>,
    currentIdx: nat,
    txStarted: bool,
    captureStarted: bool,
    logIndex: nat,
    pendingLogs: seq<nat>,
    forwarded: seq<Forwarded>,
    begun: seq<nat>)

  function Flushed(logs: seq<nat>, from: nat): (fs: seq<Forwarded>)
    ensures |fs| == |logs|
  {
    seq(|logs|, k requires 0 <= k < |logs| => Forwarded(logs[k], from + k))
  }

  function Next(s: State, e: Event): State {
    match e
    case TxStart =>
      if s.txStarted then s
      else
        var opens := s.currentIdx < |s.actions| && s.actions[s.currentIdx];
        s.(txStarted := true, begun := if opens then s.begun + [s.currentIdx] else s.begun)
    case TxEnd =>
      if !s.txStarted then s
      else s.(forwarded := s.forwarded + Flushed(s.pendingLogs, s.logIndex), logIndex := s.logIndex + |s.pendingLogs|,
              pendingLogs := [], txStarted := false, currentIdx := s.currentIdx + 1)
    case CaptureStart => s.(captureStarted := true)
    case CaptureEnd => s.(captureStarted := false)
    case OnLog(log) => if s.captureStarted then s.(pendingLogs := s.pendingLogs + [log]) else s
    case TransferLog(log) => if s.txStarted then s.(pendingLogs := s.pendingLogs + [log]) else s
    case Discard => s.(pendingLogs := [])
  }

  // ---------- the tracer as an object ----------

  class Tracer {
    var actions: seq<bool>
    var currentIdx: nat
    var txStarted: bool
    var captureStarted: bool
    var logIndex: nat
    var pendingLogs: seq<nat>
    var forwarded: seq<Forwarded>
    var begun: seq<nat>

    ghost function View(): State
      reads this
    {
      State(actions, currentIdx, txStarted, captureStarted, logIndex, pendingLogs, forwarded, begun)
    }

    constructor ()
      ensures View() == State([], 0, false, false, 0, [], [], [])
    {
      actions, currentIdx, txStarted, captureStarted := [], 0, false, false;
      logIndex, pendingLogs, forwarded, begun := 0, [], [], [];
    }

    /** SetActions: the buffer and the two flags stay as they are. */
    method SetActions(newActions: seq<bool>)
      modifies this`actions, this`currentIdx, this`logIndex
      ensures actions == newActions && currentIdx == 0 && logIndex == 0
    {
      actions, currentIdx, logIndex := newActions, 0, 0;
    }

    method CaptureTxStart()
      modifies this
      ensures View() == Next(old(View()), TxStart)
    {
      if txStarted {
        return;
      }
      txStarted := true;
      if currentIdx < |actions| && actions[currentIdx] {
        begun := begun + [currentIdx];
      }
    }

    method CaptureTxEnd()
      modifies this
      ensures View() == Next(old(View()), TxEnd)
    {
      if !txStarted {
        return;
      }
      FlushPendingLogs();
      txStarted := false;
      currentIdx := currentIdx + 1;
    }

    /** flushPendingLogs */
    method FlushPendingLogs()
      modifies this`logIndex, this`forwarded, this`pendingLogs
      ensures forwarded == old(forwarded) + Flushed(old(pendingLogs), old(logIndex))
      ensures logIndex == old(logIndex) + |old(pendingLogs)| && pendingLogs == []
    {
      ghost var all := Flushed(pendingLogs, logIndex);
      for i := 0 to |pendingLogs|
        invariant pendingLogs == old(pendingLogs) && logIndex == old(logIndex) + i
        invariant forwarded == old(forwarded) + all[..i]
      {
        forwarded := forwarded + [Forwarded(pendingLogs[i], logIndex)];
        assert all[..i + 1] == all[..i] + [all[i]];
        logIndex := logIndex + 1;
      }
      assert all[..|all|] == all;
      pendingLogs := [];
    }

    method DiscardPendingLogs()
      modifies this
      ensures View() == Next(old(View()), Discard)
    {
      pendingLogs := [];
    }

    method SetCapture(on: bool)
      modifies this
      ensures View() == Next(old(View()), if on then CaptureStart else CaptureEnd)
    {
      captureStarted := on;
    }

    method OnLog(log: nat)
      modifies this
      ensures View() == Next(old(View()), Event.OnLog(log))
    {
      if !captureStarted {
        return;
      }
      pendingLogs := pendingLogs + [log];
    }

    method EmitTransferLog(log: nat)
      modifies this
      ensures View() == Next(old(View()), TransferLog(log))
    {
      if !txStarted {
        return;
      }
      pendingLogs := pendingLogs + [log];
    }
  }

  // ---------- what becomes of a log ----------

  /** The state after the first `n` events. */
  function After(s: State, es: seq<Event>, n: nat): State
    requires n <= |es|
  {
    if n == 0 then s else Next(After(s, es, n - 1), es[n - 1])
  }

  /** Right before event `n` a capture is open: it was started and not ended since, or open at first and never ended. */
  ghost predicate CaptureOpen(atFirst: bool, es: seq<Event>, n: nat)
    requires n <= |es|
  {
    || (exists k :: 0 <= k < n && es[k] == CaptureStart && forall m :: k < m < n ==> es[m] != CaptureEnd)
    || (atFirst && forall m :: 0 <= m < n ==> es[m] != CaptureEnd)
  }

  /** The same for a transaction. */
  ghost predicate TxOpen(atFirst: bool, es: seq<Event>, n: nat)
    requires n <= |es|
  {
    || (exists k :: 0 <= k < n && es[k] == TxStart && forall m :: k < m < n ==> es[m] != TxEnd)
    || (atFirst && forall m :: 0 <= m < n ==> es[m] != TxEnd)
  }

  /** The tracer's two flags say exactly that. */
  lemma {:induction false} FlagsMean(s: State, es: seq<Event>, n: nat)
    requires n <= |es|
    ensures After(s, es, n).captureStarted <==> CaptureOpen(s.captureStarted, es, n)
    ensures After(s, es, n).txStarted <==> TxOpen(s.txStarted, es, n)
  {
    if n > 0 {
      FlagsMean(s, es, n - 1);
      OpenNext(s.captureStarted, s.txStarted, es, n);
    }
  }

  /** A start opens, an end closes, anything else leaves it as it is. */
  lemma OpenNext(capture: bool, tx: bool, es: seq<Event>, n: nat)
    requires 0 < n <= |es|
    ensures CaptureOpen(capture, es, n) <==>
              es[n - 1] == CaptureStart || (es[n - 1] != CaptureEnd && CaptureOpen(capture, es, n - 1))
    ensures TxOpen(tx, es, n) <==> es[n - 1] == TxStart || (es[n - 1] != TxEnd && TxOpen(tx, es, n - 1))
  {
    assert forall m :: 0 <= m < n ==> m < n - 1 || es[m] == es[n - 1];
  }

  /** A log counts while a capture is open, a transfer's log while a transaction is. */
  ghost predicate Accepted(s: State, es: seq<Event>, i: nat)
    requires i < |es|
  {
    match es[i]
    case OnLog(_) => CaptureOpen(s.captureStarted, es, i)
    case TransferLog(_) => TxOpen(s.txStarted, es, i)
    case _ => false
  }

  /** The end of a transaction that was open. */
  ghost predicate Ends(s: State, es: seq<Event>, i: nat)
    requires i < |es|
  {
    es[i] == TxEnd && TxOpen(s.txStarted, es, i)
  }

  datatype Fate = Pending | Sent | Dropped

  /** The first event after `i` that empties the buffer decides, if there is one among the first `n`. */
  ghost function FateOf(s: State, es: seq<Event>, i: nat, n: nat): Fate
    requires i < n <= |es|
  {
    if n == i + 1 then Pending
    else
      var before := FateOf(s, es, i, n - 1);
      if before != Pending then before
      else if Ends(s, es, n - 1) then Sent
      else if es[n - 1] == Discard then Dropped
      else Pending
  }

  /** The accepted logs among the events before `hi` that have met this fate after `n` events, in order. */
  ghost function Logs(s: State, es: seq<Event>, hi: nat, n: nat, fate: Fate): seq<nat>
    requires hi <= n <= |es|
  {
    if hi == 0 then []
    else
      Logs(s, es, hi - 1, n, fate) +
      if Accepted(s, es, hi - 1) && FateOf(s, es, hi - 1, n) == fate then [es[hi - 1].log] else []
  }

  /** Event `k` is the first after `i` that ends an open transaction or discards. */
  ghost predicate FirstToEmpty(s: State, es: seq<Event>, i: nat, k: nat)
    requires i < k < |es|
  {
    && (Ends(s, es, k) || es[k] == Discard)
    && forall m :: i < m < k ==> !Ends(s, es, m) && es[m] != Discard
  }

  lemma {:induction false} NoneYet(s: State, es: seq<Event>, i: nat, n: nat)
    requires i < n <= |es|
    ensures FateOf(s, es, i, n) == Pending <==> forall m :: i < m < n ==> !Ends(s, es, m) && es[m] != Discard
  {
    if n > i + 1 {
      NoneYet(s, es, i, n - 1);
    }
  }

  /** The event that decides. */
  lemma {:induction false} Decides(s: State, es: seq<Event>, i: nat, n: nat) returns (k: nat)
    requires i < n <= |es| && FateOf(s, es, i, n) != Pending
    ensures i < k < n && FirstToEmpty(s, es, i, k)
    ensures FateOf(s, es, i, n) == if es[k] == TxEnd then Sent else Dropped
  {
    if FateOf(s, es, i, n - 1) != Pending {
      k := Decides(s, es, i, n - 1);
    } else {
      NoneYet(s, es, i, n - 1);
      k := n - 1;
    }
  }

  /** A log is sent if the first such event ends a transaction, dropped if it discards, and waits if there is none. */
  lemma FateMeans(s: State, es: seq<Event>, i: nat, n: nat)
    requires i < n <= |es|
    ensures FateOf(s, es, i, n) == Sent <==> exists k :: i < k < n && FirstToEmpty(s, es, i, k) && es[k] == TxEnd
    ensures FateOf(s, es, i, n) == Dropped <==> exists k :: i < k < n && FirstToEmpty(s, es, i, k) && es[k] == Discard
  {
    NoneYet(s, es, i, n);
    if FateOf(s, es, i, n) != Pending {
      var k := Decides(s, es, i, n);
      assert forall m | i < m < n && FirstToEmpty(s, es, i, m) :: m == k;
    }
  }

  /** An event that does not empty the buffer changes no fate. */
  lemma {:induction false} FatesStay(s: State, es: seq<Event>, hi: nat, n: nat, fate: Fate)
    requires hi < n <= |es| && !Ends(s, es, n - 1) && es[n - 1] != Discard
    ensures Logs(s, es, hi, n, fate) == Logs(s, es, hi, n - 1, fate)
    decreases hi
  {
    if hi > 0 {
      FatesStay(s, es, hi - 1, n, fate);
    }
  }

  /** While anything waits, nothing before it does not: what was sent or dropped came earlier. */
  ghost predicate Cut(s: State, es: seq<Event>, c: nat, n: nat)
    requires c <= n <= |es|
  {
    forall i | 0 <= i < n :: PendingFrom(s, es, i, c, n)
  }

  ghost predicate PendingFrom(s: State, es: seq<Event>, i: nat, c: nat, n: nat)
    requires i < n <= |es|
  {
    i >= c <==> FateOf(s, es, i, n) == Pending
  }

  lemma {:induction false} CutExists(s: State, es: seq<Event>, n: nat) returns (c: nat)
    requires n <= |es|
    ensures c <= n && Cut(s, es, c, n)
  {
    if n == 0 {
      c := 0;
    } else {
      var c0 := CutExists(s, es, n - 1);
      c := if Ends(s, es, n - 1) || es[n - 1] == Discard then n - 1 else c0;
      forall i | 0 <= i < n ensures PendingFrom(s, es, i, c, n) {
        if i < n - 1 {
          assert PendingFrom(s, es, i, c0, n - 1);
        }
      }
    }
  }

  /** One log, when the buffer is emptied. */
  lemma FateMoves(s: State, es: seq<Event>, i: nat, n: nat, c: nat, met: Fate)
    requires i + 1 < n <= |es| && c < n && PendingFrom(s, es, i, c, n - 1)
    requires met == (if Ends(s, es, n - 1) then Sent else Dropped) && (Ends(s, es, n - 1) || es[n - 1] == Discard)
    ensures FateOf(s, es, i, n) == if i < c then FateOf(s, es, i, n - 1) else met
    ensures FateOf(s, es, i, n - 1) == Pending <==> i >= c
  {
  }

  /** The event with which the buffer is emptied, and the fate it brings. */
  ghost predicate Empties(s: State, es: seq<Event>, n: nat, c: nat, met: Fate)
    requires 0 < n <= |es|
  {
    && c < n && Cut(s, es, c, n - 1)
    && met == (if Ends(s, es, n - 1) then Sent else Dropped)
    && (Ends(s, es, n - 1) || es[n - 1] == Discard)
  }

  /** Before it, what waits has come after the cut; after it, nothing waits. */
  lemma {:induction false} NothingWaits(s: State, es: seq<Event>, hi: nat, n: nat, c: nat, met: Fate)
    requires hi < n <= |es| && Empties(s, es, n, c, met)
    ensures hi <= c ==> Logs(s, es, hi, n - 1, Pending) == []
    ensures Logs(s, es, hi, n, Pending) == []
    decreases hi
  {
    if hi > 0 {
      NothingWaits(s, es, hi - 1, n, c, met);
      assert PendingFrom(s, es, hi - 1, c, n - 1);
      FateMoves(s, es, hi - 1, n, c, met);
    }
  }

  /** What has met another fate stays as it is. */
  lemma {:induction false} OthersStay(s: State, es: seq<Event>, hi: nat, n: nat, c: nat, met: Fate, f: Fate)
    requires hi < n <= |es| && Empties(s, es, n, c, met) && f != met && f != Pending
    ensures Logs(s, es, hi, n, f) == Logs(s, es, hi, n - 1, f)
    decreases hi
  {
    if hi > 0 {
      OthersStay(s, es, hi - 1, n, c, met, f);
      assert PendingFrom(s, es, hi - 1, c, n - 1);
      FateMoves(s, es, hi - 1, n, c, met);
    }
  }

  /** What was pending meets the fate `met`, behind what had met it before. */
  lemma {:induction false} FatesMove(s: State, es: seq<Event>, hi: nat, n: nat, c: nat, met: Fate)
    requires hi < n <= |es| && Empties(s, es, n, c, met)
    ensures Logs(s, es, hi, n, met) == Logs(s, es, hi, n - 1, met) + Logs(s, es, hi, n - 1, Pending)
    decreases hi
  {
    if hi > 0 {
      var i := hi - 1;
      var sent, waiting := Logs(s, es, i, n - 1, met), Logs(s, es, i, n - 1, Pending);
      FatesMove(s, es, i, n, c, met);
      assert PendingFrom(s, es, i, c, n - 1);
      FateMoves(s, es, i, n, c, met);
      NothingWaits(s, es, i, n, c, met);
      if i >= c && Accepted(s, es, i) {
        assert (sent + waiting) + [es[i].log] == sent + (waiting + [es[i].log]);
      }
    }
  }

  /** Right after SetActions, with nothing in the buffer; a transaction or a capture may be open. */
  ghost predicate Fresh(s: State) {
    s.currentIdx == 0 && s.logIndex == 0 && s.pendingLogs == [] && s.forwarded == [] && s.begun == []
  }

  lemma FlushedConcat(a: seq<nat>, b: seq<nat>, from: nat)
    ensures Flushed(a + b, from) == Flushed(a, from) + Flushed(b, from + |a|)
  {
  }

  lemma EmptiesBuffer(s: State, es: seq<Event>, n: nat, c: nat)
    requires 1 < n <= |es| && c < n && Cut(s, es, c, n - 1) && (Ends(s, es, n - 1) || es[n - 1] == Discard)
    ensures Logs(s, es, n, n, Pending) == []
    ensures
      var sent, waiting := Logs(s, es, n - 1, n - 1, Sent), Logs(s, es, n - 1, n - 1, Pending);
      Logs(s, es, n, n, Sent) == (if Ends(s, es, n - 1) then sent + waiting else sent)
      && Flushed(sent + waiting, 0) == Flushed(sent, 0) + Flushed(waiting, |sent|)
  {
    var met := if Ends(s, es, n - 1) then Sent else Dropped;
    NothingWaits(s, es, n - 1, n, c, met);
    if met == Sent {
      FatesMove(s, es, n - 1, n, c, met);
    } else {
      OthersStay(s, es, n - 1, n, c, met, Sent);
    }
    FlushedConcat(Logs(s, es, n - 1, n - 1, Sent), Logs(s, es, n - 1, n - 1, Pending), 0);
  }

  /** The tracer has done with every log as its fate demands. */
  ghost predicate FatesMet(s: State, es: seq<Event>, n: nat)
    requires n <= |es|
  {
    var t := After(s, es, n);
    && t.pendingLogs == Logs(s, es, n, n, Pending)
    && t.forwarded == Flushed(Logs(s, es, n, n, Sent), 0)
    && t.logIndex == |t.forwarded|
  }

  lemma MetByEmptying(s: State, es: seq<Event>, n: nat)
    requires 0 < n <= |es| && FatesMet(s, es, n - 1) && (Ends(s, es, n - 1) || es[n - 1] == Discard)
    ensures FatesMet(s, es, n)
  {
    FlagsMean(s, es, n - 1);
    var c := CutExists(s, es, n - 1);
    if n > 1 {
      EmptiesBuffer(s, es, n, c);
    }
  }

  lemma MetByOther(s: State, es: seq<Event>, n: nat)
    requires 0 < n <= |es| && FatesMet(s, es, n - 1) && !Ends(s, es, n - 1) && es[n - 1] != Discard
    ensures FatesMet(s, es, n)
  {
    FlagsMean(s, es, n - 1);
    FatesStay(s, es, n - 1, n, Sent);
    FatesStay(s, es, n - 1, n, Pending);
  }

  /**
   After any events: the buffer holds the accepted logs that still wait, the inner tracer has got
   those that were sent, in the order of their acceptance and with the indices 0, 1, 2 and so on.
   A dropped log is in neither, and no index is spent on it.
   */
  lemma {:induction false} EveryLogMeetsItsFate(s: State, es: seq<Event>, n: nat)
    requires n <= |es| && Fresh(s)
    ensures FatesMet(s, es, n)
  {
    if n > 0 {
      EveryLogMeetsItsFate(s, es, n - 1);
      if Ends(s, es, n - 1) || es[n - 1] == Discard {
        MetByEmptying(s, es, n);
      } else {
        MetByOther(s, es, n);
      }
    }
  }

  /** The start of a transaction that was not open. */
  ghost predicate Begins(s: State, es: seq<Event>, i: nat)
    requires i < |es|
  {
    es[i] == TxStart && !TxOpen(s.txStarted, es, i)
  }

  ghost function EndCount(s: State, es: seq<Event>, n: nat): nat
    requires n <= |es|
  {
    if n == 0 then 0 else EndCount(s, es, n - 1) + if Ends(s, es, n - 1) then 1 else 0
  }

  ghost function BeginCount(s: State, es: seq<Event>, n: nat): nat
    requires n <= |es|
  {
    if n == 0 then 0 else BeginCount(s, es, n - 1) + if Begins(s, es, n - 1) then 1 else 0
  }

  function One(b: bool): nat {
    if b then 1 else 0
  }

  /** However often start and end are repeated: the index of the current action counts the pairs. */
  lemma {:induction false} PairsCountOnce(s: State, es: seq<Event>, n: nat)
    requires n <= |es| && Fresh(s)
    ensures
      var t := After(s, es, n);
      && t.currentIdx == EndCount(s, es, n)
      && One(s.txStarted) + BeginCount(s, es, n) == EndCount(s, es, n) + One(t.txStarted)
  {
    if n > 0 {
      PairsCountOnce(s, es, n - 1);
      FlagsMean(s, es, n - 1);
      OpenNext(s.captureStarted, s.txStarted, es, n);
      FlagsMean(s, es, n);
    }
  }

  /**
   The actions that the first `n` events begin: at each start of a transaction that was not open, the
   action whose turn it is by the number of transactions ended, if it is a transaction.
   */
  ghost function Begun(s: State, es: seq<Event>, n: nat): seq<nat>
    requires n <= |es|
  {
    if n == 0 then []
    else
      var turn := EndCount(s, es, n - 1);
      Begun(s, es, n - 1) +
      if Begins(s, es, n - 1) && turn < |s.actions| && s.actions[turn] then [turn] else []
  }

  /** Exactly these have been begun with the inner tracer, in this order. */
  lemma {:induction false} EveryStartBegins(s: State, es: seq<Event>, n: nat)
    requires n <= |es| && Fresh(s)
    ensures After(s, es, n).begun == Begun(s, es, n)
  {
    if n > 0 {
      EveryStartBegins(s, es, n - 1);
      PairsCountOnce(s, es, n - 1);
      AlwaysInOrder(s, es, n - 1);
      FlagsMean(s, es, n - 1);
    }
  }

  /** Transactions were opened in the order of the actions, at most one for each that is one. */
  ghost predicate BegunInOrder(t: State) {
    && (forall k :: 0 <= k < |t.begun| ==>
          t.begun[k] < t.currentIdx + One(t.txStarted) && t.begun[k] < |t.actions| && t.actions[t.begun[k]])
    && forall k, m :: 0 <= k < m < |t.begun| ==> t.begun[k] < t.begun[m]
  }

  lemma NextKeepsOrder(t: State, e: Event)
    requires BegunInOrder(t)
    ensures BegunInOrder(Next(t, e)) && Next(t, e).actions == t.actions
  {
  }

  /** A duplicate start opens nothing again. */
  lemma {:induction false} AlwaysInOrder(s: State, es: seq<Event>, n: nat)
    requires n <= |es| && Fresh(s)
    ensures BegunInOrder(After(s, es, n)) && After(s, es, n).actions == s.actions
  {
    if n > 0 {
      AlwaysInOrder(s, es, n - 1);
      NextKeepsOrder(After(s, es, n - 1), es[n - 1]);
    }
  }
}
