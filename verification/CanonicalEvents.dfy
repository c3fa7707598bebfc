/**
 The events of a block as they are rebuilt from its receipts: logs carry the indices they were
 stamped with, native transfers are numbered behind all logs of the block. Every event is bound to
 a trace: to the frame that emitted it if that is known, otherwise to the root of its transaction.
 */
module CanonicalEvents {
  import opened Actions
  import opened ReceiptIndices

  datatype Event = Event(payload: nat, logIndex: nat, parentTraceID: string, position: int, id: string)

  datatype Binding = Binding(parentTraceID: string, position: int, id: string)

  /** What the traces say: bindings by transaction and place, root traces, and the hash for identifiers. */
  datatype Attribution = Attribution(
    bindings: map<(string, nat), Binding>,
    roots: map<string, string>,
    toHash: (string, nat) -> string)

  // ---------- the events as a value ----------

  predicate HasRoot(att: Attribution, txID: string) {
    txID in att.roots && att.roots[txID] != ""
  }

  /** Place `inTx` of a transaction, bound; `logIdx` is its place in the block. */
  function Bound(att: Attribution, l: LogData, txID: string, inTx: nat, logIdx: nat): Event {
    if (txID, inTx) in att.bindings then
      var b := att.bindings[(txID, inTx)];
      Event(l.payload, l.index, b.parentTraceID, b.position, b.id)
    else if HasRoot(att, txID) then
      var root := att.roots[txID];
      Event(l.payload, l.index, root, logIdx, att.toHash(root, logIdx))
    else Event(l.payload, l.index, "", 0, "")
  }

  /** An event, which bucket it belongs to, and whether it is bound to the root trace for want of a frame. */
  datatype Emission = Emission(event: Event, success: bool, fallback: bool)

  function EmittedLogs(att: Attribution, logs: seq<LogData>, success: bool, txID: string, inTx: nat,
                       logIdx: nat): (es: seq<Emission>)
    ensures |es| == |logs|
  {
    seq(|logs|, j requires 0 <= j < |logs| =>
      Emission(Bound(att, logs[j], txID, inTx + j, logIdx + j), success,
               (txID, inTx + j) !in att.bindings && HasRoot(att, txID)))
  }

  function EmittedBy(att: Attribution, r: ReceiptData, txID: string, start: nat, logIdx: nat): seq<Emission> {
    EmittedLogs(att, r.logs, r.success, txID, 0, logIdx) +
    match Converted(r.transfers, r.txIndex, start)
    case Some(logs) => EmittedLogs(att, logs, r.success, txID, |r.logs|, logIdx + |r.logs|)
    case None => []
  }

  /** Where the numbering of a receipt's transfers starts. */
  function TransferStart(rs: Receipts, i: nat): nat
    requires i <= |rs|
  {
    LogsBefore(rs, |rs|) + TransfersBefore(rs, i)
  }

  /** What the first `n` receipts emit, in order. */
  function Emitted(att: Attribution, rs: Receipts, txIDs: seq<string>, n: nat): seq<Emission>
    requires n <= |rs| == |txIDs|
  {
    if n == 0 then []
    else
      var before := Emitted(att, rs, txIDs, n - 1);
      match rs[n - 1]
      case None => before
      case Some(r) => before + EmittedBy(att, r, txIDs[n - 1], TransferStart(rs, n - 1), |before|)
  }

  /** The events of one bucket. */
  function Bucket(es: seq<Emission>, success: bool): seq<Event> {
    if es == [] then []
    else Bucket(es[..|es| - 1], success) + if es[|es| - 1].success == success then [es[|es| - 1].event] else []
  }

  // ---------- the builder ----------

  class Builder {
    const att: Attribution
    var events: seq<Event>
    var errEvents: seq<Event>
    var logIdx: nat

    /** The builder holds the events of `es`, by bucket. */
    ghost predicate Holds(es: seq<Emission>)
      reads this
    {
      events == Bucket(es, true) && errEvents == Bucket(es, false) && logIdx == |es|
    }

    constructor (att: Attribution)
      ensures Holds([]) && this.att == att
    {
      this.att, events, errEvents, logIdx := att, [], [], 0;
    }

    /** The list of this status has grown by `n` events, and the other one is as it was. */
    twostate predicate Grown(success: bool, n: nat)
      reads this
    {
      if success then errEvents == old(errEvents) && old(events) <= events && |events| == |old(events)| + n
      else events == old(events) && old(errEvents) <= errEvents && |errEvents| == |old(errEvents)| + n
    }

    /** One of the two loops of appendFromReceipt. */
    method AppendLogs(logs: seq<LogData>, success: bool, txID: string, inTx: nat, ghost es: seq<Emission>)
      requires Holds(es)
      modifies this
      ensures Holds(es + EmittedLogs(att, logs, success, txID, inTx, |es|))
      ensures Grown(success, |logs|)
    {
      var inTxPos := inTx;
      ghost var more := EmittedLogs(att, logs, success, txID, inTx, |es|);
      assert es + more[..0] == es;
      for i := 0 to |logs|
        invariant inTxPos == inTx + i && Holds(es + more[..i]) && Grown(success, i)
      {
        var ev := Bind(logs[i], txID, inTxPos);
        assert (es + more[..i + 1])[..|es| + i] == es + more[..i];
        if success {
          events := events + [ev];
        } else {
          errEvents := errEvents + [ev];
        }
        logIdx := logIdx + 1;
        inTxPos := inTxPos + 1;
      }
      assert more[..|logs|] == more;
    }

    /** The precise binding, or applyFallbackBinding */
    function Bind(l: LogData, txID: string, inTxPos: nat): Event
      reads this
    {
      Bound(att, l, txID, inTxPos, logIdx)
    }

    /** appendFromReceipt */
    method AppendFromReceipt(r: ReceiptData, txID: string, transferLogStartIdx: nat, ghost es: seq<Emission>)
      requires Holds(es)
      modifies this
      ensures Holds(es + EmittedBy(att, r, txID, transferLogStartIdx, |es|))
      ensures Grown(r.success, EventCount(r))
    {
      AppendLogs(r.logs, r.success, txID, 0, es);
      ghost var es1 := es + EmittedLogs(att, r.logs, r.success, txID, 0, |es|);
      var transferLogs := Converted(r.transfers, r.txIndex, transferLogStartIdx);
      if transferLogs.Some? {
        AppendLogs(transferLogs.value, r.success, txID, |r.logs|, es1);
        assert es1 + EmittedLogs(att, transferLogs.value, r.success, txID, |r.logs|, |es1|)
            == es + EmittedBy(att, r, txID, transferLogStartIdx, |es|);
      } else {
        assert es1 == es + EmittedBy(att, r, txID, transferLogStartIdx, |es|);
      }
    }
  }

  /** buildCanonicalEvents */
  method BuildCanonicalEvents(att: Attribution, receipts: Receipts, txIDs: seq<string>)
    returns (successEvents: seq<Event>, errorEvents: seq<Event>)
    ensures |receipts| != |txIDs| ==> successEvents == [] && errorEvents == []
    ensures |receipts| == |txIDs| ==>
              && successEvents == Sorted(Bucket(Emitted(att, receipts, txIDs, |receipts|), true))
              && errorEvents == Sorted(Bucket(Emitted(att, receipts, txIDs, |receipts|), false))
    ensures |receipts| == |txIDs| ==> Canonical(att, receipts, txIDs, successEvents, errorEvents)
  {
    if |receipts| != |txIDs| {
      return [], [];
    }
    var totalEVMLogs := 0;
    for i := 0 to |receipts|
      invariant totalEVMLogs == LogsBefore(receipts, i)
    {
      totalEVMLogs := totalEVMLogs + LogCount(receipts[i]);
    }
    var b := new Builder(att);
    var priorTxLogs := 0;
    for i := 0 to |receipts|
      invariant priorTxLogs == TransfersBefore(receipts, i) && b.Holds(Emitted(att, receipts, txIDs, i))
    {
      if receipts[i].Some? {
        var r := receipts[i].value;
        b.AppendFromReceipt(r, txIDs[i], totalEVMLogs + priorTxLogs, Emitted(att, receipts, txIDs, i));
        priorTxLogs := priorTxLogs + |r.transfers|;
      }
    }
    successEvents, errorEvents := Sorted(b.events), Sorted(b.errEvents);
    EventsAreCanonical(att, receipts, txIDs, successEvents, errorEvents);
  }

  // ---------- sorting ----------

  function Insert(e: Event, s: seq<Event>): seq<Event> {
    if s == [] then [e]
    else if s[|s| - 1].logIndex <= e.logIndex then s + [e]
    else Insert(e, s[..|s| - 1]) + [s[|s| - 1]]
  }

  /** A stable sort by log index */
  function Sorted(s: seq<Event>): seq<Event> {
    if s == [] then [] else Insert(s[|s| - 1], Sorted(s[..|s| - 1]))
  }

  ghost predicate Ascending(s: seq<Event>) {
    forall i, j :: 0 <= i < j < |s| ==> s[i].logIndex < s[j].logIndex
  }

  ghost predicate DistinctIndices(s: seq<Event>) {
    forall i, j :: 0 <= i < j < |s| ==> s[i].logIndex != s[j].logIndex
  }

  lemma {:induction false} InsertKeeps(e: Event, s: seq<Event>)
    ensures multiset(Insert(e, s)) == multiset(s) + multiset{e}
    ensures forall x :: x in Insert(e, s) <==> x == e || x in s
    decreases |s|
  {
    if s != [] {
      var init, last := s[..|s| - 1], s[|s| - 1];
      assert s == init + [last];
      if last.logIndex > e.logIndex {
        InsertKeeps(e, init);
      }
    }
  }

  lemma {:induction false} InsertAscends(e: Event, s: seq<Event>)
    requires Ascending(s) && forall x | x in s :: x.logIndex != e.logIndex
    ensures Ascending(Insert(e, s))
    decreases |s|
  {
    if s != [] && s[|s| - 1].logIndex > e.logIndex {
      var init, last := s[..|s| - 1], s[|s| - 1];
      InsertAscends(e, init);
      InsertKeeps(e, init);
      forall x | x in Insert(e, init) ensures x.logIndex < last.logIndex {
        assert x == e || x in init;
      }
    }
  }

  /** Sorting events with distinct indices puts them in strictly ascending order and loses none. */
  lemma {:induction false} SortedAscends(s: seq<Event>)
    requires DistinctIndices(s)
    ensures Ascending(Sorted(s)) && multiset(Sorted(s)) == multiset(s)
    decreases |s|
  {
    if s != [] {
      var init, last := s[..|s| - 1], s[|s| - 1];
      assert s == init + [last];
      SortedAscends(init);
      forall x | x in Sorted(init) ensures x.logIndex != last.logIndex {
        assert x in multiset(Sorted(init));
        assert x in init;
      }
      InsertAscends(last, Sorted(init));
      InsertKeeps(last, Sorted(init));
    }
  }

  /** Sorting changes no membership. */
  lemma {:induction false} SortedMembers(s: seq<Event>, x: Event)
    ensures x in Sorted(s) <==> x in s
    ensures |Sorted(s)| == |s|
    decreases |s|
  {
    if s != [] {
      var init, last := s[..|s| - 1], s[|s| - 1];
      assert s == init + [last];
      SortedMembers(init, x);
      InsertKeeps(last, Sorted(init));
      InsertCount(last, Sorted(init));
    }
  }

  lemma {:induction false} InsertCount(e: Event, s: seq<Event>)
    ensures |Insert(e, s)| == |s| + 1
    decreases |s|
  {
    if s != [] && s[|s| - 1].logIndex > e.logIndex {
      InsertCount(e, s[..|s| - 1]);
    }
  }

  // ---------- the indices of a stamped block ----------

  /** The indices are distinct, and lie below `l` or among the `x` from `t` on. */
  ghost predicate Placed(es: seq<Emission>, l: nat, t: nat, x: nat) {
    && (forall k {:trigger es[k]} | 0 <= k < |es| :: es[k].event.logIndex < l || t <= es[k].event.logIndex < t + x)
    && forall k, m {:trigger es[k], es[m]} | 0 <= k < m < |es| :: es[k].event.logIndex != es[m].event.logIndex
  }

  lemma PlacedFurther(a: seq<Emission>, b: seq<Emission>, l: nat, t: nat, x: nat, l': nat, x': nat)
    requires Placed(a, l, t, x) && l <= l' <= t && x <= x'
    requires forall k {:trigger b[k]} | 0 <= k < |b| ::
               l <= b[k].event.logIndex < l' || t + x <= b[k].event.logIndex < t + x'
    requires forall k, m {:trigger b[k], b[m]} | 0 <= k < m < |b| :: b[k].event.logIndex != b[m].event.logIndex
    ensures Placed(a + b, l', t, x')
  {
    forall k {:trigger (a + b)[k]} | 0 <= k < |a + b|
      ensures (a + b)[k] == if k < |a| then a[k] else b[k - |a|]
    {
    }
  }

  lemma EmittedByAt(att: Attribution, r: ReceiptData, txID: string, start: nat, logIdx: nat, tx: nat, l: nat, k: nat)
    requires NumberedData(r, tx, l) && k < |EmittedBy(att, r, txID, start, logIdx)|
    ensures
      var e := EmittedBy(att, r, txID, start, logIdx)[k];
      && e.event.logIndex == (if k < |r.logs| then l + k else start + (k - |r.logs|))
      && k < |r.logs| + |r.transfers|
      && (e.fallback ==> e.event.position == logIdx + k)
  {
  }

  /** The logs' indices and the transfers' indices do not meet, in any prefix of the block. */
  lemma {:induction false} EmittedIsPlaced(att: Attribution, rs: Receipts, txIDs: seq<string>, n: nat)
    requires n <= |rs| == |txIDs| && Stamped(rs)
    ensures Placed(Emitted(att, rs, txIDs, n), LogsBefore(rs, n), LogsBefore(rs, |rs|), TransfersBefore(rs, n))
    ensures forall k :: 0 <= k < |Emitted(att, rs, txIDs, n)| && Emitted(att, rs, txIDs, n)[k].fallback ==>
              Emitted(att, rs, txIDs, n)[k].event.position == k
  {
    if n > 0 {
      EmittedIsPlaced(att, rs, txIDs, n - 1);
      if rs[n - 1].Some? {
        var r, before, t := rs[n - 1].value, Emitted(att, rs, txIDs, n - 1), LogsBefore(rs, |rs|);
        var more := EmittedBy(att, r, txIDs[n - 1], TransferStart(rs, n - 1), |before|);
        forall k | 0 <= k < |more|
          ensures more[k].event.logIndex ==
                  if k < |r.logs| then LogsBefore(rs, n - 1) + k else TransferStart(rs, n - 1) + (k - |r.logs|)
          ensures k < |r.logs| + |r.transfers| && (more[k].fallback ==> more[k].event.position == |before| + k)
        {
          assert StampedAt(rs, n - 1);
          EmittedByAt(att, r, txIDs[n - 1], TransferStart(rs, n - 1), |before|, n - 1, LogsBefore(rs, n - 1), k);
        }
        LogsGrow(rs, n, |rs|);
        PlacedFurther(before, more, LogsBefore(rs, n - 1), t, TransfersBefore(rs, n - 1),
                      LogsBefore(rs, n), TransfersBefore(rs, n));
      }
    }
  }

  lemma {:induction false} BucketHas(es: seq<Emission>, success: bool, x: Event)
    ensures x in Bucket(es, success) <==> exists k :: 0 <= k < |es| && es[k].success == success && es[k].event == x
    decreases |es|
  {
    if es != [] {
      var init := es[..|es| - 1];
      BucketHas(init, success, x);
      if x in Bucket(init, success) {
        var k :| 0 <= k < |init| && init[k].success == success && init[k].event == x;
        assert es[k] == init[k];
      }
      forall k | 0 <= k < |es| && es[k].success == success && es[k].event == x ensures x in Bucket(es, success) {
        assert k < |init| ==> init[k] == es[k];
      }
    }
  }

  lemma {:induction false} BucketIsDistinct(es: seq<Emission>, success: bool)
    requires forall k, m {:trigger es[k], es[m]} | 0 <= k < m < |es| :: es[k].event.logIndex != es[m].event.logIndex
    ensures DistinctIndices(Bucket(es, success))
    decreases |es|
  {
    if es != [] {
      var init, last := es[..|es| - 1], es[|es| - 1];
      BucketIsDistinct(init, success);
      forall x | x in Bucket(init, success) ensures x.logIndex != last.event.logIndex {
        BucketHas(init, success, x);
      }
    }
  }

  lemma {:induction false} BucketsShareOut(es: seq<Emission>)
    ensures |Bucket(es, true)| + |Bucket(es, false)| == |es|
    decreases |es|
  {
    if es != [] {
      BucketsShareOut(es[..|es| - 1]);
    }
  }

  /** An event of a sorted bucket is an emission of the block. */
  lemma SortedHas(es: seq<Emission>, success: bool, x: Event) returns (k: nat)
    requires x in Sorted(Bucket(es, success))
    ensures k < |es| && es[k].success == success && es[k].event == x
  {
    SortedMembers(Bucket(es, success), x);
    BucketHas(es, success, x);
    k :| 0 <= k < |es| && es[k].success == success && es[k].event == x;
  }

  /** No index occurs in both sorted buckets. */
  lemma SortedApart(es: seq<Emission>)
    requires forall k, m {:trigger es[k], es[m]} | 0 <= k < m < |es| :: es[k].event.logIndex != es[m].event.logIndex
    ensures forall e, f | e in Sorted(Bucket(es, true)) && f in Sorted(Bucket(es, false)) :: e.logIndex != f.logIndex
  {
    forall e, f | e in Sorted(Bucket(es, true)) && f in Sorted(Bucket(es, false)) ensures e.logIndex != f.logIndex {
      var k := SortedHas(es, true, e);
      var m := SortedHas(es, false, f);
    }
  }

  lemma SortedBelow(es: seq<Emission>, success: bool, bound: nat)
    requires forall k | 0 <= k < |es| :: es[k].event.logIndex < bound
    ensures forall e | e in Sorted(Bucket(es, success)) :: e.logIndex < bound
  {
    forall e | e in Sorted(Bucket(es, success)) ensures e.logIndex < bound {
      var k := SortedHas(es, success, e);
    }
  }

  /**
   For any stamped block: both lists ascend strictly, no index occurs in both, every index is below
   the number of logs and transfers, and together the lists hold every emitted event.
   */
  lemma CanonicalIndices(att: Attribution, rs: Receipts, txIDs: seq<string>)
    requires |rs| == |txIDs| && Stamped(rs)
    ensures
      var es := Emitted(att, rs, txIDs, |rs|);
      var good, bad := Sorted(Bucket(es, true)), Sorted(Bucket(es, false));
      && Ascending(good) && Ascending(bad)
      && (forall e, f | e in good && f in bad :: e.logIndex != f.logIndex)
      && (forall e | e in good || e in bad :: e.logIndex < TransferStart(rs, |rs|))
      && |good| + |bad| == |es|
      && multiset(good) == multiset(Bucket(es, true)) && multiset(bad) == multiset(Bucket(es, false))
  {
    var es := Emitted(att, rs, txIDs, |rs|);
    var good, bad := Sorted(Bucket(es, true)), Sorted(Bucket(es, false));
    EmittedIsPlaced(att, rs, txIDs, |rs|);
    BucketIsDistinct(es, true);
    BucketIsDistinct(es, false);
    SortedAscends(Bucket(es, true));
    SortedAscends(Bucket(es, false));
    BucketsShareOut(es);
    assert |good| == |multiset(good)| == |Bucket(es, true)| && |bad| == |multiset(bad)| == |Bucket(es, false)|;
    SortedApart(es);
    SortedBelow(es, true, TransferStart(rs, |rs|));
    SortedBelow(es, false, TransferStart(rs, |rs|));
  }

  // ---------- where every event comes from ----------

  predicate AllConvert(r: ReceiptData) {
    forall k | 0 <= k < |r.transfers| :: r.transfers[k].convertible
  }

  /** A receipt has an event for each log, and for each transfer if all of them convert. */
  function EventCount(r: ReceiptData): nat {
    |r.logs| + if AllConvert(r) then |r.transfers| else 0
  }

  function EventsBefore(rs: Receipts, n: nat): nat
    requires n <= |rs|
  {
    if n == 0 then 0 else EventsBefore(rs, n - 1) + if rs[n - 1].Some? then EventCount(rs[n - 1].value) else 0
  }

  /**
   `e` has this payload and index. It is bound to the frame that is known for place `inTx` of the
   transaction, otherwise to the transaction's root trace under its place in the block, if there is a
   root trace, otherwise to nothing.
   */
  ghost predicate IsEvent(att: Attribution, txID: string, inTx: nat, place: nat, payload: nat, index: nat, e: Event) {
    && e.payload == payload && e.logIndex == index
    && if (txID, inTx) in att.bindings then
         && e.parentTraceID == att.bindings[(txID, inTx)].parentTraceID
         && e.position == att.bindings[(txID, inTx)].position
         && e.id == att.bindings[(txID, inTx)].id
       else if txID in att.roots && att.roots[txID] != "" then
         && e.parentTraceID == att.roots[txID] && e.position == place
         && e.id == att.toHash(att.roots[txID], place)
       else e.parentTraceID == "" && e.position == 0 && e.id == ""
  }

  /** `e` is the event of the k-th log or, behind the logs, transfer of receipt `i`. */
  ghost predicate IsEventOf(att: Attribution, rs: Receipts, txIDs: seq<string>, i: nat, k: nat, e: Event)
    requires i < |rs| == |txIDs| && rs[i].Some? && k < EventCount(rs[i].value)
  {
    var r, place := rs[i].value, EventsBefore(rs, i) + k;
    if k < |r.logs| then IsEvent(att, txIDs[i], k, place, r.logs[k].payload, r.logs[k].index, e)
    else
      var t := k - |r.logs|;
      IsEvent(att, txIDs[i], k, place, r.transfers[t].payload, LogsBefore(rs, |rs|) + TransfersBefore(rs, i) + t, e)
  }

  /** The k-th log or transfer of receipt `i` has its event, in the bucket of the receipt's status. */
  ghost predicate HasEvent(att: Attribution, rs: Receipts, txIDs: seq<string>, i: nat, k: nat,
                           good: seq<Event>, bad: seq<Event>)
    requires i < |rs| == |txIDs| && rs[i].Some? && k < EventCount(rs[i].value)
  {
    exists e :: e in (if rs[i].value.success then good else bad) && IsEventOf(att, rs, txIDs, i, k, e)
  }

  /** The event comes from a log or a transfer of a receipt with this status. */
  ghost predicate HasSource(att: Attribution, rs: Receipts, txIDs: seq<string>, e: Event, success: bool)
    requires |rs| == |txIDs|
  {
    exists i, k :: 0 <= i < |rs| && rs[i].Some? && rs[i].value.success == success &&
                   0 <= k < EventCount(rs[i].value) && IsEventOf(att, rs, txIDs, i, k, e)
  }

  /**
   The two lists hold exactly the events of the block, said of its receipts: every log and every
   transfer has its event in the list of its receipt's status, every event comes from one, and there are
   as many events as there should be.
   */
  ghost predicate Canonical(att: Attribution, rs: Receipts, txIDs: seq<string>, good: seq<Event>, bad: seq<Event>)
    requires |rs| == |txIDs|
  {
    && (forall i, k | 0 <= i < |rs| && rs[i].Some? && 0 <= k < EventCount(rs[i].value) ::
          HasEvent(att, rs, txIDs, i, k, good, bad))
    && (forall e | e in good :: HasSource(att, rs, txIDs, e, true))
    && (forall e | e in bad :: HasSource(att, rs, txIDs, e, false))
    && |good| + |bad| == EventsBefore(rs, |rs|)
  }

  lemma {:induction false} EmittedCount(att: Attribution, rs: Receipts, txIDs: seq<string>, n: nat)
    requires n <= |rs| == |txIDs|
    ensures |Emitted(att, rs, txIDs, n)| == EventsBefore(rs, n)
  {
    if n > 0 {
      EmittedCount(att, rs, txIDs, n - 1);
    }
  }

  /** The emission of the k-th log or transfer of receipt `i`. */
  ghost predicate IsEmissionOf(att: Attribution, rs: Receipts, txIDs: seq<string>, i: nat, k: nat, e: Emission)
    requires i < |rs| == |txIDs| && rs[i].Some? && k < EventCount(rs[i].value)
  {
    match e
    case Emission(event, success, _) => success == rs[i].value.success && IsEventOf(att, rs, txIDs, i, k, event)
  }

  /** What receipt `i` emits. */
  ghost function EmittedAt(att: Attribution, rs: Receipts, txIDs: seq<string>, i: nat): seq<Emission>
    requires i < |rs| == |txIDs| && rs[i].Some?
  {
    EmittedBy(att, rs[i].value, txIDs[i], TransferStart(rs, i), EventsBefore(rs, i))
  }

  lemma EmittedByIs(att: Attribution, rs: Receipts, txIDs: seq<string>, i: nat, k: nat)
    requires i < |rs| == |txIDs| && rs[i].Some? && k < EventCount(rs[i].value)
    ensures
      var es := EmittedAt(att, rs, txIDs, i);
      |es| == EventCount(rs[i].value) && IsEmissionOf(att, rs, txIDs, i, k, es[k])
  {
    if k < |rs[i].value.logs| {
    } else {
    }
  }

  lemma EmittedGrows(att: Attribution, rs: Receipts, txIDs: seq<string>, i: nat)
    requires i < |rs| == |txIDs|
    ensures Emitted(att, rs, txIDs, i + 1)
         == Emitted(att, rs, txIDs, i) + if rs[i].Some? then EmittedAt(att, rs, txIDs, i) else []
  {
    EmittedCount(att, rs, txIDs, i);
  }

  lemma EmittedGrowsOn(att: Attribution, rs: Receipts, txIDs: seq<string>, i: nat)
    requires i < |rs| == |txIDs|
    ensures Emitted(att, rs, txIDs, i) <= Emitted(att, rs, txIDs, i + 1)
  {
    EmittedGrows(att, rs, txIDs, i);
  }

  lemma StartsOn(a: seq<Emission>, b: seq<Emission>, c: seq<Emission>)
    requires a <= b <= c
    ensures a <= c
  {
  }

  lemma {:induction false} EmittedStarts(att: Attribution, rs: Receipts, txIDs: seq<string>, m: nat, n: nat)
    requires m <= n <= |rs| == |txIDs|
    ensures Emitted(att, rs, txIDs, m) <= Emitted(att, rs, txIDs, n)
    decreases n
  {
    if m < n {
      EmittedStarts(att, rs, txIDs, m, n - 1);
      EmittedGrowsOn(att, rs, txIDs, n - 1);
      StartsOn(Emitted(att, rs, txIDs, m), Emitted(att, rs, txIDs, n - 1), Emitted(att, rs, txIDs, n));
    }
  }

  /** The emission at the place of a log or transfer is its own. */
  lemma EmittedIs(att: Attribution, rs: Receipts, txIDs: seq<string>, i: nat, k: nat)
    requires i < |rs| == |txIDs| && rs[i].Some? && k < EventCount(rs[i].value)
    ensures
      var es, p := Emitted(att, rs, txIDs, |rs|), EventsBefore(rs, i) + k;
      p < |es| && IsEmissionOf(att, rs, txIDs, i, k, es[p])
  {
    EmittedCount(att, rs, txIDs, i);
    EmittedByIs(att, rs, txIDs, i, k);
    EmittedGrows(att, rs, txIDs, i);
    EmittedStarts(att, rs, txIDs, i + 1, |rs|);
    assert Emitted(att, rs, txIDs, i + 1)[EventsBefore(rs, i) + k] == EmittedAt(att, rs, txIDs, i)[k];
  }

  /** Every place is that of a log or transfer. */
  lemma {:induction false} PlaceHasSource(rs: Receipts, n: nat, p: nat) returns (i: nat, k: nat)
    requires n <= |rs| && p < EventsBefore(rs, n)
    ensures i < n && rs[i].Some? && k < EventCount(rs[i].value) && p == EventsBefore(rs, i) + k
    decreases n
  {
    if p < EventsBefore(rs, n - 1) {
      i, k := PlaceHasSource(rs, n - 1, p);
    } else {
      i, k := n - 1, p - EventsBefore(rs, n - 1);
    }
  }

  /** No emission is lost on the way to its list. */
  lemma EmissionIsListed(es: seq<Emission>, p: nat)
    requires p < |es|
    ensures es[p].event in Sorted(Bucket(es, es[p].success))
  {
    var success, e := es[p].success, es[p].event;
    BucketHas(es, success, e);
    SortedMembers(Bucket(es, success), e);
  }

  lemma ListedEvent(att: Attribution, rs: Receipts, txIDs: seq<string>, i: nat, k: nat, es: seq<Emission>, p: nat)
    requires i < |rs| == |txIDs| && rs[i].Some? && k < EventCount(rs[i].value)
    requires p < |es| && IsEmissionOf(att, rs, txIDs, i, k, es[p])
    ensures HasEvent(att, rs, txIDs, i, k, Sorted(Bucket(es, true)), Sorted(Bucket(es, false)))
  {
    EmissionIsListed(es, p);
    var e := es[p].event;
    assert e in (if rs[i].value.success then Sorted(Bucket(es, true)) else Sorted(Bucket(es, false)));
  }

  lemma EventOf(att: Attribution, rs: Receipts, txIDs: seq<string>, i: nat, k: nat, es: seq<Emission>)
    requires i < |rs| == |txIDs| && rs[i].Some? && k < EventCount(rs[i].value)
    requires es == Emitted(att, rs, txIDs, |rs|)
    ensures HasEvent(att, rs, txIDs, i, k, Sorted(Bucket(es, true)), Sorted(Bucket(es, false)))
  {
    EmittedIs(att, rs, txIDs, i, k);
    ListedEvent(att, rs, txIDs, i, k, es, EventsBefore(rs, i) + k);
  }

  lemma SourceOf(att: Attribution, rs: Receipts, txIDs: seq<string>, e: Event, success: bool)
    requires |rs| == |txIDs| && e in Sorted(Bucket(Emitted(att, rs, txIDs, |rs|), success))
    ensures HasSource(att, rs, txIDs, e, success)
  {
    var p := SortedHas(Emitted(att, rs, txIDs, |rs|), success, e);
    EmittedCount(att, rs, txIDs, |rs|);
    var i, k := PlaceHasSource(rs, |rs|, p);
    EmittedIs(att, rs, txIDs, i, k);
  }

  /** The rebuilt lists hold exactly the events of the block. */
  lemma EventsAreCanonical(att: Attribution, rs: Receipts, txIDs: seq<string>, good: seq<Event>, bad: seq<Event>)
    requires |rs| == |txIDs|
    requires good == Sorted(Bucket(Emitted(att, rs, txIDs, |rs|), true))
    requires bad == Sorted(Bucket(Emitted(att, rs, txIDs, |rs|), false))
    ensures Canonical(att, rs, txIDs, good, bad)
  {
    forall i, k | 0 <= i < |rs| && rs[i].Some? && 0 <= k < EventCount(rs[i].value)
      ensures HasEvent(att, rs, txIDs, i, k, good, bad)
    {
      EventOf(att, rs, txIDs, i, k, Emitted(att, rs, txIDs, |rs|));
    }
    forall e | e in good ensures HasSource(att, rs, txIDs, e, true) {
      SourceOf(att, rs, txIDs, e, true);
    }
    forall e | e in bad ensures HasSource(att, rs, txIDs, e, false) {
      SourceOf(att, rs, txIDs, e, false);
    }
    CanonicalCount(att, rs, txIDs);
  }

  lemma CanonicalCount(att: Attribution, rs: Receipts, txIDs: seq<string>)
    requires |rs| == |txIDs|
    ensures
      var es := Emitted(att, rs, txIDs, |rs|);
      |Sorted(Bucket(es, true))| + |Sorted(Bucket(es, false))| == EventsBefore(rs, |rs|)
  {
    var es := Emitted(att, rs, txIDs, |rs|);
    EmittedCount(att, rs, txIDs, |rs|);
    BucketsShareOut(es);
    SortedMembers(Bucket(es, true), Event(0, 0, "", 0, ""));
    SortedMembers(Bucket(es, false), Event(0, 0, "", 0, ""));
  }

  /** Nothing is missing either: if every transfer converts, there is an event for every index. */
  lemma {:induction false} EmittedIsComplete(att: Attribution, rs: Receipts, txIDs: seq<string>, n: nat)
    requires n <= |rs| == |txIDs|
    requires forall i, j {:trigger rs[i].value.transfers[j]} |
               0 <= i < n && rs[i].Some? && 0 <= j < |rs[i].value.transfers| ::
               rs[i].value.transfers[j].convertible
    ensures |Emitted(att, rs, txIDs, n)| == LogsBefore(rs, n) + TransfersBefore(rs, n)
  {
    if n > 0 {
      EmittedIsComplete(att, rs, txIDs, n - 1);
      if rs[n - 1].Some? {
        var r := rs[n - 1].value;
        assert forall j {:trigger r.transfers[j]} | 0 <= j < |r.transfers| :: rs[n - 1].value.transfers[j].convertible;
      }
    }
  }

  // ---------- eth_getTransactionReceipt ----------

  /** How many transfers are stored for an action. */
  function StoredCount(txLogMap: map<Hash, seq<TransferLog>>, actionHash: Hash): nat {
    if actionHash in txLogMap then |txLogMap[actionHash]| else 0
  }

  /** How many transfers are stored for the first `n` receipts. */
  function StoredBefore(rs: Receipts, txLogMap: map<Hash, seq<TransferLog>>, n: nat): nat
    requires n <= |rs|
  {
    if n == 0 then 0
    else
      StoredBefore(rs, txLogMap, n - 1) +
      if rs[n - 1].Some? then StoredCount(txLogMap, rs[n - 1].value.actionHash) else 0
  }

  /** The index of the block has every earlier receipt's transfers. */
  ghost predicate Recorded(rs: Receipts, txLogMap: map<Hash, seq<TransferLog>>, n: nat) {
    forall i {:trigger rs[i]} | 0 <= i < n && i < |rs| && rs[i].Some? ::
      StoredCount(txLogMap, rs[i].value.actionHash) == |rs[i].value.transfers|
  }

  lemma {:induction false} RecordedIsStored(rs: Receipts, txLogMap: map<Hash, seq<TransferLog>>, n: nat)
    requires n <= |rs| && Recorded(rs, txLogMap, n)
    ensures StoredBefore(rs, txLogMap, n) == TransfersBefore(rs, n)
  {
    if n > 0 {
      RecordedIsStored(rs, txLogMap, n - 1);
    }
  }

  /**
   The loop of getTransactionReceipt counts the stored transfers, the events of the block those of the
   receipts. The two starts for the transfers of receipt `target` are the same if and only if as many
   are stored for the earlier receipts as these have; so they are if each has its own stored.
   */
  method WebTransferStart(rs: Receipts, txLogMap: map<Hash, seq<TransferLog>>, target: nat) returns (logIndex: nat)
    requires Stamped(rs) && target < |rs| && rs[target].Some?
    requires forall i :: 0 <= i < |rs| ==> rs[i].Some?
    ensures logIndex == LogsBefore(rs, |rs|) + StoredBefore(rs, txLogMap, target)
    ensures logIndex == TransferStart(rs, target) <==> StoredBefore(rs, txLogMap, target) == TransfersBefore(rs, target)
    ensures Recorded(rs, txLogMap, target) ==> logIndex == TransferStart(rs, target)
  {
    var receipt := rs[target].value;
    assert StampedAt(rs, target);
    logIndex := 0;
    for i := 0 to |rs|
      invariant i <= target ==> logIndex == LogsBefore(rs, i) + StoredBefore(rs, txLogMap, i)
      invariant i > target ==> logIndex == LogsBefore(rs, i) + StoredBefore(rs, txLogMap, target)
    {
      var r := rs[i].value;
      assert StampedAt(rs, i);
      logIndex := logIndex + |r.logs|;
      if r.txIndex < receipt.txIndex {
        logIndex := logIndex + StoredCount(txLogMap, r.actionHash);
      }
    }
    if Recorded(rs, txLogMap, target) {
      RecordedIsStored(rs, txLogMap, target);
    }
  }
}
