/**
 Where log indices come from: receipts are stamped when a block is made, and the logs that stand
 for native transfers are numbered when they are asked for. Indices are unbounded here; those that
 are handed out stay below the number of logs and transfers in the block.
 */
module ReceiptIndices {
  import opened Actions

  datatype LogData = LogData(payload: nat, index: nat, txIndex: nat)

  /** A native transfer; its addresses may fail to parse. */
  datatype TransferLog = TransferLog(payload: nat, convertible: bool)

  datatype ReceiptData = ReceiptData(
    success: bool, actionHash: Hash, txIndex: nat, logs: seq<LogData>, transfers: seq<TransferLog>)

  /** A list of receipts may have holes. */
  type Receipts = seq<Option<ReceiptData>>

  function LogCount(r: Option<ReceiptData>): nat {
    if r.Some? then |r.value.logs| else 0
  }

  function TransferCount(r: Option<ReceiptData>): nat {
    if r.Some? then |r.value.transfers| else 0
  }

  /** How many logs the first `n` receipts hold. */
  function LogsBefore(rs: Receipts, n: nat): nat
    requires n <= |rs|
  {
    if n == 0 then 0 else LogsBefore(rs, n - 1) + LogCount(rs[n - 1])
  }

  function TransfersBefore(rs: Receipts, n: nat): nat
    requires n <= |rs|
  {
    if n == 0 then 0 else TransfersBefore(rs, n - 1) + TransferCount(rs[n - 1])
  }

  lemma {:induction false} LogsGrow(rs: Receipts, n: nat, m: nat)
    requires n <= m <= |rs|
    ensures LogsBefore(rs, n) <= LogsBefore(rs, m)
    decreases m
  {
    if n < m {
      LogsGrow(rs, n, m - 1);
    }
  }

  /** Every receipt knows its place, and every log its place among all logs of the block. */
  ghost predicate Stamped(rs: Receipts) {
    forall i | 0 <= i < |rs| :: StampedAt(rs, i)
  }

  ghost predicate StampedAt(rs: Receipts, i: nat)
    requires i < |rs|
  {
    rs[i].Some? ==> NumberedData(rs[i].value, i, LogsBefore(rs, i))
  }

  ghost predicate NumberedData(r: ReceiptData, tx: nat, start: nat) {
    r.txIndex == tx && forall j {:trigger r.logs[j]} | 0 <= j < |r.logs| :: r.logs[j].index == start + j
  }

  /** TransferLogs: one failing conversion fails all. */
  function Converted(transfers: seq<TransferLog>, txIndex: nat, start: nat): Option<seq<LogData>> {
    if forall j | 0 <= j < |transfers| :: transfers[j].convertible then
      Some(seq(|transfers|, j requires 0 <= j < |transfers| => LogData(transfers[j].payload, start + j, txIndex)))
    else None
  }

  /** TransferLogs gives an answer if every transfer converts: one log for each, numbered from `start` on. */
  ghost predicate AreConverted(transfers: seq<TransferLog>, txIndex: nat, start: nat, r: Option<seq<LogData>>) {
    match r
    case None => exists j :: 0 <= j < |transfers| && !transfers[j].convertible
    case Some(logs) =>
      && |logs| == |transfers|
      && forall j :: 0 <= j < |logs| ==>
           && transfers[j].convertible && logs[j].payload == transfers[j].payload
           && logs[j].index == start + j && logs[j].txIndex == txIndex
  }

  lemma ConvertedMeans(transfers: seq<TransferLog>, txIndex: nat, start: nat)
    ensures AreConverted(transfers, txIndex, start, Converted(transfers, txIndex, start))
  {
  }

  // ---------- the block as a whole ----------

  /** The logs of the first `n` receipts, one after the other. */
  ghost function AllLogs(rs: Receipts, n: nat): seq<LogData>
    requires n <= |rs|
  {
    if n == 0 then [] else AllLogs(rs, n - 1) + if rs[n - 1].Some? then rs[n - 1].value.logs else []
  }

  ghost function AllTransfers(rs: Receipts, n: nat): seq<TransferLog>
    requires n <= |rs|
  {
    if n == 0 then [] else AllTransfers(rs, n - 1) + if rs[n - 1].Some? then rs[n - 1].value.transfers else []
  }

  /** The counts are those of the logs and transfers, in the order of the block. */
  lemma {:induction false} CountsAreExact(rs: Receipts, n: nat)
    requires n <= |rs|
    ensures LogsBefore(rs, n) == |AllLogs(rs, n)| && TransfersBefore(rs, n) == |AllTransfers(rs, n)|
  {
    if n > 0 {
      CountsAreExact(rs, n - 1);
    }
  }

  /** Read from the first receipt to the last, the logs carry the numbers 0, 1, 2 and so on. */
  ghost predicate CountThrough(logs: seq<LogData>) {
    forall k :: 0 <= k < |logs| ==> logs[k].index == k
  }

  /** In a stamped block they do, and every receipt carries its own number. */
  lemma {:induction false} StampedCountsThrough(rs: Receipts, n: nat)
    requires Stamped(rs) && n <= |rs|
    ensures CountThrough(AllLogs(rs, n))
    ensures forall i :: 0 <= i < n && rs[i].Some? ==> rs[i].value.txIndex == i
    decreases n
  {
    if n > 0 {
      StampedCountsThrough(rs, n - 1);
      CountsAreExact(rs, n - 1);
      assert StampedAt(rs, n - 1);
      if rs[n - 1].Some? {
        OneMoreReceipt(AllLogs(rs, n - 1), rs[n - 1].value, n - 1);
      }
    }
  }

  lemma OneMoreReceipt(logs: seq<LogData>, r: ReceiptData, tx: nat)
    requires CountThrough(logs) && NumberedData(r, tx, |logs|)
    ensures CountThrough(logs + r.logs)
  {
    var all := logs + r.logs;
    forall k | 0 <= k < |all| ensures all[k].index == k {
      if k >= |logs| {
        assert all[k] == r.logs[k - |logs|];
      }
    }
  }

  // ---------- stamping ----------

  class Log {
    const payload: nat
    var index: nat
    var txIndex: nat

    constructor (payload: nat)
      ensures this.payload == payload
    {
      this.payload := payload;
    }
  }

  class Receipt {
    const success: bool
    const actionHash: Hash
    const logs: seq<Log>
    const transactionLogs: seq<TransferLog>
    var txIndex: nat

    constructor (success: bool, actionHash: Hash, logs: seq<Log>, transactionLogs: seq<TransferLog>)
      ensures this.success == success && this.actionHash == actionHash && this.logs == logs
      ensures this.transactionLogs == transactionLogs
    {
      this.success, this.actionHash, this.logs, this.transactionLogs, txIndex := success, actionHash, logs,
          transactionLogs, 0;
    }

    /** No log is listed twice. */
    ghost predicate Separate() {
      forall i, j {:trigger logs[i], logs[j]} | 0 <= i < j < |logs| :: logs[i] != logs[j]
    }

    function View(): ReceiptData
      reads this, logs
    {
      ReceiptData(success, actionHash, txIndex,
                  seq(|logs|, j requires 0 <= j < |logs| reads this,
                      logs => LogData(logs[j].payload, logs[j].index, logs[j].txIndex)),
                  transactionLogs)
    }

    /** The logs are numbered from `start` on. */
    ghost predicate Numbered(tx: nat, start: nat)
      reads this, logs
    {
      txIndex == tx && forall j {:trigger logs[j]} | 0 <= j < |logs| ::
          logs[j].index == start + j && logs[j].txIndex == tx
    }

    /** UpdateIndex */
    method UpdateIndex(tx: nat, logIndex: nat) returns (next: nat)
      requires Separate()
      modifies this`txIndex, logs
      ensures Numbered(tx, logIndex) && next == logIndex + |logs|
    {
      txIndex := tx;
      next := logIndex;
      for i := 0 to |logs|
        invariant next == logIndex + i && txIndex == tx
        invariant forall j {:trigger logs[j]} | 0 <= j < i :: logs[j].index == logIndex + j && logs[j].txIndex == tx
      {
        logs[i].txIndex := tx;
        logs[i].index := next;
        next := next + 1;
      }
    }

    /** TransferLogs */
    method TransferLogs(start: nat) returns (r: Option<seq<LogData>>)
      ensures r == Converted(transactionLogs, txIndex, start)
      ensures AreConverted(transactionLogs, txIndex, start, r)
    {
      ConvertedMeans(transactionLogs, txIndex, start);
      var out: seq<LogData>, logIndex := [], start;
      for i := 0 to |transactionLogs|
        invariant logIndex == start + i && |out| == i
        invariant forall j :: 0 <= j < i ==> transactionLogs[j].convertible
        invariant forall j :: 0 <= j < i ==> out[j] == LogData(transactionLogs[j].payload, start + j, txIndex)
      {
        if !transactionLogs[i].convertible {
          return None;
        }
        out := out + [LogData(transactionLogs[i].payload, logIndex, txIndex)];
        logIndex := logIndex + 1;
      }
      assert out == Converted(transactionLogs, txIndex, start).value;
      r := Some(out);
    }
  }

  /** The receipts of a block share no logs. */
  ghost predicate Apart(receipts: seq<Receipt>) {
    && (forall i {:trigger receipts[i]} | 0 <= i < |receipts| :: receipts[i].Separate())
    && (forall i, j {:trigger receipts[i], receipts[j]} | 0 <= i < j < |receipts| :: receipts[i] != receipts[j])
    && forall i, j, a, b {:trigger receipts[i].logs[a], receipts[j].logs[b]} |
         0 <= i < j < |receipts| && 0 <= a < |receipts[i].logs| && 0 <= b < |receipts[j].logs| ::
         receipts[i].logs[a] != receipts[j].logs[b]
  }

  ghost function LogsOf(receipts: seq<Receipt>): set<Log> {
    set i, j | 0 <= i < |receipts| && 0 <= j < |receipts[i].logs| :: receipts[i].logs[j]
  }

  ghost function Views(receipts: seq<Receipt>): Receipts
    reads receipts, LogsOf(receipts)
  {
    seq(|receipts|, i requires 0 <= i < |receipts| reads receipts, LogsOf(receipts) => Some(receipts[i].View()))
  }

  function LogTotal(receipts: seq<Receipt>, n: nat): nat
    requires n <= |receipts|
  {
    if n == 0 then 0 else LogTotal(receipts, n - 1) + |receipts[n - 1].logs|
  }

  /** The receipt is stamped with its place. */
  ghost predicate InPlace(receipts: seq<Receipt>, i: nat)
    requires i < |receipts|
    reads receipts, LogsOf(receipts)
  {
    receipts[i].Numbered(i, LogTotal(receipts, i))
  }

  /** The first `n` receipts are stamped. */
  ghost predicate StampedUpTo(receipts: seq<Receipt>, n: nat)
    requires n <= |receipts|
    reads receipts, LogsOf(receipts)
  {
    forall i | 0 <= i < n :: InPlace(receipts, i)
  }

  twostate lemma StampsStay(receipts: seq<Receipt>, new n: nat)
    requires n < |receipts| && old(StampedUpTo(receipts, n)) && InPlace(receipts, n)
    requires forall k {:trigger receipts[k]} | 0 <= k < n :: unchanged(receipts[k]) && unchanged(receipts[k].logs)
    ensures StampedUpTo(receipts, n + 1)
  {
    forall k | 0 <= k < n ensures InPlace(receipts, k) {
      assert old(InPlace(receipts, k)) && unchanged(receipts[k]);
    }
  }

  /** updateReceiptIndex */
  method UpdateReceiptIndex(receipts: seq<Receipt>)
    requires Apart(receipts)
    modifies receipts, LogsOf(receipts)
    ensures Stamped(Views(receipts)) && CountThrough(AllLogs(Views(receipts), |receipts|))
  {
    StampAll(receipts);
    ViewsAreStamped(receipts);
    StampedCountsThrough(Views(receipts), |receipts|);
  }

  /** One turn of the loop of updateReceiptIndex. */
  method StampNext(receipts: seq<Receipt>, i: nat, logIndex: nat) returns (next: nat)
    requires i < |receipts| && Apart(receipts) && StampedUpTo(receipts, i) && logIndex == LogTotal(receipts, i)
    modifies receipts[i], receipts[i].logs
    ensures StampedUpTo(receipts, i + 1) && next == LogTotal(receipts, i + 1)
  {
    next := receipts[i].UpdateIndex(i, logIndex);
    StampsStay(receipts, i);
  }

  /** The loop of updateReceiptIndex. */
  method StampAll(receipts: seq<Receipt>)
    requires Apart(receipts)
    modifies receipts, LogsOf(receipts)
    ensures StampedUpTo(receipts, |receipts|)
  {
    var logIndex := 0;
    for txIndex := 0 to |receipts|
      invariant logIndex == LogTotal(receipts, txIndex) && StampedUpTo(receipts, txIndex)
    {
      logIndex := StampNext(receipts, txIndex, logIndex);
    }
  }

  lemma {:induction false} SameTotals(receipts: seq<Receipt>, n: nat)
    requires n <= |receipts|
    ensures LogsBefore(Views(receipts), n) == LogTotal(receipts, n)
  {
    if n > 0 {
      SameTotals(receipts, n - 1);
    }
  }

  lemma ViewsAreStamped(receipts: seq<Receipt>)
    requires StampedUpTo(receipts, |receipts|)
    ensures Stamped(Views(receipts))
  {
    var rs := Views(receipts);
    forall i | 0 <= i < |rs| ensures StampedAt(rs, i) {
      SameTotals(receipts, i);
      assert InPlace(receipts, i);
    }
  }
}
