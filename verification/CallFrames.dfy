/**
 A call tree as a flat list of traces: depth first, with path-style identifiers. The list gives the
 tree back.
 */
module CallFrames {
  /** A frame: what a trace shows of it, and the calls it made. */
  datatype Frame = Frame(data: nat, calls: seq<Frame>)

  datatype Trace = Trace(id: string, data: nat, parentTraceID: string, posInParentTrace: nat)

  // ---------- decimal numbers ----------

  function Digit(d: nat): char
    requires d < 10
  {
    '0' + d as char
  }

  /** strconv.FormatInt, base ten */
  function Decimal(n: nat): (s: string)
    ensures s != [] && '_' !in s
  {
    if n < 10 then [Digit(n)] else Decimal(n / 10) + [Digit(n % 10)]
  }

  function Value(s: string): int {
    if s == [] then 0 else 10 * Value(s[..|s| - 1]) + (s[|s| - 1] as int - '0' as int)
  }

  lemma {:induction false} DecimalIsExact(n: nat)
    ensures Value(Decimal(n)) == n
  {
    if n < 10 {
      assert Decimal(n)[..0] == [];
    } else {
      var s := Decimal(n);
      assert s[..|s| - 1] == Decimal(n / 10);
      DecimalIsExact(n / 10);
    }
  }

  /** Only digits, and none to spare in front. */
  lemma {:induction false} DecimalIsCanonical(n: nat)
    ensures forall i :: 0 <= i < |Decimal(n)| ==> '0' <= Decimal(n)[i] <= '9'
    ensures Decimal(n)[0] == '0' ==> n == 0
    ensures |Decimal(n)| == 1 <==> n < 10
  {
    if n >= 10 {
      DecimalIsCanonical(n / 10);
    }
  }

  lemma DecimalIsInjective(n: nat, m: nat)
    requires Decimal(n) == Decimal(m)
    ensures n == m
  {
    DecimalIsExact(n);
    DecimalIsExact(m);
  }

  // ---------- identifiers ----------

  function ChildId(id: string, j: nat): string {
    id + "_" + Decimal(j)
  }

  /** `p` is the identifier `id`, or one below it. */
  predicate Below(id: string, p: string) {
    p == id || id + "_" <= p
  }

  lemma BelowTrans(id: string, j: nat, p: string)
    requires Below(ChildId(id, j), p)
    ensures Below(id, p) && p != id
  {
    var c := ChildId(id, j);
    assert c <= p;
    assert id + "_" <= c;
  }

  /** What is below one child is not below another. */
  lemma ChildrenAreApart(id: string, i: nat, j: nat, p: string)
    requires Below(ChildId(id, i), p) && Below(ChildId(id, j), p)
    ensures i == j
  {
    var a, b := ChildId(id, i), ChildId(id, j);
    NotAProperPrefix(id, Decimal(i), Decimal(j), p);
    NotAProperPrefix(id, Decimal(j), Decimal(i), p);
    assert a == p[..|a|] && b == p[..|b|];
    assert Decimal(i) == a[|id| + 1..] && Decimal(j) == b[|id| + 1..];
    DecimalIsInjective(i, j);
  }

  lemma NotAProperPrefix(id: string, a: string, b: string, p: string)
    requires '_' !in b && Below(id + "_" + a, p) && Below(id + "_" + b, p)
    ensures |a| >= |b|
  {
    var ida, idb := id + "_" + a, id + "_" + b;
    assert p[..|idb|] == idb;
    assert |p| > |ida| ==> p[|ida|] == (ida + "_")[|ida|];
  }

  // ---------- the list ----------

  function Size(f: Frame): (n: nat)
    ensures n > 0
  {
    1 + SizeAll(f.calls)
  }

  function SizeAll(calls: seq<Frame>): nat {
    if calls == [] then 0 else Size(calls[0]) + SizeAll(calls[1..])
  }

  function Rows(f: Frame, id: string, parent: string, pos: nat): (rows: seq<Trace>)
    ensures |rows| == Size(f) && rows[0] == Trace(id, f.data, parent, pos)
    decreases f, 1
  {
    [Trace(id, f.data, parent, pos)] + RowsFrom(f, 0, id)
  }

  /** The rows of the calls of `f` from the `j`-th on. */
  function RowsFrom(f: Frame, j: nat, id: string): (rows: seq<Trace>)
    requires j <= |f.calls|
    ensures |rows| == SizeAll(f.calls[j..])
    decreases f, 0, |f.calls| - j
  {
    if j == |f.calls| then []
    else
      assert f.calls[j..][1..] == f.calls[j + 1..];
      Rows(f.calls[j], ChildId(id, j), id, j) + RowsFrom(f, j + 1, id)
  }

  /** The closure of flattenCallFrames, with the slice it appends to. */
  class Flattener {
    var out: seq<Trace>

    constructor ()
      ensures out == []
    {
      out := [];
    }

    method Walk(f: Frame, id: string, parent: string, pos: nat)
      modifies this
      ensures out == old(out) + Rows(f, id, parent, pos)
      decreases f
    {
      out := out + [Trace(id, f.data, parent, pos)];
      for j := 0 to |f.calls|
        invariant out + RowsFrom(f, j, id) == old(out) + Rows(f, id, parent, pos)
      {
        Walk(f.calls[j], ChildId(id, j), id, j);
      }
    }
  }

  /** flattenCallFrames, once the frames are decoded */
  method FlattenCallFrames(root: Frame) returns (traces: seq<Trace>)
    ensures traces == Rows(root, "0", "", 0)
  {
    var w := new Flattener();
    w.Walk(root, "0", "", 0);
    traces := w.out;
  }

  // ---------- what the identifiers say ----------

  /** Every row is below `id`; every row but the first has a parent below `id`. */
  lemma {:induction false} RowsAreBelow(f: Frame, id: string, parent: string, pos: nat, k: nat)
    requires k < Size(f)
    ensures Below(id, Rows(f, id, parent, pos)[k].id)
    ensures k > 0 ==> Below(id, Rows(f, id, parent, pos)[k].parentTraceID)
    decreases f, 1
  {
    if k > 0 {
      RowsFromAreBelow(f, 0, id, k - 1);
    }
  }

  lemma {:induction false} RowsFromAreBelow(f: Frame, j: nat, id: string, k: nat)
    requires j <= |f.calls| && k < |RowsFrom(f, j, id)|
    ensures
      var r := RowsFrom(f, j, id)[k];
      && Below(id, r.parentTraceID)
      && exists c :: j <= c < |f.calls| && Below(ChildId(id, c), r.id) &&
          (r.parentTraceID == id || Below(ChildId(id, c), r.parentTraceID))
    ensures Below(id, RowsFrom(f, j, id)[k].id) && RowsFrom(f, j, id)[k].id != id
    decreases f, 0, |f.calls| - j
  {
    var first := Rows(f.calls[j], ChildId(id, j), id, j);
    var r := RowsFrom(f, j, id)[k];
    if k < |first| {
      RowsAreBelow(f.calls[j], ChildId(id, j), id, j, k);
      BelowTrans(id, j, r.id);
      if k > 0 {
        BelowTrans(id, j, r.parentTraceID);
      }
    } else {
      RowsFromAreBelow(f, j + 1, id, k - |first|);
    }
  }

  /** No identifier occurs twice. */
  ghost predicate DistinctIds(rows: seq<Trace>) {
    forall k, m {:trigger rows[k], rows[m]} | 0 <= k < m < |rows| :: rows[k].id != rows[m].id
  }

  lemma {:induction false} IdsAreDistinct(f: Frame, id: string, parent: string, pos: nat)
    ensures DistinctIds(Rows(f, id, parent, pos))
    decreases f, 1
  {
    IdsFromAreDistinct(f, 0, id);
    forall k | 0 <= k < |RowsFrom(f, 0, id)| ensures RowsFrom(f, 0, id)[k].id != id {
      RowsFromAreBelow(f, 0, id, k);
    }
  }

  lemma {:induction false} IdsFromAreDistinct(f: Frame, j: nat, id: string)
    requires j <= |f.calls|
    ensures DistinctIds(RowsFrom(f, j, id))
    decreases f, 0, |f.calls| - j
  {
    if j < |f.calls| {
      var first, rest := Rows(f.calls[j], ChildId(id, j), id, j), RowsFrom(f, j + 1, id);
      IdsAreDistinct(f.calls[j], ChildId(id, j), id, j);
      IdsFromAreDistinct(f, j + 1, id);
      forall k, m | 0 <= k < |first| && 0 <= m < |rest| ensures first[k].id != rest[m].id {
        RowsAreBelow(f.calls[j], ChildId(id, j), id, j, k);
        RowsFromAreBelow(f, j + 1, id, m);
        var c :| j + 1 <= c < |f.calls| && Below(ChildId(id, c), rest[m].id);
        if first[k].id == rest[m].id {
          ChildrenAreApart(id, j, c, first[k].id);
        }
      }
    }
  }

  /** Some row above has the identifier. */
  ghost predicate Earlier(rows: seq<Trace>, id: string, k: nat)
    requires k <= |rows|
  {
    exists m :: 0 <= m < k && rows[m].id == id
  }

  /** Every row but the first comes after the row of its parent. */
  lemma {:induction false} ParentsComeFirst(f: Frame, id: string, parent: string, pos: nat, k: nat)
    requires 0 < k < Size(f)
    ensures Earlier(Rows(f, id, parent, pos), Rows(f, id, parent, pos)[k].parentTraceID, k)
    decreases f, 1
  {
    var rows, rest := Rows(f, id, parent, pos), RowsFrom(f, 0, id);
    ParentsFromComeFirst(f, 0, id, k - 1);
    if rest[k - 1].parentTraceID == id {
      assert rows[0].id == id;
    } else {
      var m :| 0 <= m < k - 1 && rest[m].id == rest[k - 1].parentTraceID;
      assert rows[m + 1] == rest[m];
    }
  }

  lemma {:induction false} ParentsFromComeFirst(f: Frame, j: nat, id: string, k: nat)
    requires j <= |f.calls| && k < |RowsFrom(f, j, id)|
    ensures RowsFrom(f, j, id)[k].parentTraceID == id ||
            Earlier(RowsFrom(f, j, id), RowsFrom(f, j, id)[k].parentTraceID, k)
    decreases f, 0, |f.calls| - j
  {
    var first, rest, rows := Rows(f.calls[j], ChildId(id, j), id, j), RowsFrom(f, j + 1, id), RowsFrom(f, j, id);
    if 0 < k < |first| {
      ParentsComeFirst(f.calls[j], ChildId(id, j), id, j, k);
      var m :| 0 <= m < k && first[m].id == first[k].parentTraceID;
      assert rows[m] == first[m];
    } else if k >= |first| {
      ParentsFromComeFirst(f, j + 1, id, k - |first|);
      if rest[k - |first|].parentTraceID != id {
        var m :| 0 <= m < k - |first| && rest[m].id == rest[k - |first|].parentTraceID;
        assert rows[m + |first|] == rest[m];
      }
    }
  }

  // ---------- the way back ----------

  /** The frame of row `k`, with the frames of the later rows that name it as their parent. */
  function Rebuild(rows: seq<Trace>, k: nat): Frame
    requires k < |rows|
    decreases |rows| - k, 0
  {
    Frame(rows[k].data, Children(rows, rows[k].id, k + 1))
  }

  function Children(rows: seq<Trace>, id: string, from: nat): seq<Frame>
    requires from <= |rows|
    decreases |rows| - from, 1
  {
    if from == |rows| then []
    else if rows[from].parentTraceID == id then [Rebuild(rows, from)] + Children(rows, id, from + 1)
    else Children(rows, id, from + 1)
  }

  /** No row from `from` on has its parent at `id` or below. */
  ghost predicate DoneWith(rows: seq<Trace>, id: string, from: nat) {
    forall m {:trigger rows[m]} | from <= m < |rows| :: !Below(id, rows[m].parentTraceID)
  }

  lemma {:induction false} SkipRows(rows: seq<Trace>, id: string, from: nat, to: nat)
    requires from <= to <= |rows| && forall m {:trigger rows[m]} | from <= m < to :: rows[m].parentTraceID != id
    ensures Children(rows, id, from) == Children(rows, id, to)
    decreases |rows| - from
  {
    if from < to {
      SkipRows(rows, id, from + 1, to);
    }
  }

  /** `part` stands in the list from `at` on. */
  predicate StandsAt(rows: seq<Trace>, at: nat, part: seq<Trace>) {
    at + |part| <= |rows| && rows[at..at + |part|] == part
  }

  lemma StandsInParts(rows: seq<Trace>, at: nat, a: seq<Trace>, b: seq<Trace>)
    requires StandsAt(rows, at, a + b)
    ensures StandsAt(rows, at, a) && StandsAt(rows, at + |a|, b)
  {
    var all := rows[at..at + |a + b|];
    assert rows[at..at + |a|] == all[..|a|] && rows[at + |a|..at + |a| + |b|] == all[|a|..];
  }

  /** Where the rows of a frame stand in a list, and none of its identifiers is named later, it is rebuilt. */
  lemma {:induction false} RebuildsFrame(rows: seq<Trace>, k: nat, f: Frame, id: string, parent: string, pos: nat)
    requires StandsAt(rows, k, Rows(f, id, parent, pos)) && DoneWith(rows, id, k + Size(f))
    ensures Rebuild(rows, k) == f
    decreases f, 1
  {
    StandsInParts(rows, k, [Trace(id, f.data, parent, pos)], RowsFrom(f, 0, id));
    assert rows[k] == rows[k..k + 1][0];
    assert f.calls[0..] == f.calls;
    RebuildsCalls(rows, k + 1, f, 0, id);
  }

  lemma {:induction false} RebuildsCalls(rows: seq<Trace>, from: nat, f: Frame, j: nat, id: string)
    requires j <= |f.calls| && StandsAt(rows, from, RowsFrom(f, j, id)) &&
             DoneWith(rows, id, from + |RowsFrom(f, j, id)|)
    ensures Children(rows, id, from) == f.calls[j..]
    decreases f, 0, |f.calls| - j
  {
    if j == |f.calls| {
      SkipRows(rows, id, from, |rows|);
    } else {
      var call := f.calls[j];
      var first := Rows(call, ChildId(id, j), id, j);
      StandsInParts(rows, from, first, RowsFrom(f, j + 1, id));
      ChildIsDone(rows, from, f, j, id);
      RebuildsFrame(rows, from, call, ChildId(id, j), id, j);
      FirstChild(rows, from, call, id, j);
      RebuildsCalls(rows, from + |first|, f, j + 1, id);
      assert f.calls[j..] == [call] + f.calls[j + 1..];
    }
  }

  /** Where the rows of a call stand, the frame of its first row is the next child. */
  lemma FirstChild(rows: seq<Trace>, from: nat, call: Frame, id: string, j: nat)
    requires StandsAt(rows, from, Rows(call, ChildId(id, j), id, j))
    ensures Children(rows, id, from) == [Rebuild(rows, from)] + Children(rows, id, from + Size(call))
  {
    SkipCall(rows, from, call, id, j);
    assert rows[from] == rows[from..from + Size(call)][0];
  }

  /** Below a call's first row, no row of the call names the caller as its parent. */
  lemma SkipCall(rows: seq<Trace>, from: nat, call: Frame, id: string, j: nat)
    requires StandsAt(rows, from, Rows(call, ChildId(id, j), id, j))
    ensures Children(rows, id, from + 1) == Children(rows, id, from + Size(call))
  {
    var next := from + Size(call);
    forall m {:trigger rows[m]} | from + 1 <= m < next ensures rows[m].parentTraceID != id {
      assert rows[m] == rows[from..next][m - from];
      RowsAreBelow(call, ChildId(id, j), id, j, m - from);
      BelowTrans(id, j, rows[m].parentTraceID);
    }
    SkipRows(rows, id, from + 1, next);
  }

  /** After a call's own rows, nothing is below its identifier. */
  lemma ChildIsDone(rows: seq<Trace>, from: nat, f: Frame, j: nat, id: string)
    requires j < |f.calls| && StandsAt(rows, from, RowsFrom(f, j, id))
    requires DoneWith(rows, id, from + |RowsFrom(f, j, id)|)
    ensures DoneWith(rows, ChildId(id, j), from + Size(f.calls[j]))
  {
    var all, c, next := RowsFrom(f, j, id), ChildId(id, j), from + Size(f.calls[j]);
    var rest := RowsFrom(f, j + 1, id);
    forall m {:trigger rows[m]} | next <= m < |rows| ensures !Below(c, rows[m].parentTraceID) {
      var p := rows[m].parentTraceID;
      if Below(c, p) {
        BelowTrans(id, j, p);
        assert m < from + |all|;
        assert rows[m] == rows[from..from + |all|][m - from] == rest[m - next];
        RowsFromAreBelow(f, j + 1, id, m - next);
        var d :| j + 1 <= d < |f.calls| && Below(ChildId(id, d), p);
        ChildrenAreApart(id, j, d, p);
      }
    }
  }

  /** From the flat list of any call tree, the parents' identifiers alone give the tree back. */
  lemma FlattenIsReversible(root: Frame)
    ensures Rebuild(Rows(root, "0", "", 0), 0) == root
  {
    var rows := Rows(root, "0", "", 0);
    assert rows[0..|rows|] == rows;
    RebuildsFrame(rows, 0, root, "0", "", 0);
  }

  // ---------- siblings ----------

  /** Rows with one parent stand in the order of their positions. */
  ghost predicate InOrder(rows: seq<Trace>) {
    forall k, m {:trigger rows[k], rows[m]} | 0 <= k < m < |rows| && rows[k].parentTraceID == rows[m].parentTraceID ::
      rows[k].posInParentTrace < rows[m].posInParentTrace
  }

  /** Before row `m`, its parent has a row at the position before. */
  ghost predicate Preceded(rows: seq<Trace>, m: nat)
    requires m < |rows|
  {
    exists k :: 0 <= k < m && rows[k].parentTraceID == rows[m].parentTraceID &&
        rows[k].posInParentTrace + 1 == rows[m].posInParentTrace
  }

  /** Siblings are numbered in order. */
  lemma {:induction false} SiblingsAscend(f: Frame, id: string, parent: string, pos: nat)
    requires !Below(id, parent)
    ensures InOrder(Rows(f, id, parent, pos))
    decreases f, 1
  {
    var rest := RowsFrom(f, 0, id);
    SiblingsFromAscend(f, 0, id);
    forall m | 0 <= m < |rest| ensures rest[m].parentTraceID != parent {
      RowsFromAreBelow(f, 0, id, m);
    }
  }

  lemma {:induction false} SiblingsFromAscend(f: Frame, j: nat, id: string)
    requires j <= |f.calls|
    ensures InOrder(RowsFrom(f, j, id))
    decreases f, 0, |f.calls| - j
  {
    if j < |f.calls| {
      var c := ChildId(id, j);
      var first, rest := Rows(f.calls[j], c, id, j), RowsFrom(f, j + 1, id);
      if Below(c, id) {
        BelowTrans(id, j, id);
      }
      SiblingsAscend(f.calls[j], c, id, j);
      SiblingsFromAscend(f, j + 1, id);
      forall k, m | 0 <= k < |first| && 0 <= m < |rest| && first[k].parentTraceID == rest[m].parentTraceID
        ensures first[k].posInParentTrace < rest[m].posInParentTrace
      {
        OnlyCallersMeet(f, j, id, k, m);
      }
    }
  }

  /** Rows of different calls share a parent only if it is the caller. */
  lemma OnlyCallersMeet(f: Frame, j: nat, id: string, k: nat, m: nat)
    requires j < |f.calls| && k < Size(f.calls[j]) && m < |RowsFrom(f, j + 1, id)|
    requires Rows(f.calls[j], ChildId(id, j), id, j)[k].parentTraceID == RowsFrom(f, j + 1, id)[m].parentTraceID
    ensures k == 0 && RowsFrom(f, j + 1, id)[m].posInParentTrace > j
  {
    var p := RowsFrom(f, j + 1, id)[m].parentTraceID;
    RowsFromAreBelow(f, j + 1, id, m);
    if k > 0 {
      RowsAreBelow(f.calls[j], ChildId(id, j), id, j, k);
      BelowTrans(id, j, p);
      var d :| j + 1 <= d < |f.calls| && Below(ChildId(id, d), p);
      ChildrenAreApart(id, j, d, p);
    } else {
      CallerRows(f, j + 1, id, m);
    }
  }

  /** A row that names the caller is the first row of a call, and carries its number. */
  lemma {:induction false} CallerRows(f: Frame, j: nat, id: string, k: nat)
    requires j <= |f.calls| && k < |RowsFrom(f, j, id)| && RowsFrom(f, j, id)[k].parentTraceID == id
    ensures RowsFrom(f, j, id)[k].posInParentTrace >= j
    ensures RowsFrom(f, j, id)[k].posInParentTrace == j || Preceded(RowsFrom(f, j, id), k)
    decreases |f.calls| - j
  {
    var first, rest, rows := Rows(f.calls[j], ChildId(id, j), id, j), RowsFrom(f, j + 1, id), RowsFrom(f, j, id);
    if 0 < k < |first| {
      RowsAreBelow(f.calls[j], ChildId(id, j), id, j, k);
      BelowTrans(id, j, id);
    } else if k >= |first| {
      CallerRows(f, j + 1, id, k - |first|);
      if rest[k - |first|].posInParentTrace == j + 1 {
        assert rows[0] == first[0];
      } else {
        var i :| 0 <= i < k - |first| && rest[i].parentTraceID == id &&
            rest[i].posInParentTrace + 1 == rest[k - |first|].posInParentTrace;
        assert rows[i + |first|] == rest[i];
      }
    }
  }

  /** And without gaps, from zero on. */
  lemma {:induction false} SiblingsHaveNoGaps(f: Frame, id: string, parent: string, pos: nat, k: nat)
    requires 0 < k < Size(f)
    ensures
      var rows := Rows(f, id, parent, pos);
      rows[k].posInParentTrace == 0 || Preceded(rows, k)
    decreases f, 1
  {
    var rows, rest := Rows(f, id, parent, pos), RowsFrom(f, 0, id);
    assert rows[k] == rest[k - 1];
    SiblingsFromHaveNoGaps(f, 0, id, k - 1);
    if rest[k - 1].posInParentTrace != 0 {
      var i :| 0 <= i < k - 1 && rest[i].parentTraceID == rest[k - 1].parentTraceID
               && rest[i].posInParentTrace + 1 == rest[k - 1].posInParentTrace;
      assert rows[i + 1] == rest[i];
    }
  }

  lemma {:induction false} SiblingsFromHaveNoGaps(f: Frame, j: nat, id: string, k: nat)
    requires j <= |f.calls| && k < |RowsFrom(f, j, id)|
    ensures
      var rows := RowsFrom(f, j, id);
      rows[k].posInParentTrace == (if rows[k].parentTraceID == id then j else 0) || Preceded(rows, k)
    decreases f, 0, |f.calls| - j
  {
    var first, rest, rows := Rows(f.calls[j], ChildId(id, j), id, j), RowsFrom(f, j + 1, id), RowsFrom(f, j, id);
    if rows[k].parentTraceID == id {
      CallerRows(f, j, id, k);
    } else if k < |first| {
      SiblingsHaveNoGaps(f.calls[j], ChildId(id, j), id, j, k);
      if first[k].posInParentTrace != 0 {
        var i :| 0 <= i < k && first[i].parentTraceID == first[k].parentTraceID &&
            first[i].posInParentTrace + 1 == first[k].posInParentTrace;
        assert rows[i] == first[i];
      }
    } else {
      SiblingsFromHaveNoGaps(f, j + 1, id, k - |first|);
      if rows[k].posInParentTrace != 0 {
        var m := k - |first|;
        var i :| 0 <= i < m && rest[i].parentTraceID == rest[m].parentTraceID &&
            rest[i].posInParentTrace + 1 == rest[m].posInParentTrace;
        assert rows[i + |first|] == rest[i];
      }
    }
  }

  /** A trace that is not the root is named after its parent and its position there. */
  ghost predicate NamedAfterParent(r: Trace) {
    r.id == r.parentTraceID + "_" + Decimal(r.posInParentTrace)
  }

  lemma {:induction false} RowsAreNamed(f: Frame, id: string, parent: string, pos: nat, k: nat)
    requires 0 < k < Size(f)
    ensures NamedAfterParent(Rows(f, id, parent, pos)[k])
    decreases f, 1
  {
    RowsFromAreNamed(f, 0, id, k - 1);
  }

  lemma {:induction false} RowsFromAreNamed(f: Frame, j: nat, id: string, k: nat)
    requires j <= |f.calls| && k < |RowsFrom(f, j, id)|
    ensures NamedAfterParent(RowsFrom(f, j, id)[k])
    decreases f, 0, |f.calls| - j
  {
    var first := Rows(f.calls[j], ChildId(id, j), id, j);
    if 0 < k < |first| {
      RowsAreNamed(f.calls[j], ChildId(id, j), id, j, k);
    } else if k >= |first| {
      RowsFromAreNamed(f, j + 1, id, k - |first|);
    }
  }

  /** The flat list of any call tree. */
  lemma FlattenedTraces(root: Frame)
    ensures
      var rows := Rows(root, "0", "", 0);
      && rows[0] == Trace("0", root.data, "", 0)
      && DistinctIds(rows) && InOrder(rows)
      && forall k :: 0 < k < |rows| ==>
           && NamedAfterParent(rows[k]) && Earlier(rows, rows[k].parentTraceID, k)
           && (rows[k].posInParentTrace == 0 || Preceded(rows, k))
  {
    IdsAreDistinct(root, "0", "", 0);
    SiblingsAscend(root, "0", "", 0);
    forall k | 0 < k < Size(root)
      ensures
        var rows := Rows(root, "0", "", 0);
        && NamedAfterParent(rows[k]) && Earlier(rows, rows[k].parentTraceID, k)
        && (rows[k].posInParentTrace == 0 || Preceded(rows, k))
    {
      RowsAreNamed(root, "0", "", 0, k);
      ParentsComeFirst(root, "0", "", 0, k);
      SiblingsHaveNoGaps(root, "0", "", 0, k);
    }
  }
}
