/** The gaps between buffered blocks, cut into intervals that can be requested from peers. */
module SyncIntervals {
  datatype Interval = Interval(start: nat, end: nat)

  function Length(i: Interval): int {
    i.end - i.start + 1
  }

  /** How long an interval may get; a size of zero cuts after every height. */
  function Limit(intervalSize: nat): nat {
    if intervalSize == 0 then 1 else intervalSize
  }

  /** The last height that is asked for */
  function ClampedTarget(confirmed: nat, target: nat, bufferSize: nat, intervalSize: nat): nat {
    var capped := if target > confirmed + bufferSize then confirmed + bufferSize else target;
    if capped < confirmed + intervalSize then confirmed + intervalSize else capped
  }

  ghost predicate Within(h: nat, out: seq<Interval>) {
    exists i :: 0 <= i < |out| && out[i].start <= h <= out[i].end
  }

  /**
   `out` asks for every height of (lo, hi] that is not buffered and for nothing else, in ascending
   order, in intervals within the limit; neighbours that touch are cut only by the limit.
   */
  ghost predicate Covers(buffered: set<nat>, lo: nat, hi: nat, limit: nat, out: seq<Interval>) {
    && (forall i :: 0 <= i < |out| ==> out[i].start <= out[i].end && Length(out[i]) <= limit)
    && (forall i, j :: 0 <= i < j < |out| ==> out[i].end < out[j].start)
    && (forall i :: 0 <= i < |out| - 1 && out[i].end + 1 == out[i + 1].start ==> Length(out[i]) == limit)
    && (forall h: nat :: Within(h, out) <==> lo < h <= hi && h !in buffered)
  }

  /** Whatever comes right behind may start a new interval. */
  ghost predicate MayStart(out: seq<Interval>, h: nat, limit: nat) {
    out != [] && out[|out| - 1].end + 1 == h ==> Length(out[|out| - 1]) == limit
  }

  lemma NothingYet(buffered: set<nat>, lo: nat, limit: nat)
    ensures Covers(buffered, lo, lo, limit, [])
  {
  }

  lemma SkipBuffered(buffered: set<nat>, lo: nat, hi: nat, limit: nat, out: seq<Interval>)
    requires Covers(buffered, lo, hi, limit, out) && lo <= hi && hi + 1 in buffered
    ensures Covers(buffered, lo, hi + 1, limit, out) && MayStart(out, hi + 2, limit)
  {
    if out != [] {
      assert Within(out[|out| - 1].end, out);
    }
  }

  lemma WithinOneMore(out: seq<Interval>, i: Interval, h: nat)
    ensures Within(h, out + [i]) <==> Within(h, out) || i.start <= h <= i.end
  {
    var out' := out + [i];
    assert out'[|out|] == i;
    if Within(h, out) {
      var k :| 0 <= k < |out| && out[k].start <= h <= out[k].end;
      assert out'[k] == out[k];
    }
  }

  lemma AddInterval(buffered: set<nat>, lo: nat, limit: nat, out: seq<Interval>, i: Interval)
    requires 0 < i.start <= i.end && Length(i) <= limit && lo < i.start
    requires Covers(buffered, lo, i.start - 1, limit, out) && MayStart(out, i.start, limit)
    requires forall h: nat :: i.start <= h <= i.end ==> h !in buffered
    ensures Covers(buffered, lo, i.end, limit, out + [i])
    ensures Length(i) == limit ==> MayStart(out + [i], i.end + 1, limit)
  {
    var out' := out + [i];
    forall h: nat ensures Within(h, out') <==> Within(h, out) || i.start <= h <= i.end {
      WithinOneMore(out, i, h);
    }
    forall k | 0 <= k < |out| ensures out[k].end < i.start {
      assert Within(out[k].end, out);
    }
  }

  /** Where a scan of the heights stands: it may be inside a gap that began at `start`. */
  datatype Scan = Scan(out: seq<Interval>, start: nat, startSet: bool, iLen: nat)

  /** The scan goes on to height `h`. */
  function Advance(s: Scan, h: nat, isBuffered: bool, intervalSize: nat): Scan
    requires h > 0
  {
    var first := if s.startSet then s.start else h;
    if !isBuffered then
      if s.iLen + 1 >= intervalSize then Scan(s.out + [Interval(first, h)], first, false, 0)
      else Scan(s.out, first, true, s.iLen + 1)
    else if s.startSet then Scan(s.out + [Interval(s.start, h - 1)], s.start, false, 0)
    else s
  }

  /** The scan of the heights above `lo`, up to and including `h`. */
  function ScanTo(buffered: set<nat>, lo: nat, h: nat, intervalSize: nat): Scan
    decreases h
  {
    if h <= lo then Scan([], 0, false, 0)
    else Advance(ScanTo(buffered, lo, h - 1, intervalSize), h, h in buffered, intervalSize)
  }

  /** The scan has dealt with the heights up to `h`, except for the gap it is inside of. */
  ghost predicate Scanned(buffered: set<nat>, lo: nat, h: nat, limit: nat, s: Scan) {
    var p := if s.startSet then s.start else h + 1;
    && lo < p <= h + 1 && Covers(buffered, lo, p - 1, limit, s.out) && MayStart(s.out, p, limit)
    && s.iLen == h + 1 - p && s.iLen < limit && (s.startSet ==> s.iLen > 0)
    && forall k: nat :: p <= k <= h ==> k !in buffered
  }

  lemma GapGrows(buffered: set<nat>, lo: nat, h: nat, limit: nat, s: Scan)
    requires h > 0 && Scanned(buffered, lo, h - 1, limit, s) && h !in buffered && s.iLen + 1 < limit
    ensures Scanned(buffered, lo, h, limit, Scan(s.out, if s.startSet then s.start else h, true, s.iLen + 1))
  {
  }

  lemma GapIsFull(buffered: set<nat>, lo: nat, h: nat, limit: nat, s: Scan)
    requires h > 0 && Scanned(buffered, lo, h - 1, limit, s) && h !in buffered && s.iLen + 1 >= limit
    ensures
      var first := if s.startSet then s.start else h;
      Scanned(buffered, lo, h, limit, Scan(s.out + [Interval(first, h)], first, false, 0))
  {
    var first := if s.startSet then s.start else h;
    AddInterval(buffered, lo, limit, s.out, Interval(first, h));
    assert Length(Interval(first, h)) == limit;
  }

  lemma GapEnds(buffered: set<nat>, lo: nat, h: nat, limit: nat, s: Scan)
    requires h > 0 && Scanned(buffered, lo, h - 1, limit, s) && h in buffered && s.startSet
    ensures Scanned(buffered, lo, h, limit, Scan(s.out + [Interval(s.start, h - 1)], s.start, false, 0))
  {
    AddInterval(buffered, lo, limit, s.out, Interval(s.start, h - 1));
    SkipBuffered(buffered, lo, h - 1, limit, s.out + [Interval(s.start, h - 1)]);
  }

  lemma NoGap(buffered: set<nat>, lo: nat, h: nat, limit: nat, s: Scan)
    requires h > 0 && Scanned(buffered, lo, h - 1, limit, s) && h in buffered && !s.startSet
    ensures Scanned(buffered, lo, h, limit, s)
  {
    SkipBuffered(buffered, lo, h - 1, limit, s.out);
  }

  lemma AdvanceIsScanned(buffered: set<nat>, lo: nat, h: nat, intervalSize: nat, s: Scan)
    requires h > 0 && Scanned(buffered, lo, h - 1, Limit(intervalSize), s)
    ensures Scanned(buffered, lo, h, Limit(intervalSize), Advance(s, h, h in buffered, intervalSize))
  {
    var limit := Limit(intervalSize);
    if h !in buffered && s.iLen + 1 >= limit {
      GapIsFull(buffered, lo, h, limit, s);
    } else if h !in buffered {
      GapGrows(buffered, lo, h, limit, s);
    } else if s.startSet {
      GapEnds(buffered, lo, h, limit, s);
    } else {
      NoGap(buffered, lo, h, limit, s);
    }
  }

  lemma {:induction false} ScanToIsScanned(buffered: set<nat>, lo: nat, h: nat, intervalSize: nat)
    requires lo <= h
    ensures Scanned(buffered, lo, h, Limit(intervalSize), ScanTo(buffered, lo, h, intervalSize))
    decreases h
  {
    if h == lo {
      NothingYet(buffered, lo, Limit(intervalSize));
    } else {
      var s := ScanTo(buffered, lo, h - 1, intervalSize);
      ScanToIsScanned(buffered, lo, h - 1, intervalSize);
      AdvanceIsScanned(buffered, lo, h, intervalSize, s);
      assert ScanTo(buffered, lo, h, intervalSize) == Advance(s, h, h in buffered, intervalSize);
    }
  }

  /** The intervals for the heights in (lo, h]; a gap that is still open at the end becomes the last one. */
  function Requests(buffered: set<nat>, lo: nat, h: nat, intervalSize: nat): seq<Interval> {
    var s := ScanTo(buffered, lo, h, intervalSize);
    if s.startSet then s.out + [Interval(s.start, h)] else s.out
  }

  /** The scan cuts the gaps as it should. */
  lemma RequestsCover(buffered: set<nat>, lo: nat, h: nat, intervalSize: nat)
    requires lo <= h
    ensures Covers(buffered, lo, h, Limit(intervalSize), Requests(buffered, lo, h, intervalSize))
  {
    ScanToIsScanned(buffered, lo, h, intervalSize);
    var s := ScanTo(buffered, lo, h, intervalSize);
    if s.startSet {
      AddInterval(buffered, lo, Limit(intervalSize), s.out, Interval(s.start, h));
    }
  }

  /** The intervals ascend, none is too long, and two that touch are cut only because the first is as long as can be. */
  ghost predicate WellCut(bi: seq<Interval>, intervalSize: nat) {
    && (forall i :: 0 <= i < |bi| ==>
          bi[i].start == bi[i].end || bi[i].start < bi[i].end < bi[i].start + intervalSize)
    && (forall i, j :: 0 <= i < j < |bi| ==> bi[i].end < bi[j].start)
    && (forall i :: 0 <= i < |bi| - 1 && bi[i].end + 1 == bi[i + 1].start ==>
          bi[i].end + 1 >= bi[i].start + intervalSize)
  }

  /**
   What is asked for, without the definitions above: the missing heights within an interval of the
   confirmed one, and those up to the target that are within the buffer.
   */
  ghost predicate AsksFor(bi: seq<Interval>, buffered: set<nat>, confirmed: nat, target: nat, bufferSize: nat,
                          intervalSize: nat)
  {
    match WellCut(bi, intervalSize)
    case true =>
      forall h: nat :: Within(h, bi) <==>
        && h !in buffered && confirmed < h
        && (h <= confirmed + intervalSize || (h <= target && h <= confirmed + bufferSize))
    case false => false
  }

  lemma RequestsAreRight(buffered: set<nat>, confirmed: nat, target: nat, bufferSize: nat, intervalSize: nat,
                         bi: seq<Interval>)
    requires
      bi == Requests(buffered, confirmed, ClampedTarget(confirmed, target, bufferSize, intervalSize), intervalSize)
    ensures AsksFor(bi, buffered, confirmed, target, bufferSize, intervalSize)
  {
    RequestsCover(buffered, confirmed, ClampedTarget(confirmed, target, bufferSize, intervalSize), intervalSize);
  }

  /** So nothing is asked for beyond the buffer, or beyond one interval if that is longer. */
  lemma NothingTooFar(bi: seq<Interval>, buffered: set<nat>, confirmed: nat, target: nat, bufferSize: nat,
                      intervalSize: nat)
    requires AsksFor(bi, buffered, confirmed, target, bufferSize, intervalSize)
    ensures forall i | 0 <= i < |bi| ::
              confirmed < bi[i].start
              && (bi[i].end <= confirmed + bufferSize || bi[i].end <= confirmed + intervalSize)
  {
    forall i | 0 <= i < |bi|
      ensures confirmed < bi[i].start
      ensures bi[i].end <= confirmed + bufferSize || bi[i].end <= confirmed + intervalSize
    {
      assert Within(bi[i].start, bi) && Within(bi[i].end, bi);
    }
  }

  /** The request list is determined: any two that cover the same gaps alike are equal. */
  lemma {:induction false} CoversIsUnique(buffered: set<nat>, lo: nat, hi: nat, limit: nat, a: seq<Interval>,
                                          b: seq<Interval>)
    requires limit > 0
    requires Covers(buffered, lo, hi, limit, a) && Covers(buffered, lo, hi, limit, b)
    ensures a == b
    decreases |a|
  {
    if a == [] {
      if b != [] {
        assert Within(b[0].start, b);
      }
    } else {
      assert Within(a[0].start, a);
      assert b != [];
      FirstStart(buffered, lo, hi, limit, a, b);
      FirstStart(buffered, lo, hi, limit, b, a);
      FirstEnd(buffered, lo, hi, limit, a, b);
      FirstEnd(buffered, lo, hi, limit, b, a);
      RestCovers(buffered, lo, hi, limit, a);
      RestCovers(buffered, lo, hi, limit, b);
      CoversIsUnique(buffered, a[0].end, hi, limit, a[1..], b[1..]);
      assert a == [a[0]] + a[1..] && b == [b[0]] + b[1..];
    }
  }

  lemma FirstStart(buffered: set<nat>, lo: nat, hi: nat, limit: nat, a: seq<Interval>, b: seq<Interval>)
    requires Covers(buffered, lo, hi, limit, a) && Covers(buffered, lo, hi, limit, b) && a != [] && b != []
    ensures a[0].start <= b[0].start
  {
    assert Within(b[0].start, b);
    assert Within(b[0].start, a);
    var k :| 0 <= k < |a| && a[k].start <= b[0].start <= a[k].end;
    assert k > 0 ==> a[0].end < a[k].start;
  }

  lemma FirstEnd(buffered: set<nat>, lo: nat, hi: nat, limit: nat, a: seq<Interval>, b: seq<Interval>)
    requires Covers(buffered, lo, hi, limit, a) && Covers(buffered, lo, hi, limit, b) && a != [] && b != []
    requires a[0].start == b[0].start
    ensures a[0].end <= b[0].end
  {
    var h := b[0].end + 1;
    if h <= a[0].end {
      assert Within(h, a);
      NextTouches(buffered, lo, hi, limit, b);
    }
  }

  lemma NextTouches(buffered: set<nat>, lo: nat, hi: nat, limit: nat, b: seq<Interval>)
    requires Covers(buffered, lo, hi, limit, b) && b != [] && Within(b[0].end + 1, b)
    ensures Length(b[0]) == limit
  {
    var h := b[0].end + 1;
    var k :| 0 <= k < |b| && b[k].start <= h <= b[k].end;
    assert b[0].end < b[1].start;
  }

  lemma RestCovers(buffered: set<nat>, lo: nat, hi: nat, limit: nat, a: seq<Interval>)
    requires Covers(buffered, lo, hi, limit, a) && a != []
    ensures Covers(buffered, a[0].end, hi, limit, a[1..])
  {
    var rest := a[1..];
    assert Within(a[0].end, a);
    forall h: nat ensures Within(h, rest) <==> Within(h, a) && h > a[0].end {
      if Within(h, rest) {
        var k :| 0 <= k < |rest| && rest[k].start <= h <= rest[k].end;
        assert a[k + 1] == rest[k];
      }
      if Within(h, a) && h > a[0].end {
        var k :| 0 <= k < |a| && a[k].start <= h <= a[k].end;
        assert rest[k - 1] == a[k];
      }
    }
  }
}
