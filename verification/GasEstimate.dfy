/**
 The search for the least gas limit at which an execution goes through. A simulation is a
 function of the limit.
 */
module GasEstimates {
  import opened Actions

  const TWO_63 := 0x8000_0000_0000_0000

  /** What a simulated execution says about a gas limit. */
  datatype Simulation =
    | Enough(gasConsumed: U64)
    | TooLittle(reverted: bool)
    | InsufficientFunds
    | Broken

  type Simulate = nat -> Simulation

  datatype Failure = Internal | Reverted

  predicate Works(sim: Simulate, gas: nat) {
    sim(gas).Enough?
  }

  class Envelope {
    var gas: nat

    constructor ()
      ensures gas == 0
    {
      gas := 0;
    }
  }

  /** The middle of the interval, in 64 bits. */
  function Middle(low: U64, high: U64): U64 {
    (low + high) % TWO_64 / 2
  }

  /** One less, in 64 bits. */
  function Below(n: U64): U64 {
    (n + TWO_64 - 1) % TWO_64
  }

  /** A limit that is enough, where one less is not; or the consumed gas itself, if that is enough. */
  ghost predicate Threshold(sim: Simulate, consumed: nat, gas: nat) {
    Works(sim, gas) && (gas == consumed || (gas > consumed && !Works(sim, gas - 1)))
  }

  // ---------- when the search ends ----------

  /** The search between two rounds. */
  datatype Search = Search(low: U64, high: U64) | Failed

  predicate Going(s: Search) {
    s.Search? && s.low <= s.high
  }

  /** One round of the loop, in 64 bits. */
  function Round(sim: Simulate, s: Search): Search {
    if !Going(s) then s
    else
      var mid := Middle(s.low, s.high);
      match sim(mid)
      case Broken => Failed
      case Enough(_) => Search(s.low, Below(mid))
      case _ => Search((mid + 1) % TWO_64, s.high)
  }

  function Rounds(sim: Simulate, s: Search, n: nat): Search
    decreases n
  {
    if n == 0 then s else Rounds(sim, Round(sim, s), n - 1)
  }

  ghost predicate Ends(sim: Simulate, s: Search) {
    exists n: nat :: !Going(Rounds(sim, s, n))
  }

  /** The simulations that make the program search: the limit is enough, the consumed gas is not. */
  predicate Searched(sim: Simulate, limit: U64, consumed: U64) {
    sim(limit) == Enough(consumed) && !sim(consumed).Enough? && !sim(consumed).Broken?
  }

  lemma MiddleIsBetween(low: U64, high: U64)
    requires low <= high < TWO_63
    ensures low <= Middle(low, high) <= high
  {
    assert (low + high) % TWO_64 == low + high;
  }

  lemma OneRoundMore(sim: Simulate, s: Search)
    requires Ends(sim, Round(sim, s))
    ensures Ends(sim, s)
  {
    var n: nat :| !Going(Rounds(sim, Round(sim, s), n));
    assert Rounds(sim, s, n + 1) == Rounds(sim, Round(sim, s), n);
  }

  lemma {:induction false} SearchEnds(sim: Simulate, low: U64, high: U64)
    requires high < TWO_63 && !(low == 0 && Works(sim, 0))
    ensures Ends(sim, Search(low, high))
    decreases if low <= high then high + 1 - low else 0
  {
    var s := Search(low, high);
    if low <= high {
      var mid, s' := Middle(low, high), Round(sim, s);
      MiddleIsBetween(low, high);
      if sim(mid).Enough? {
        assert Below(mid) == mid - 1;
        SearchEnds(sim, low, mid - 1);
      } else if sim(mid).Broken? {
        assert s' == Failed && !Going(Rounds(sim, s', 0));
      } else {
        SearchEnds(sim, mid + 1, high);
      }
      OneRoundMore(sim, s);
    } else {
      assert !Going(Rounds(sim, s, 0));
    }
  }

  lemma MiddleIsLow(low: U64, high: U64)
    ensures Middle(low, high) < TWO_63
  {
  }

  /** Only the limit itself is enough. */
  function OnlyAt(limit: U64, consumed: U64): Simulate {
    (g: nat) => if g == limit then Enough(consumed) else TooLittle(false)
  }

  /** The wrapped middle is below 2^63 and never meets a limit from there on. */
  lemma {:induction false} SearchGoesOn(limit: U64, consumed: U64, low: U64, n: nat)
    requires limit >= TWO_63 && low <= limit
    ensures Going(Rounds(OnlyAt(limit, consumed), Search(low, limit), n))
    decreases n
  {
    if n > 0 {
      MiddleIsLow(low, limit);
      var mid := Middle(low, limit);
      assert (mid + 1) % TWO_64 == mid + 1;
      assert Round(OnlyAt(limit, consumed), Search(low, limit)) == Search(mid + 1, limit);
      SearchGoesOn(limit, consumed, mid + 1, n - 1);
    }
  }

  /** Below 2^63 every search ends. */
  lemma SearchedEnds(sim: Simulate, limit: U64, consumed: U64)
    requires Searched(sim, limit, consumed) && limit < TWO_63
    ensures Ends(sim, Search(consumed, limit))
  {
    SearchEnds(sim, consumed, limit);
  }

  /** From there on, an execution that needs the whole limit is searched for without end. */
  lemma SearchNeedNotEnd(limit: U64, consumed: U64)
    requires limit >= TWO_63 && consumed < limit
    ensures Searched(OnlyAt(limit, consumed), limit, consumed)
    ensures !Ends(OnlyAt(limit, consumed), Search(consumed, limit))
  {
    forall n: nat ensures Going(Rounds(OnlyAt(limit, consumed), Search(consumed, limit), n)) {
      SearchGoesOn(limit, consumed, consumed, n);
    }
  }

  /**
   Whatever gas below the limit an execution consumes: the search ends for every simulation of it if
   and only if the block gas limit is below 2^63.
   */
  lemma WhenSearchEnds(limit: U64, consumed: U64)
    requires consumed < limit
    ensures (forall sim: Simulate | Searched(sim, limit, consumed) :: Ends(sim, Search(consumed, limit)))
            <==> limit < TWO_63
  {
    if limit < TWO_63 {
      forall sim: Simulate | Searched(sim, limit, consumed) ensures Ends(sim, Search(consumed, limit)) {
        SearchedEnds(sim, limit, consumed);
      }
    } else {
      SearchNeedNotEnd(limit, consumed);
    }
  }

  // ---------- the program ----------

  /**
   estimateExecutionGasConsumptionAt, for any simulation on which it ends; below 2^63 that is any
   simulation, see `SearchedEnds`. There, besides, no sum wraps and no subtraction goes below zero.
   */
  method EstimateExecutionGasConsumptionAt(sim: Simulate, blockGasLimit: U64, elp: Envelope)
    returns (r: Option<nat>, failure: Option<Failure>)
    requires forall consumed: U64 | Searched(sim, blockGasLimit, consumed) :: Ends(sim, Search(consumed, blockGasLimit))
    modifies elp
    ensures r.None? <==> failure.Some?
    ensures r.Some? ==> Works(sim, blockGasLimit) && Works(sim, r.value)
    ensures r.Some? ==>
              var consumed := sim(blockGasLimit).gasConsumed;
              if consumed <= blockGasLimit then r.value <= blockGasLimit
              else r.value == consumed || r.value == blockGasLimit
    ensures r.Some? && blockGasLimit < TWO_63 && sim(blockGasLimit).gasConsumed <= blockGasLimit ==>
              Threshold(sim, sim(blockGasLimit).gasConsumed, r.value)
    ensures failure == Some(Reverted) <==> sim(blockGasLimit) == TooLittle(true)
    ensures Works(sim, blockGasLimit) && failure.Some? ==> exists g :: sim(g) == Broken
    ensures Works(sim, blockGasLimit) ==>
              var consumed := sim(blockGasLimit).gasConsumed;
              && (Works(sim, consumed) ==> r == Some(consumed))
              && (sim(consumed) == Broken ==> failure == Some(Internal))
              && (consumed <= blockGasLimit && consumed + blockGasLimit < TWO_64 && !Works(sim, consumed) ==>
                    sim((consumed + blockGasLimit) / 2) == Broken ==> failure == Some(Internal))
  {
    r, failure := None, None;
    elp.gas := blockGasLimit;
    var first := sim(elp.gas);
    if !first.Enough? {
      failure := Some(if first == TooLittle(true) then Reverted else Internal);
      return;
    }
    var estimatedGas: U64 := first.gasConsumed;
    elp.gas := estimatedGas;
    var second := sim(elp.gas);
    if second == Broken {
      failure := Some(Internal);
      return;
    }
    if !second.Enough? {
      assert Searched(sim, blockGasLimit, estimatedGas);
      r := SearchLeast(sim, estimatedGas, blockGasLimit, elp);
      failure := if r.None? then Some(Internal) else None;
      return;
    }
    r := Some(estimatedGas);
  }

  /** The loop of estimateExecutionGasConsumptionAt */
  method SearchLeast(sim: Simulate, consumed: U64, limit: U64, elp: Envelope) returns (r: Option<U64>)
    requires Searched(sim, limit, consumed) && Ends(sim, Search(consumed, limit))
    modifies elp
    ensures r.None? ==> exists g :: sim(g) == Broken
    ensures consumed <= limit && sim(Middle(consumed, limit)) == Broken ==> r.None?
    ensures r.Some? ==> Works(sim, r.value) && r.value <= limit && (consumed > limit ==> r.value == limit)
    ensures r.Some? && consumed <= limit < TWO_63 ==> Threshold(sim, consumed, r.value)
  {
    var low: U64, high: U64, estimatedGas: U64 := consumed, limit, limit;
    ghost var n: nat :| !Going(Rounds(sim, Search(low, high), n));
    while low <= high
      invariant InSearch(sim, consumed, limit, low, high, estimatedGas, n)
      invariant sim(Middle(consumed, limit)) == Broken ==> low == consumed && high == limit
      decreases n
    {
      var mid := Middle(low, high);
      NextRound(sim, consumed, limit, low, high, estimatedGas, n, mid);
      elp.gas := mid;
      var probe := sim(elp.gas);
      if probe == Broken {
        return None;
      }
      if probe.Enough? {
        estimatedGas, high := mid, Below(mid);
      } else {
        low := mid + 1;
      }
      n := n - 1;
    }
    InSearchDone(sim, consumed, limit, low, high, estimatedGas, n);
    r := Some(estimatedGas);
  }

  /** The state of the search, which has n rounds left at most. */
  ghost predicate InSearch(sim: Simulate, consumed: U64, limit: U64, low: U64, high: U64, estimate: U64, n: nat) {
    && !Going(Rounds(sim, Search(low, high), n)) && Works(sim, estimate) && estimate <= limit
    && (consumed > limit ==> low > high && estimate == limit)
    && (limit < TWO_63 ==> Narrowed(sim, consumed, limit, low, high, estimate))
  }

  lemma InSearchDone(sim: Simulate, consumed: U64, limit: U64, low: U64, high: U64, estimate: U64, n: nat)
    requires InSearch(sim, consumed, limit, low, high, estimate, n) && low > high
    ensures Works(sim, estimate) && estimate <= limit && (consumed > limit ==> estimate == limit)
    ensures consumed <= limit < TWO_63 ==> Threshold(sim, consumed, estimate)
  {
  }

  /** What the search has narrowed the answer down to, as long as nothing wraps. */
  ghost predicate Narrowed(sim: Simulate, consumed: U64, limit: U64, low: U64, high: U64, estimate: U64) {
    && consumed <= low && high <= limit && !Works(sim, consumed) && Works(sim, estimate)
    && (low == consumed || !Works(sim, low - 1))
    && estimate == (if high == limit then high else high + 1)
    && (low <= estimate || (low == consumed && high == limit))
  }

  lemma StaysNarrowed(sim: Simulate, consumed: U64, limit: U64, low: U64, high: U64, estimate: U64)
    requires Narrowed(sim, consumed, limit, low, high, estimate) && low <= high && limit < TWO_63
    ensures
      var mid := Middle(low, high);
      if Works(sim, mid) then Narrowed(sim, consumed, limit, low, Below(mid), mid)
      else Narrowed(sim, consumed, limit, mid + 1, high, estimate)
  {
    MiddleIsBetween(low, high);
    var mid := Middle(low, high);
    if Works(sim, mid) {
      assert mid > 0 && Below(mid) == mid - 1;
    }
  }

  /** One round, and one less to come. */
  lemma NextRound(sim: Simulate, consumed: U64, limit: U64, low: U64, high: U64, estimate: U64, n: nat, mid: U64)
    requires InSearch(sim, consumed, limit, low, high, estimate, n) && low <= high && mid == Middle(low, high)
    ensures n > 0 && mid + 1 < TWO_64
    ensures
      match sim(mid)
      case Broken => true
      case Enough(_) => InSearch(sim, consumed, limit, low, Below(mid), mid, n - 1)
      case _ => InSearch(sim, consumed, limit, mid + 1, high, estimate, n - 1)
  {
    MiddleIsLow(low, high);
    assert (mid + 1) % TWO_64 == mid + 1;
    assert Rounds(sim, Search(low, high), n) == Rounds(sim, Round(sim, Search(low, high)), n - 1);
    if limit < TWO_63 {
      StaysNarrowed(sim, consumed, limit, low, high, estimate);
    } else {
      assert mid <= limit;
    }
  }

  /** More gas never hurts. */
  ghost predicate Monotone(sim: Simulate, limit: nat) {
    forall g: nat, h: nat {:trigger Works(sim, g), Works(sim, h)} :: g <= h <= limit && Works(sim, g) ==> Works(sim, h)
  }

  /** Then the threshold is the least limit, not below the consumed gas, that is enough. */
  lemma ThresholdIsLeast(sim: Simulate, limit: nat, consumed: nat, gas: nat)
    requires Monotone(sim, limit) && Threshold(sim, consumed, gas) && gas <= limit
    ensures forall g: nat :: consumed <= g <= limit ==> (Works(sim, g) <==> gas <= g)
  {
    forall g: nat | consumed <= g <= limit && Works(sim, g) ensures gas <= g {
    }
  }
}
