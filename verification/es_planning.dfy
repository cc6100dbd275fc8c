/**
 * `ElasticSearchInputFormat`'s split planning: `initiate_search` lowers the
 * configured split count to the hit count and derives a stride, then
 * `getSplits` emits one `(query, from, size)` window per split plus a
 * trailing window for the remainder.
 *
 * The code sizes each regular window `stride - 1` (1 when the stride is 1)
 * and the trailing one `remainder - 1`. The trailing window is always one
 * hit short; a regular window is one hit short only when the stride
 * exceeds 1. `GetSplits` keeps those sizes; `GetSplitsIntended` uses
 * `stride` and `remainder`, and is proved to read every hit exactly once.
 */
module EsPlanning {
  import opened Outcome
  import opened JavaNumbers

  /** `ElasticSearchSplit`: the query and the window of hits to fetch. */
  datatype EsSplit = EsSplit(query: string, from: int, size: int)

  /** The exceptions planning can end in. */
  datatype PlanError =
    | DivisionByZero              // ArithmeticException: the clamped split count is 0
    | IllegalCapacity(capacity: int)  // IllegalArgumentException from `new ArrayList(negative)`

  /** The numbers `initiate_search` leaves in the input format's fields. */
  datatype SearchPlan = SearchPlan(numHits: nat, numSplits: int, stride: int)

  /**
   * `initiate_search`, given the hit count the COUNT search reported:
   * more splits than hits are lowered to the hit count, and the stride is
   * `numHits / numSplits` (Java long division).
   */
  function InitiateSearch(numHits: nat, configuredSplits: int): (r: Result<SearchPlan, PlanError>)
    ensures r.Err? <==> configuredSplits == 0 || (configuredSplits > 0 && numHits == 0)
    ensures r.Err? ==> r.error == DivisionByZero
    ensures r.Ok? ==> r.value.numHits == numHits
    ensures r.Ok? ==> r.value.numSplits == configuredSplits || (numHits < configuredSplits && r.value.numSplits == numHits)
    ensures r.Ok? && configuredSplits > 0 ==>
      var plan := r.value;
      && 1 <= plan.numSplits <= numHits && plan.numSplits <= configuredSplits
      && plan.stride >= 1
      && plan.stride * plan.numSplits <= numHits < (plan.stride + 1) * plan.numSplits
  {
    var numSplits := if configuredSplits > numHits then numHits else configuredSplits;
    if numSplits == 0 then Err(DivisionByZero)
    else
      var stride := Quot(numHits, numSplits);
      StrideBounds(numHits, numSplits);
      Ok(SearchPlan(numHits, numSplits, stride))
  }

  /** Split `i` of the regular run: `from = i * stride`, size `stride - 1`, or 1 when the stride is 1. */
  function RegularSplit(plan: SearchPlan, query: string, i: int): EsSplit
  {
    EsSplit(query, i * plan.stride, if plan.stride == 1 then 1 else plan.stride - 1)
  }

  /** `getSplits`: `setConf` runs `initiate_search`, then the regular and trailing splits are listed. */
  function GetSplits(numHits: nat, configuredSplits: int, query: string): Result<seq<EsSplit>, PlanError>
  {
    match InitiateSearch(numHits, configuredSplits)
    case Err(e) => Err(e)
    case Ok(plan) =>
      if plan.numSplits < 0 then Err(IllegalCapacity(plan.numSplits))
      else
        var regular := seq(plan.numSplits, i requires 0 <= i < plan.numSplits => RegularSplit(plan, query, i));
        var remainder := Rem(numHits, plan.numSplits);
        if remainder > 0 then Ok(regular + [EsSplit(query, plan.numSplits * plan.stride, remainder - 1)])
        else Ok(regular)
  }

  /** `getSplits` with window sizes `stride` and `remainder`, so that no hit is skipped. */
  function GetSplitsIntended(numHits: nat, configuredSplits: int, query: string): Result<seq<EsSplit>, PlanError>
  {
    match InitiateSearch(numHits, configuredSplits)
    case Err(e) => Err(e)
    case Ok(plan) =>
      if plan.numSplits < 0 then Err(IllegalCapacity(plan.numSplits))
      else
        var regular := seq(plan.numSplits, i requires 0 <= i < plan.numSplits =>
                           EsSplit(query, i * plan.stride, plan.stride));
        var remainder := Rem(numHits, plan.numSplits);
        if remainder > 0 then Ok(regular + [EsSplit(query, plan.numSplits * plan.stride, remainder)])
        else Ok(regular)
  }

  /** Hit `x` lies in the window of some split. */
  ghost predicate Covered(splits: seq<EsSplit>, x: int)
  {
    exists k | 0 <= k < |splits| :: splits[k].from <= x < splits[k].from + splits[k].size
  }

  /** Every window starts at a non-negative hit, has a non-negative size, and ends within `[0, numHits)`. */
  ghost predicate WithinHits(splits: seq<EsSplit>, numHits: int)
  {
    forall k | 0 <= k < |splits| ::
      0 <= splits[k].from && 0 <= splits[k].size && splits[k].from + splits[k].size <= numHits
  }

  /** Windows start in strictly increasing order and each ends before the next begins. */
  ghost predicate OrderedDisjoint(splits: seq<EsSplit>)
  {
    forall i, j | 0 <= i < j < |splits| ::
      splits[i].from < splits[j].from && splits[i].from + splits[i].size <= splits[j].from
  }

  // ---------------------------------------------------------------------
  // Lemmas
  // ---------------------------------------------------------------------

  /**
   * Planning succeeds exactly when there is at least one hit and one
   * configured split. It then lists `numSplits` regular splits at
   * `i * stride`, and one trailing split exactly when `numHits % numSplits > 0`.
   */
  lemma SplitsShape(numHits: nat, configuredSplits: int, query: string)
    ensures GetSplits(numHits, configuredSplits, query).Ok? <==> configuredSplits >= 1 && numHits >= 1
    ensures configuredSplits < 0 ==> GetSplits(numHits, configuredSplits, query) == Err(IllegalCapacity(configuredSplits))
    ensures configuredSplits == 0 || (configuredSplits > 0 && numHits == 0) ==>
      GetSplits(numHits, configuredSplits, query) == Err(DivisionByZero)
    ensures GetSplits(numHits, configuredSplits, query).Ok? ==>
      var splits := GetSplits(numHits, configuredSplits, query).value;
      var n := if configuredSplits > numHits then numHits else configuredSplits;
      var stride := numHits / n;
      && |splits| == n + (if numHits % n > 0 then 1 else 0)
      && (forall i | 0 <= i < n ::
            splits[i] == EsSplit(query, i * stride, if stride == 1 then 1 else stride - 1))
      && (numHits % n > 0 ==> splits[n] == EsSplit(query, n * stride, numHits % n - 1))
  {
    if configuredSplits >= 1 && numHits >= 1 {
      var n := if configuredSplits > numHits then numHits else configuredSplits;
      QuotRemNonNegative(numHits, n);
    }
  }

  /** Every planned window lies inside the hits, and the windows are ordered and disjoint. */
  lemma SplitsWithinHitsAndDisjoint(numHits: nat, configuredSplits: int, query: string)
    requires GetSplits(numHits, configuredSplits, query).Ok?
    ensures var splits := GetSplits(numHits, configuredSplits, query).value;
      WithinHits(splits, numHits) && OrderedDisjoint(splits)
  {
    SplitsShape(numHits, configuredSplits, query);
    var plan := InitiateSearch(numHits, configuredSplits).value;
    var n, stride := plan.numSplits, plan.stride;
    QuotRemNonNegative(numHits, n);
    StridedWindows(GetSplits(numHits, configuredSplits, query).value, n, stride, numHits);
  }

  /**
   * When the stride exceeds 1, the last hit of every stride, at
   * `i * stride + stride - 1`, is read by no split.
   */
  lemma StrideEndUncovered(numHits: nat, configuredSplits: int, query: string, i: int)
    requires GetSplits(numHits, configuredSplits, query).Ok?
    requires InitiateSearch(numHits, configuredSplits).value.stride > 1
    requires 0 <= i < InitiateSearch(numHits, configuredSplits).value.numSplits
    ensures var plan := InitiateSearch(numHits, configuredSplits).value;
      !Covered(GetSplits(numHits, configuredSplits, query).value, i * plan.stride + plan.stride - 1)
  {
    SplitsShape(numHits, configuredSplits, query);
    var plan := InitiateSearch(numHits, configuredSplits).value;
    QuotRemNonNegative(numHits, plan.numSplits);
    GapAfterWindow(GetSplits(numHits, configuredSplits, query).value, plan.numSplits, plan.stride, i);
  }

  /** When the hits do not divide evenly, the last hit is read by no split. */
  lemma LastHitUncovered(numHits: nat, configuredSplits: int, query: string)
    requires GetSplits(numHits, configuredSplits, query).Ok?
    requires numHits % InitiateSearch(numHits, configuredSplits).value.numSplits > 0
    ensures !Covered(GetSplits(numHits, configuredSplits, query).value, numHits - 1)
  {
    SplitsWithinHitsAndDisjoint(numHits, configuredSplits, query);
    SplitsShape(numHits, configuredSplits, query);
    var plan := InitiateSearch(numHits, configuredSplits).value;
    QuotRemNonNegative(numHits, plan.numSplits);
    var splits := GetSplits(numHits, configuredSplits, query).value;
    var n := plan.numSplits;
    assert splits[n].from + splits[n].size == numHits - 1;
    forall k | 0 <= k < |splits|
      ensures !(splits[k].from <= numHits - 1 < splits[k].from + splits[k].size)
    {
      if k < n {
        assert splits[k].from + splits[k].size <= splits[n].from;
      }
    }
  }

  /** 4 hits in 2 splits: windows (0, 1) and (2, 1), so hits 1 and 3 are never read. */
  lemma FourHitsTwoSplits(query: string)
    ensures GetSplits(4, 2, query) == Ok([EsSplit(query, 0, 1), EsSplit(query, 2, 1)])
    ensures !Covered(GetSplits(4, 2, query).value, 1)
    ensures !Covered(GetSplits(4, 2, query).value, 3)
  {
    SplitsShape(4, 2, query);
    var splits := GetSplits(4, 2, query).value;
    assert |splits| == 2 && splits[0] == EsSplit(query, 0, 1) && splits[1] == EsSplit(query, 2, 1);
    assert splits == [EsSplit(query, 0, 1), EsSplit(query, 2, 1)];
    StrideEndUncovered(4, 2, query, 0);
    StrideEndUncovered(4, 2, query, 1);
  }

  /** The intended windows read every hit exactly once: in range, disjoint, and covering all hits. */
  lemma IntendedSplitsTile(numHits: nat, configuredSplits: int, query: string)
    requires configuredSplits >= 1 && numHits >= 1
    ensures GetSplitsIntended(numHits, configuredSplits, query).Ok?
    ensures var splits := GetSplitsIntended(numHits, configuredSplits, query).value;
      && WithinHits(splits, numHits)
      && OrderedDisjoint(splits)
      && forall x :: Covered(splits, x) <==> 0 <= x < numHits
  {
    var plan := InitiateSearch(numHits, configuredSplits).value;
    var n, stride := plan.numSplits, plan.stride;
    QuotRemNonNegative(numHits, n);
    var splits := GetSplitsIntended(numHits, configuredSplits, query).value;
    assert numHits == n * stride + numHits % n;
    StridedWindows(splits, n, stride, numHits);
    forall x
      ensures Covered(splits, x) <==> 0 <= x < numHits
    {
      if 0 <= x < n * stride {
        var k := TileOf(n, stride, x);
        assert splits[k].from <= x < splits[k].from + splits[k].size;
      } else if n * stride <= x < numHits {
        assert splits[n].from <= x < splits[n].from + splits[n].size;
      }
    }
  }

  /** The stride is the floor of hits per split: `stride * n <= numHits < (stride + 1) * n`. */
  lemma StrideBounds(numHits: nat, n: int)
    requires n != 0
    ensures n > 0 ==> Quot(numHits, n) * n <= numHits < (Quot(numHits, n) + 1) * n
  {
    if n > 0 {
      QuotRemNonNegative(numHits, n);
      var q := numHits / n;
      assert numHits == q * n + numHits % n;
      assert (q + 1) * n == q * n + n;
    }
  }

  /**
   * Windows at `i * stride` no longer than the stride, followed by at most
   * one window from `n * stride` that ends inside the hits, are in range,
   * ordered and disjoint.
   */
  lemma StridedWindows(splits: seq<EsSplit>, n: nat, stride: int, numHits: nat)
    requires stride >= 1 && n * stride <= numHits
    requires |splits| == n || |splits| == n + 1
    requires forall i | 0 <= i < n :: splits[i].from == i * stride && 0 <= splits[i].size <= stride
    requires |splits| == n + 1 ==>
      splits[n].from == n * stride && 0 <= splits[n].size && splits[n].from + splits[n].size <= numHits
    ensures WithinHits(splits, numHits) && OrderedDisjoint(splits)
  {
    forall k | 0 <= k < |splits|
      ensures 0 <= splits[k].from && 0 <= splits[k].size && splits[k].from + splits[k].size <= numHits
    {
      if k < n {
        StrideBefore(k, n, stride);
      }
    }
    forall i, j | 0 <= i < j < |splits|
      ensures splits[i].from < splits[j].from && splits[i].from + splits[i].size <= splits[j].from
    {
      StrideBefore(i, j, stride);
    }
  }

  /**
   * Among windows at `i * stride` of `stride - 1` hits, followed by at most
   * one window from `n * stride`, no window holds the hit at `i * stride + stride - 1`.
   */
  lemma GapAfterWindow(splits: seq<EsSplit>, n: nat, stride: int, i: int)
    requires stride >= 1 && 0 <= i < n
    requires |splits| == n || |splits| == n + 1
    requires forall k | 0 <= k < n :: splits[k].from == k * stride && splits[k].size == stride - 1
    requires |splits| == n + 1 ==> splits[n].from == n * stride
    ensures !Covered(splits, i * stride + stride - 1)
  {
    var x := i * stride + stride - 1;
    forall k | 0 <= k < |splits|
      ensures !(splits[k].from <= x < splits[k].from + splits[k].size)
    {
      if k < i {
        StrideBefore(k, i, stride);
      } else if k > i {
        StrideBefore(i, k, stride);
      }
    }
  }

  /** A window at `i * stride` ends, after a full stride, no later than the start of window `j > i`. */
  lemma StrideBefore(i: int, j: int, stride: int)
    requires 0 <= i < j && stride >= 1
    ensures 0 <= i * stride && i * stride + stride <= j * stride
  {
    MulMonotone(0, i, stride);
    MulMonotone(i + 1, j, stride);
    assert (i + 1) * stride == i * stride + stride;
  }
}
