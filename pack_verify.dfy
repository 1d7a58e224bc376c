/** `fan` of gix-pack/src/verify.rs: the monotonicity check of a pack index fan-out table. */
module PackVerify {
  import opened Base

  /** Every value is at most its successor. */
  ghost predicate NonDecreasingFrom(data: seq<u32>, k: nat) {
    forall i :: k <= i && i + 1 < |data| ==> data[i] <= data[i + 1]
  }

  /** The search of `windows(2).enumerate().find_map(..)` from window `k` on. */
  function FanFrom(data: seq<u32>, k: nat): (r: Option<nat>)
    requires k <= |data|
    decreases |data| - k
    ensures r.None? <==> NonDecreasingFrom(data, k)
    ensures r.Some? ==> k <= r.value && r.value + 1 < |data| && data[r.value] > data[r.value + 1]
    ensures r.Some? ==> forall i :: k <= i < r.value ==> data[i] <= data[i + 1]
  {
    if k + 1 >= |data| then None
    else if data[k] > data[k + 1] then Some(k)
    else FanFrom(data, k + 1)
  }

  /** The first index whose successor is strictly smaller, or `None` when the table never decreases. */
  function Fan(data: seq<u32>): (r: Option<nat>)
    ensures r.None? <==> forall i :: 0 <= i && i + 1 < |data| ==> data[i] <= data[i + 1]
    ensures r.Some? ==> r.value + 1 < |data| && data[r.value] > data[r.value + 1]
    ensures r.Some? ==> forall i :: 0 <= i < r.value ==> data[i] <= data[i + 1]
  {
    FanFrom(data, 0)
  }

  /** Tables of zero or one entries have no window at all. */
  lemma FanOfShortTable(data: seq<u32>)
    requires |data| <= 1
    ensures Fan(data) == None
  {
  }

  /** The reported index is the only candidate below any other violation: it is the least one. */
  lemma FanIsFirstViolation(data: seq<u32>, j: nat)
    requires j + 1 < |data| && data[j] > data[j + 1]
    ensures Fan(data).Some? && Fan(data).value <= j
  {
  }

  /** Equal neighbours are not a violation (the comparison is strict), but a drop is. */
  lemma FanExamples()
    ensures Fan([3, 3, 3]) == None
    ensures Fan([1, 2, 2, 1, 0]) == Some(2)
  {
    assert [1, 2, 2, 1, 0][2] > [1, 2, 2, 1, 0][3];
  }
}
