/**
 The period sequencing of `animatePeriods(periods, index = 0)`: while
 `index < periods.length` a call renders `periods[index]` and schedules the
 call for `index + 1`; a call with `index >= periods.length` does nothing and
 ends the chain. The two-second delay between calls is not modelled, only the
 order of the calls.
 */
module Scheduler {

  /** The arguments of one `animatePeriods` call. */
  datatype Animation = Animation(periods: seq<int>, index: nat)

  /** What one call does: render a period and schedule the next call, or
      stop. */
  datatype Tick = Render(index: nat, period: int, next: Animation) | Stop

  /** One render of the chain: the index and the period drawn. */
  datatype Rendered = Rendered(index: nat, period: int)

  /** `animatePeriods(periods)` with the default index 0. */
  function Start(periods: seq<int>): Animation
  {
    Animation(periods, 0)
  }

  /** One call: render the period at the index and schedule the call one
      index further on, or stop once the index is out of range. */
  function Step(a: Animation): Tick
  {
    if a.index < |a.periods| then
      Render(a.index, a.periods[a.index], Animation(a.periods, a.index + 1))
    else
      Stop
  }

  /** The renders of the whole chain of calls starting at `a`. */
  function Run(a: Animation): seq<Rendered>
    decreases |a.periods| - a.index
  {
    match Step(a)
    case Stop => []
    case Render(i, p, next) => [Rendered(i, p)] + Run(next)
  }

  /** From index `i` on, the chain renders indices `i, i + 1, ..., n - 1`, in
      that order, each with its own period, and nothing else. */
  lemma {:induction false} RunFrom(periods: seq<int>, i: nat)
    requires i <= |periods|
    ensures |Run(Animation(periods, i))| == |periods| - i
    ensures forall k :: 0 <= k < |periods| - i ==>
      Run(Animation(periods, i))[k] == Rendered(i + k, periods[i + k])
    decreases |periods| - i
  {
    if i < |periods| {
      RunFrom(periods, i + 1);
    }
  }

  /** `animatePeriods(uniquePeriods)` renders index 0, 1, ..., n - 1 in
      increasing order, each exactly once with its period, and renders nothing
      once the index reaches n. */
  lemma AnimateVisitsEachPeriodOnce(periods: seq<int>)
    ensures |Run(Start(periods))| == |periods|
    ensures forall k :: 0 <= k < |periods| ==>
      Run(Start(periods))[k] == Rendered(k, periods[k])
    ensures Run(Animation(periods, |periods|)) == []
  {
    RunFrom(periods, 0);
  }
}
