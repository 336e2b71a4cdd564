/** The scroll-handler `throttle` of the site script: the wrapped function
    runs when at least `delay` ms have passed since the last run, starting
    from a last run at time 0. Clock readings (`Date.now()`) are the input
    sequence. */
module Throttle {

  /** The time of the last run after the first `k` calls, 0 before any. */
  function LastRun(ts: seq<int>, delay: int, k: nat): (l: int)
    requires k <= |ts|
    ensures k > 0 ==> l == 0 || exists j :: 0 <= j < k && l == ts[j]
  {
    if k == 0 then 0
    else
      var l := LastRun(ts, delay, k - 1);
      if ts[k - 1] - l >= delay then ts[k - 1] else l
  }

  /** Whether call `i` runs the wrapped function. */
  predicate Fires(ts: seq<int>, delay: int, i: nat)
    requires i < |ts|
  {
    ts[i] - LastRun(ts, delay, i) >= delay
  }

  /** One call of the throttled wrapper with clock reading `now`: it returns
      the new `last` and whether the function ran. */
  function Call(last: int, delay: int, now: int): (r: (int, bool))
    ensures r.1 <==> now - last >= delay
    ensures r.0 == if r.1 then now else last
  {
    if now - last >= delay then (now, true) else (last, false)
  }

  /** Feeds the clock readings to the wrapper in order and reports which
      calls ran the function. */
  method Run(ts: seq<int>, delay: int) returns (fired: seq<bool>)
    ensures |fired| == |ts|
    ensures forall i :: 0 <= i < |ts| ==> (fired[i] <==> Fires(ts, delay, i))
  {
    var last := 0;
    fired := [];
    var k := 0;
    while k < |ts|
      invariant 0 <= k <= |ts| && |fired| == k
      invariant last == LastRun(ts, delay, k)
      invariant forall i :: 0 <= i < k ==> (fired[i] <==> Fires(ts, delay, i))
    {
      var r := Call(last, delay, ts[k]);
      last := r.0;
      fired := fired + [r.1];
      k := k + 1;
    }
  }

  predicate NonDecreasing(ts: seq<int>) {
    forall i, j :: 0 <= i < j < |ts| ==> ts[i] <= ts[j]
  }

  /** With a clock that never runs backwards the last run time only grows,
      and once call `i` has run it is at least `ts[i]`. */
  lemma {:induction false} LastRunAfterFire(ts: seq<int>, delay: int, i: nat, k: nat)
    requires NonDecreasing(ts) && delay >= 0
    requires i < k <= |ts| && Fires(ts, delay, i)
    ensures LastRun(ts, delay, k) >= ts[i]
    decreases k
  {
    if k > i + 1 {
      LastRunAfterFire(ts, delay, i, k - 1);
    }
  }

  /** Any two runs are at least `delay` apart. */
  lemma RunsAreSpaced(ts: seq<int>, delay: int, i: nat, j: nat)
    requires NonDecreasing(ts) && delay >= 0
    requires i < j < |ts| && Fires(ts, delay, i) && Fires(ts, delay, j)
    ensures ts[j] - ts[i] >= delay
  {
    LastRunAfterFire(ts, delay, i, j);
  }

  /** The last run time is 0 or the clock reading of a call that ran. */
  lemma {:induction false} LastRunIsAFire(ts: seq<int>, delay: int, k: nat)
    requires k <= |ts|
    ensures LastRun(ts, delay, k) == 0
            || exists j :: 0 <= j < k && Fires(ts, delay, j) && LastRun(ts, delay, k) == ts[j]
    decreases k
  {
    if k > 0 {
      LastRunIsAFire(ts, delay, k - 1);
      if !Fires(ts, delay, k - 1) && LastRun(ts, delay, k - 1) != 0 {
        var j :| 0 <= j < k - 1 && Fires(ts, delay, j) && LastRun(ts, delay, k - 1) == ts[j];
        assert LastRun(ts, delay, k) == ts[j];
      }
    }
  }

  /** A dropped call comes less than `delay` after some call that ran, or
      less than `delay` after time 0 when none has run yet. */
  lemma DroppedCallIsTooSoon(ts: seq<int>, delay: int, i: nat)
    requires i < |ts| && !Fires(ts, delay, i)
    ensures ts[i] < delay || exists j :: 0 <= j < i && Fires(ts, delay, j) && ts[i] - ts[j] < delay
  {
    LastRunIsAFire(ts, delay, i);
  }
}
