/** The estimator of elapsed real time: it anchors the modem's clock to the boot clock once the modem's
    time is stable, and from then on follows the modem although the wall clock may jump.
 */
module Estimator {
  import opened Wrappers

  const STABILIZATION := 5

  datatype State = State(clockDiff: int, prevUtc: int, prevBoot: int, threshold: int, initialTravel: int, prevData: int)

  /** The wall clock and the boot clock, read together; reading them can fail. */
  datatype Clocks = Clocks(utc: int, boot: int)

  datatype Fix = Fix(data: int, trusted: bool, tbf: int, clocks: Option<Clocks>)

  function Reset(s: State): State {
    State(0, 0, 0, STABILIZATION, s.initialTravel, 0)
  }

  function Fresh(initialTravel: int): State {
    State(0, 0, 0, STABILIZATION, initialTravel, 0)
  }

  /** The estimate for one fix, or -1 when the clocks cannot be read. */
  function Estimate(s: State, f: Fix): (State, int) {
    if f.clocks.None? then (s, -1)
    else
      var Clocks(utc, boot) := f.clocks.value;
      if !f.trusted then (s, boot - s.initialTravel)
      else
        var threshold := if f.tbf > 0 && f.tbf != f.data - s.prevData then STABILIZATION else s.threshold;
        var clockDiff :=
          if threshold == 0 then utc - f.data - s.initialTravel
          else if threshold < 0 then s.clockDiff + (utc - boot) - (s.prevUtc - s.prevBoot)
          else s.clockDiff;
        var travel := if threshold < 0 then utc - f.data - clockDiff else s.initialTravel;
        (State(clockDiff, utc, boot, threshold - 1, s.initialTravel, f.data), boot - travel)
  }

  function Run(s: State, fixes: seq<Fix>): State {
    if fixes == [] then s else Estimate(Run(s, fixes[..|fixes|-1]), fixes[|fixes|-1]).0
  }

  predicate IsUsed(f: Fix) {
    f.trusted && f.clocks.Some?
  }

  /** The fix spacing announced with a trusted fix contradicts the modem times: start over. */
  predicate Mismatches(s: State, f: Fix) {
    IsUsed(f) && f.tbf > 0 && f.tbf != f.data - s.prevData
  }

  ghost predicate Steady(s: State, fixes: seq<Fix>) {
    forall i :: 0 <= i < |fixes| ==> !Mismatches(Run(s, fixes[..i]), fixes[i])
  }

  predicate Anchored(s: State) {
    s.threshold < 0
  }

  /** What modem time has to be shifted by to become boot time. */
  function Offset(s: State): int {
    s.clockDiff - (s.prevUtc - s.prevBoot)
  }

  lemma SteadyPrefix(s: State, fixes: seq<Fix>, n: nat)
    requires Steady(s, fixes) && n <= |fixes|
    ensures Steady(s, fixes[..n])
  {
    forall i | 0 <= i < n ensures !Mismatches(Run(s, fixes[..n][..i]), fixes[..n][i]) {
      assert fixes[..n][..i] == fixes[..i];
    }
  }

  /** Once anchored, a steady run never changes the offset, whatever the wall clock does. */
  lemma {:induction false} OffsetIsKept(s: State, fixes: seq<Fix>)
    requires Anchored(s) && Steady(s, fixes)
    ensures Anchored(Run(s, fixes)) && Offset(Run(s, fixes)) == Offset(s)
  {
    if fixes != [] {
      SteadyPrefix(s, fixes, |fixes| - 1);
      OffsetIsKept(s, fixes[..|fixes|-1]);
    }
  }

  /** Two estimates for trusted fixes of an anchored steady run differ by exactly the difference of
      their modem times, however the wall clock was set and whatever untrusted fixes came between. */
  lemma EstimatesFollowTheModem(s: State, fixes: seq<Fix>, i: nat, j: nat)
    requires Anchored(s) && Steady(s, fixes) && i < |fixes| && j < |fixes|
    requires IsUsed(fixes[i]) && IsUsed(fixes[j])
    ensures Estimate(Run(s, fixes[..j]), fixes[j]).1 - Estimate(Run(s, fixes[..i]), fixes[i]).1
            == fixes[j].data - fixes[i].data
  {
    SteadyPrefix(s, fixes, i);
    SteadyPrefix(s, fixes, j);
    OffsetIsKept(s, fixes[..i]);
    OffsetIsKept(s, fixes[..j]);
  }

  /** How many fixes of a run were used. */
  function Used(fixes: seq<Fix>): nat {
    if fixes == [] then 0 else Used(fixes[..|fixes|-1]) + if IsUsed(fixes[|fixes|-1]) then 1 else 0
  }

  lemma {:induction false} ThresholdCountsDown(s: State, fixes: seq<Fix>)
    requires Steady(s, fixes)
    ensures Run(s, fixes).threshold == s.threshold - Used(fixes)
    ensures Run(s, fixes).initialTravel == s.initialTravel
  {
    if fixes != [] {
      SteadyPrefix(s, fixes, |fixes| - 1);
      ThresholdCountsDown(s, fixes[..|fixes|-1]);
    }
  }

  // ---------------------------------------------------------------- what the fixes alone say

  /** The modem time of the last used fix, 0 if there is none. */
  function LastUsedTime(fixes: seq<Fix>): int {
    if fixes == [] then 0
    else if IsUsed(fixes[|fixes|-1]) then fixes[|fixes|-1].data
    else LastUsedTime(fixes[..|fixes|-1])
  }

  /** A used fix announces a spacing that is not its distance from the last used fix before it. */
  predicate Contradicts(before: seq<Fix>, f: Fix) {
    IsUsed(f) && f.tbf > 0 && f.tbf != f.data - LastUsedTime(before)
  }

  /** How many fixes were used since the start or, if a spacing was contradicted since, from the last
      contradicting fix on. */
  function Stable(fixes: seq<Fix>): nat {
    if fixes == [] then 0
    else
      var before, f := fixes[..|fixes|-1], fixes[|fixes|-1];
      if Contradicts(before, f) then 1 else Stable(before) + if IsUsed(f) then 1 else 0
  }

  /** After a reset the estimator remembers the modem time of the last used fix and nothing older, so that what
      it takes for a mismatch is a contradiction among the fixes. */
  lemma {:induction false} RemembersLastUsed(s: State, fixes: seq<Fix>, f: Fix)
    ensures Run(Reset(s), fixes).prevData == LastUsedTime(fixes)
    ensures Mismatches(Run(Reset(s), fixes), f) <==> Contradicts(fixes, f)
  {
    if fixes != [] {
      RemembersLastUsed(s, fixes[..|fixes|-1], f);
    }
  }

  /** On every run after a reset the threshold counts the stable fixes, however often the count starts over. */
  lemma {:induction false} ThresholdCountsStable(s: State, fixes: seq<Fix>)
    ensures Run(Reset(s), fixes).threshold == STABILIZATION - Stable(fixes)
    ensures Run(Reset(s), fixes).initialTravel == s.initialTravel
  {
    if fixes != [] {
      ThresholdCountsStable(s, fixes[..|fixes|-1]);
      RemembersLastUsed(s, fixes[..|fixes|-1], fixes[|fixes|-1]);
    }
  }

  /** What the last sixth stable fix says modem time has to be shifted by to become boot time. */
  function AnchorOffset(fixes: seq<Fix>, initialTravel: int): int {
    if fixes == [] then 0
    else
      var f := fixes[|fixes|-1];
      if IsUsed(f) && Stable(fixes) == STABILIZATION + 1 then f.clocks.value.boot - initialTravel - f.data
      else AnchorOffset(fixes[..|fixes|-1], initialTravel)
  }

  lemma {:induction false} OffsetIsTheAnchors(s: State, fixes: seq<Fix>)
    requires Stable(fixes) > STABILIZATION
    ensures Offset(Run(Reset(s), fixes)) == AnchorOffset(fixes, s.initialTravel)
  {
    var before, f := fixes[..|fixes|-1], fixes[|fixes|-1];
    ThresholdCountsStable(s, before);
    RemembersLastUsed(s, before, f);
    if !(IsUsed(f) && Stable(fixes) == STABILIZATION + 1) {
      OffsetIsTheAnchors(s, before);
    }
  }

  /** Every estimate of every run after a reset, told by the fixes alone. Without readable clocks it is -1, and
      for an untrusted fix boot time less the initial travel time; neither leaves a trace. For a trusted fix it is
      the same up to the sixth stable one; later ones are modem time shifted as the sixth has set. A contradicting
      fix is itself the first stable one. */
  lemma EveryEstimate(s: State, fixes: seq<Fix>, f: Fix)
    ensures var n := Stable(fixes + [f]);
            var (t, e) := Estimate(Run(Reset(s), fixes), f);
            && (!IsUsed(f) ==> t == Run(Reset(s), fixes))
            && (f.clocks.None? ==> e == -1)
            && (f.clocks.Some? && (!f.trusted || n <= STABILIZATION + 1) ==> e == f.clocks.value.boot - s.initialTravel)
            && (IsUsed(f) && n > STABILIZATION ==> e == f.data + AnchorOffset(fixes + [f], s.initialTravel))
            && (Anchored(t) <==> n > STABILIZATION)
  {
    var all := fixes + [f];
    assert all[..|fixes|] == fixes;
    ThresholdCountsStable(s, fixes);
    RemembersLastUsed(s, fixes, f);
    if IsUsed(f) && Stable(all) > STABILIZATION {
      OffsetIsTheAnchors(s, all);
    }
  }

  /** Trusted fixes a second apart after a reset: only the first contradicts its spacing, and the sixth anchors. */
  lemma SixSecondsAnchor(s: State, clocks: Clocks)
    ensures var fixes := seq(6, i => Fix(10000 + 1000 * i, true, 1000, Some(clocks)));
            Anchored(Run(Reset(s), fixes)) && !Anchored(Run(Reset(s), fixes[..5]))
  {
    var fixes := seq(6, i => Fix(10000 + 1000 * i, true, 1000, Some(clocks)));
    assert fixes[..6] == fixes;
    ThresholdCountsStable(s, fixes);
    ThresholdCountsStable(s, fixes[..5]);
    EvenFixesAreStable(fixes, 6);
    EvenFixesAreStable(fixes, 5);
  }

  lemma {:induction false} EvenFixesAreStable(fixes: seq<Fix>, n: nat)
    requires 0 < n <= |fixes| && fixes[0].data != 1000
    requires forall i :: 0 <= i < |fixes| ==> IsUsed(fixes[i]) && fixes[i].tbf == 1000
    requires forall i :: 0 <= i < |fixes| ==> fixes[i].data == fixes[0].data + 1000 * i
    ensures Stable(fixes[..n]) == n && LastUsedTime(fixes[..n]) == fixes[n - 1].data
  {
    assert fixes[..n][..n - 1] == fixes[..n - 1] && fixes[..n][n - 1] == fixes[n - 1];
    if n > 1 {
      EvenFixesAreStable(fixes, n - 1);
    }
  }

  /** After a reset, five trusted fixes are estimated at boot time less the initial travel time; the sixth is
      too, and anchors the clock at that very estimate. The first of them may contradict the spacing: the reset
      has forgotten what came before it. */
  lemma SixthFixAnchors(s: State, first: Fix, fixes: seq<Fix>, next: Fix)
    requires IsUsed(first) && IsUsed(next) && Used(fixes) < STABILIZATION
    requires var t := Estimate(Reset(s), first).0; Steady(t, fixes) && !Mismatches(Run(t, fixes), next)
    ensures Estimate(Reset(s), first).1 == first.clocks.value.boot - s.initialTravel
    ensures var (t, e) := Estimate(Run(Estimate(Reset(s), first).0, fixes), next);
            && e == next.clocks.value.boot - s.initialTravel
            && (Anchored(t) <==> Used(fixes) == STABILIZATION - 1)
            && (Anchored(t) ==> e == next.data + Offset(t))
  {
    ThresholdCountsDown(Estimate(Reset(s), first).0, fixes);
  }

  /** A contradicting fix starts over like a reset: it and the next four are estimated at boot time less the
      initial travel time, and so is the sixth, which anchors again. */
  lemma MismatchStartsOver(s: State, f: Fix, fixes: seq<Fix>, next: Fix)
    requires Mismatches(s, f) && IsUsed(next) && Used(fixes) < STABILIZATION
    requires Steady(Estimate(s, f).0, fixes) && !Mismatches(Run(Estimate(s, f).0, fixes), next)
    ensures Estimate(s, f).1 == f.clocks.value.boot - s.initialTravel
    ensures var (t, e) := Estimate(Run(Estimate(s, f).0, fixes), next);
            && e == next.clocks.value.boot - s.initialTravel
            && (Anchored(t) <==> Used(fixes) == STABILIZATION - 1)
            && (Anchored(t) ==> e == next.data + Offset(t))
  {
    ThresholdCountsDown(Estimate(s, f).0, fixes);
  }

  // ---------------------------------------------------------------- the estimator's own form

  class ElapsedRealtimeEstimator {
    var currentClockDiff: int
    var prevUtcTimeNanos: int
    var prevBootTimeNanos: int
    var fixTimeStabilizationThreshold: int
    var prevDataTimeNanos: int
    const initialTravelTime: int

    function Value(): State
      reads this
    {
      State(currentClockDiff, prevUtcTimeNanos, prevBootTimeNanos, fixTimeStabilizationThreshold,
            initialTravelTime, prevDataTimeNanos)
    }

    constructor (travelTimeNanosEstimate: int)
      ensures Value() == Fresh(travelTimeNanosEstimate)
    {
      initialTravelTime := travelTimeNanosEstimate;
      new;
      ResetClocks();
    }

    method ResetClocks()
      modifies this
      ensures Value() == Reset(old(Value()))
    {
      currentClockDiff, prevDataTimeNanos, prevUtcTimeNanos, prevBootTimeNanos := 0, 0, 0, 0;
      fixTimeStabilizationThreshold := STABILIZATION;
    }

    method GetElapsedRealtimeEstimateNanos(fix: Fix) returns (estimate: int)
      modifies this
      ensures (Value(), estimate) == Estimate(old(Value()), fix)
    {
      if fix.clocks.None? {
        return -1;
      }
      var Clocks(utc, boot) := fix.clocks.value;
      var travel := initialTravelTime;
      if fix.trusted {
        if fix.tbf > 0 && fix.tbf != fix.data - prevDataTimeNanos {
          fixTimeStabilizationThreshold := STABILIZATION;
        }
        if fixTimeStabilizationThreshold == 0 {
          currentClockDiff := utc - fix.data - travel;
        } else if fixTimeStabilizationThreshold < 0 {
          currentClockDiff := currentClockDiff + (utc - boot) - (prevUtcTimeNanos - prevBootTimeNanos);
          travel := utc - fix.data - currentClockDiff;
        }
        prevUtcTimeNanos, prevBootTimeNanos, prevDataTimeNanos := utc, boot, fix.data;
        fixTimeStabilizationThreshold := fixTimeStabilizationThreshold - 1;
      }
      estimate := boot - travel;
    }
  }
}
