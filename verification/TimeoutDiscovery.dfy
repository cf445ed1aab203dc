/**
 The search for the longest keep-alive period that the NAT tolerates (dm_stun.c,
 after section 10.2 of RFC 3489).
 */
module TimeoutDiscovery {

  const DM_STUN_NB_MAX_STEP: int := 20
  const TIMEOUT_OFFSET: int := 5

  datatype TimeoutState = TIMEOUT_NONE | TIMEOUT_SEND | TIMEOUT_RECEIVED

  /** The integer division of C. */
  function TruncDiv(a: int, b: int): int
    requires b > 0
  {
    if a >= 0 then a / b else -(-a / b)
  }

  /** The step between two probes: a twentieth of the range, but not 0. */
  function Step(min: int, max: int): (step: int)
    ensures step != 0
    ensures min < max ==> step >= 1
  {
    var s := TruncDiv(max - min, DM_STUN_NB_MAX_STEP);
    if s == 0 then 1 else s
  }

  /** The interval that probe number `k` waits. */
  function Interval(min: int, max: int, k: nat): int {
    min + k * Step(min, max)
  }

  /**
   How the search ends after `probes` probes, of which the first `answered` were
   answered: all but perhaps the last one, and it goes no further when that one
   is not answered or the next interval exceeds the maximum.
   */
  predicate EndsAfter(min: int, max: int, replies: nat -> bool, probes: nat, answered: nat) {
    && 1 <= probes
    && (answered == probes || answered == probes - 1)
    && (forall k | 0 <= k < answered :: replies(k))
    && (answered < probes ==> !replies(answered))
    && (forall k | 1 <= k < probes :: Interval(min, max, k) <= max)
    && (answered == probes ==> Interval(min, max, probes) > max)
  }

  /** (int)(step * (1.5 + 1)) */
  function Margin(step: int): int {
    TruncDiv(5 * step, 2)
  }

  /** DM_STUN_ComputeGlobalTimeout. */
  function ComputeGlobalTimeout(step: int, min: int, max: int, limit: int): (t: int)
    ensures t <= max && (min <= max ==> min <= t)
  {
    var computed := limit - Margin(step) - TIMEOUT_OFFSET;
    var atLeast := if computed < min then min else computed;
    if atLeast > max then max else atLeast
  }

  lemma NotLater(min: int, max: int, replies: nat -> bool, p1: nat, a1: nat, p2: nat, a2: nat)
    requires EndsAfter(min, max, replies, p1, a1) && EndsAfter(min, max, replies, p2, a2)
    ensures p2 <= p1
  {
    hide Interval;
  }

  /** The end of the search is unique: the replies decide it. */
  lemma EndIsUnique(min: int, max: int, replies: nat -> bool, p1: nat, a1: nat, p2: nat, a2: nat)
    requires EndsAfter(min, max, replies, p1, a1) && EndsAfter(min, max, replies, p2, a2)
    ensures p1 == p2 && a1 == a2
  {
    hide Interval;
    NotLater(min, max, replies, p1, a1, p2, a2);
    NotLater(min, max, replies, p2, a2, p1, a1);
  }

  lemma {:induction false} IntervalsGrow(min: int, max: int, k: nat)
    requires min < max
    ensures Interval(min, max, k) >= min + k
    ensures Interval(min, max, k + 1) == Interval(min, max, k) + Step(min, max)
  {
    if k > 0 {
      IntervalsGrow(min, max, k - 1);
      assert k * Step(min, max) == (k - 1) * Step(min, max) + Step(min, max);
    }
    assert (k + 1) * Step(min, max) == k * Step(min, max) + Step(min, max);
  }

  /** 40 steps exceed the range. */
  lemma FortyStepsPassTheRange(min: int, max: int)
    requires min < max
    ensures Interval(min, max, 40) > max
  {
    var d := max - min;
    assert d < 20 * (d / 20) + 20;
  }

  /** Whatever the replies, the search stops after at most 40 probes. */
  lemma AtMostFortyProbes(min: int, max: int, replies: nat -> bool, probes: nat, answered: nat)
    requires min < max && EndsAfter(min, max, replies, probes, answered)
    ensures probes <= 40
  {
    hide Interval;
    FortyStepsPassTheRange(min, max);
  }

  /** The bound is met: a range of 39 seconds takes 40 probes when all are answered. */
  lemma FortyProbesHappen(min: int, replies: nat -> bool)
    requires forall k :: replies(k)
    ensures EndsAfter(min, min + 39, replies, 40, 40)
  {
    assert Step(min, min + 39) == 1;
  }

  /**
   The period that is chosen lies in the range, and when it exceeds the minimum
   it is strictly below the longest interval that was answered.
   */
  lemma ChosenIsSafe(min: int, max: int, replies: nat -> bool, probes: nat, answered: nat)
    requires min < max && EndsAfter(min, max, replies, probes, answered)
    ensures var chosen := ComputeGlobalTimeout(Step(min, max), min, max, Interval(min, max, answered));
            && min <= chosen <= max
            && (chosen > min ==> answered > 0 && replies(answered - 1) && chosen < Interval(min, max, answered - 1))
  {
    hide Interval, Step;
    if answered > 0 {
      IntervalsGrow(min, max, answered - 1);
    } else {
      assert Interval(min, max, 0) == min by { FirstInterval(min, max); }
    }
  }

  /**
   How far the chosen period stays below the interval that would have come next: two and a
   half steps, rounded down, and 5 seconds; and when that leaves nothing above the minimum.
   */
  lemma ChosenExactly(min: int, max: int, replies: nat -> bool, probes: nat, answered: nat)
    requires min < max && EndsAfter(min, max, replies, probes, answered)
    ensures var step, limit := Step(min, max), Interval(min, max, answered);
            var chosen := ComputeGlobalTimeout(step, min, max, limit);
            && (chosen > min ==> 5 * step - 1 <= 2 * (limit - chosen - 5) <= 5 * step)
            && (chosen == min <==> 2 * (limit - min - 5) <= 5 * step)
  {
    hide Interval, Step;
    MaximumIsNotChosen(min, max, replies, probes, answered);
  }

  /** The step is a twentieth of the range, rounded down, but at least a second. */
  lemma StepIsTwentieth(min: int, max: int)
    requires min < max
    ensures if max - min < 20 then Step(min, max) == 1 else 20 * Step(min, max) <= max - min < 20 * Step(min, max) + 20
  {
  }

  lemma FirstInterval(min: int, max: int)
    ensures Interval(min, max, 0) == min
  {
  }

  /** The maximum is never chosen from a proper range: the margin exceeds the last step. */
  lemma MaximumIsNotChosen(min: int, max: int, replies: nat -> bool, probes: nat, answered: nat)
    requires min < max && EndsAfter(min, max, replies, probes, answered)
    ensures ComputeGlobalTimeout(Step(min, max), min, max, Interval(min, max, answered)) < max
  {
    hide Interval, Step;
    FirstInterval(min, max);
    if answered > 0 {
      IntervalsGrow(min, max, answered - 1);
      if answered > 1 {
        assert Interval(min, max, answered - 1) <= max;
      }
    }
  }

  /** With the limits the wrong way round there is one probe, and the result is the maximum. */
  lemma ReversedLimits(min: int, max: int, replies: nat -> bool, probes: nat, answered: nat, limit: int)
    requires min > max && EndsAfter(min, max, replies, probes, answered)
    ensures probes == 1 && ComputeGlobalTimeout(Step(min, max), min, max, limit) == max
  {
    NextInterval(min, max, 0);
  }

  // ----- DM_STUN_timeoutDiscoveryThread -----

  class ThreadData {
    var nTimeout: int
    var timeoutState: TimeoutState
    /** the global g_timeout */
    var gTimeout: int

    constructor (timeout: int)
      ensures nTimeout == timeout && gTimeout == timeout && timeoutState == TIMEOUT_NONE
    {
      nTimeout, gTimeout, timeoutState := timeout, timeout, TIMEOUT_NONE;
    }

    /** While the thread sleeps another one may note that the probe was answered. */
    method Sleep(answered: bool)
      modifies this`timeoutState
      ensures timeoutState == if answered then TIMEOUT_RECEIVED else old(timeoutState)
    {
      if answered {
        timeoutState := TIMEOUT_RECEIVED;
      }
    }

    /** Equal limits end the search before it starts: no period is set at all. */
    method Discover(minTimeout: int, maxTimeout: int, replies: nat -> bool) returns (probes: nat, ghost answered: nat)
      modifies this
      ensures minTimeout == maxTimeout ==> probes == 0 && nTimeout == old(nTimeout) && gTimeout == old(gTimeout)
      ensures minTimeout != maxTimeout ==>
                && EndsAfter(minTimeout, maxTimeout, replies, probes, answered)
                && gTimeout == ComputeGlobalTimeout(Step(minTimeout, maxTimeout), minTimeout, maxTimeout,
                                                    Interval(minTimeout, maxTimeout, answered))
                && nTimeout == (if answered == 0 then old(nTimeout) else Interval(minTimeout, maxTimeout, answered))
    {
      hide Interval, ComputeGlobalTimeout;
      probes, answered := 0, 0;
      if minTimeout == maxTimeout {
        return;
      }
      var timeout := minTimeout;
      var step := TruncDiv(maxTimeout - minTimeout, DM_STUN_NB_MAX_STEP);
      if step == 0 {
        step := 1;
      }
      FirstInterval(minTimeout, maxTimeout);
      while true
        invariant answered == probes && timeout == Interval(minTimeout, maxTimeout, probes)
        invariant forall k | 0 <= k < probes :: replies(k)
        invariant forall k | 1 <= k <= probes :: Interval(minTimeout, maxTimeout, k) <= maxTimeout
        invariant probes > 0 ==> minTimeout < maxTimeout
        invariant nTimeout == (if probes == 0 then old(nTimeout) else timeout)
        decreases maxTimeout - timeout
      {
        timeoutState := TIMEOUT_SEND;
        Sleep(replies(probes));
        var timeoutReceptionState := timeoutState;
        NextInterval(minTimeout, maxTimeout, probes);
        probes := probes + 1;
        if timeoutReceptionState == TIMEOUT_RECEIVED {
          timeout := timeout + step;
          nTimeout := timeout;
          answered := answered + 1;
        }
        if !(timeout <= maxTimeout && timeoutReceptionState == TIMEOUT_RECEIVED) {
          break;
        }
      }
      gTimeout := ComputeGlobalTimeout(step, minTimeout, maxTimeout, timeout);
    }
  }

  lemma NextInterval(min: int, max: int, k: nat)
    requires min != max
    ensures Interval(min, max, k + 1) == Interval(min, max, k) + Step(min, max)
    ensures k == 0 && min > max ==> Interval(min, max, 1) > max
  {
    assert (k + 1) * Step(min, max) == k * Step(min, max) + Step(min, max);
  }
}
