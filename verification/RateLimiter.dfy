/**
 The connection rate limiter (DM_COM_ConnectionSecurity.c): a register of the
 last 100 admissions, against the unbounded history of all admissions.
 */
module RateLimiter {

  const MAXCONNECTIONREQUESTARRAYSIZE: nat := 100
  const DEFAULT_MAX_CONNECTIONREQUEST: nat := 50
  const DEFAULT_FREQ_CONNECTION_REQUEST: nat := 3600

  /** What the engine answers when it is asked for the two limits. */
  datatype Config = Unavailable | MissingValue | Values(max: nat, period: nat)

  datatype Limits = Limits(max: nat, period: nat)

  function LimitsOf(config: Config): (l: Limits)
    ensures l.max < MAXCONNECTIONREQUESTARRAYSIZE
  {
    match config
    case Values(max, period) =>
      Limits(if max >= MAXCONNECTIONREQUESTARRAYSIZE then DEFAULT_MAX_CONNECTIONREQUEST else max, period)
    case _ => Limits(DEFAULT_MAX_CONNECTIONREQUEST, DEFAULT_FREQ_CONNECTION_REQUEST)
  }

  // ----- histories, newest admission first -----

  function Zeros(n: nat): (z: seq<int>)
    ensures |z| == n
  {
    seq(n, i => 0)
  }

  /** What the register holds: before the first admissions it is full of zeros. */
  function Register(history: seq<int>): (s: seq<int>)
    ensures |s| == MAXCONNECTIONREQUESTARRAYSIZE
  {
    (history + Zeros(MAXCONNECTIONREQUESTARRAYSIZE))[..MAXCONNECTIONREQUESTARRAYSIZE]
  }

  /** How many of these times are younger than `period`. */
  function Young(times: seq<int>, now: int, period: nat): nat {
    if times == [] then 0
    else (if now - times[0] < period then 1 else 0) + Young(times[1..], now, period)
  }

  /** The places of the times that are younger than `period`. */
  ghost function Younger(times: seq<int>, now: int, period: nat): set<int> {
    set i | 0 <= i < |times| && now - times[i] < period
  }

  /** Counting one by one gives the number of these places. */
  lemma {:induction false} YoungIsCount(times: seq<int>, now: int, period: nat)
    ensures Young(times, now, period) == |Younger(times, now, period)|
  {
    if times != [] {
      var n := |times| - 1;
      YoungSnoc(times, now, period, n);
      YoungIsCount(times[..n], now, period);
      assert times[..n + 1] == times;
      var before := Younger(times[..n], now, period);
      assert Younger(times, now, period) == if now - times[n] < period then before + {n} else before;
    }
  }

  /** The clock never went back: newest first, and no time is negative. */
  predicate Descending(times: seq<int>) {
    && (forall i, j | 0 <= i < j < |times| :: times[i] >= times[j])
    && (forall i | 0 <= i < |times| :: times[i] >= 0)
  }

  lemma {:induction false} YoungSnoc(times: seq<int>, now: int, period: nat, i: nat)
    requires i < |times|
    ensures Young(times[..i + 1], now, period) == Young(times[..i], now, period) + if now - times[i] < period then 1 else 0
  {
    if i == 0 {
      assert times[..1][1..] == [];
    } else {
      YoungSnoc(times[1..], now, period, i - 1);
      assert times[..i + 1][1..] == times[1..][..i] && times[..i][1..] == times[1..][..i - 1];
    }
  }

  lemma {:induction false} YoungConcat(a: seq<int>, b: seq<int>, now: int, period: nat)
    ensures Young(a + b, now, period) == Young(a, now, period) + Young(b, now, period)
  {
    if a == [] {
      assert a + b == b;
    } else {
      assert (a + b)[1..] == a[1..] + b;
      YoungConcat(a[1..], b, now, period);
    }
  }

  /** In a descending history the young times come first: at least `m` are young when number `m` is. */
  lemma {:induction false} AtLeastYoung(times: seq<int>, now: int, period: nat, m: nat)
    requires Descending(times)
    ensures Young(times, now, period) >= m <==> m == 0 || (m <= |times| && now - times[m - 1] < period)
  {
    if m > 0 && times != [] {
      AtLeastYoung(times[1..], now, period, m - 1);
      if now - times[0] >= period {
        NoneYoung(times, now, period);
      }
    }
  }

  lemma {:induction false} NoneYoung(times: seq<int>, now: int, period: nat)
    requires forall i | 0 <= i < |times| :: now - times[i] >= period
    ensures Young(times, now, period) == 0
  {
    if times != [] {
      NoneYoung(times[1..], now, period);
    }
  }

  /** The answer that the full history calls for. */
  predicate Refused(history: seq<int>, limits: Limits, now: int) {
    Young(history, now, limits.period) >= limits.max
  }

  /**
   The register decides as the full history would, since no limit reaches its
   size; zeros that were never overwritten count as admissions at time 0.
   */
  lemma RegisterSuffices(history: seq<int>, limits: Limits, now: int)
    requires Descending(history) && limits.max < MAXCONNECTIONREQUESTARRAYSIZE
    ensures Refused(Register(history), limits, now) <==>
            Refused(history + Zeros(MAXCONNECTIONREQUESTARRAYSIZE), limits, now)
    ensures now >= limits.period ==> (Refused(Register(history), limits, now) <==> Refused(history, limits, now))
  {
    hide Young;
    var padded := history + Zeros(MAXCONNECTIONREQUESTARRAYSIZE);
    AtLeastYoung(padded, now, limits.period, limits.max);
    AtLeastYoung(Register(history), now, limits.period, limits.max);
    YoungConcat(history, Zeros(MAXCONNECTIONREQUESTARRAYSIZE), now, limits.period);
    if now >= limits.period {
      NoneYoung(Zeros(MAXCONNECTIONREQUESTARRAYSIZE), now, limits.period);
    }
  }

  /** Before the clock reaches `period`, every request is refused, whatever the history. */
  lemma EarlyRequestsAreRefused(history: seq<int>, limits: Limits, now: int)
    requires Descending(history) && limits.max < MAXCONNECTIONREQUESTARRAYSIZE && now < limits.period
    ensures Refused(Register(history), limits, now)
  {
    hide Young;
    AtLeastYoung(Register(history), now, limits.period, limits.max);
  }

  /** So the register departs from the history exactly while the clock is below `period` and the history is not full. */
  lemma RegisterAgreesIff(history: seq<int>, limits: Limits, now: int)
    requires Descending(history) && limits.max < MAXCONNECTIONREQUESTARRAYSIZE
    ensures (Refused(Register(history), limits, now) <==> Refused(history, limits, now))
            <==> now >= limits.period || Refused(history, limits, now)
  {
    hide Refused, Register;
    RegisterSuffices(history, limits, now);
    if now < limits.period {
      EarlyRequestsAreRefused(history, limits, now);
    }
  }

  /** At least `max` of these times are younger than `period`. */
  ghost predicate AtLeast(times: seq<int>, now: int, max: nat, period: nat) {
    |Younger(times, now, period)| >= max
  }

  /** The answer in terms of what is configured: the values given, 50 for a maximum that is too large, or 50 in an hour. */
  ghost predicate RefusedFor(times: seq<int>, config: Config, now: int) {
    if !config.Values? then AtLeast(times, now, 50, 3600)
    else AtLeast(times, now, if config.max < 100 then config.max else 50, config.period)
  }

  lemma RefusedAsConfigured(times: seq<int>, config: Config, now: int)
    ensures Refused(times, LimitsOf(config), now) <==> RefusedFor(times, config, now)
  {
    YoungIsCount(times, now, LimitsOf(config).period);
  }

  // ----- runs with fixed limits -----

  /** A request is checked at one time and, if it is allowed, recorded at another one. */
  datatype Request = Request(checked: int, recorded: int)

  /** The history after these requests, first request first. */
  function Admitted(requests: seq<Request>, limits: Limits): seq<int>
    decreases |requests|
  {
    if requests == [] then []
    else
      var last := requests[|requests| - 1];
      var before := Admitted(requests[..|requests| - 1], limits);
      if Refused(Register(before), limits, last.checked) then before else [last.recorded] + before
  }

  /** The clock does not go back, within a request or from one to the next. */
  predicate ClockAdvances(requests: seq<Request>) {
    && (forall i | 0 <= i < |requests| :: 0 <= requests[i].checked <= requests[i].recorded)
    && (forall i, j | 0 <= i < j < |requests| :: requests[i].recorded <= requests[j].checked)
  }

  /** From each admission to the one `max` places earlier at least `period` seconds passed. */
  predicate Spaced(history: seq<int>, limits: Limits) {
    forall i | 0 <= i && i + limits.max < |history| :: history[i] - history[i + limits.max] >= limits.period
  }

  lemma {:induction false} AdmissionsAreSpaced(requests: seq<Request>, limits: Limits)
    requires ClockAdvances(requests) && limits.max < MAXCONNECTIONREQUESTARRAYSIZE
    ensures var h := Admitted(requests, limits);
            && Descending(h) && Spaced(h, limits)
            && (h != [] ==> requests != [] && h[0] <= requests[|requests| - 1].recorded)
    decreases |requests|
  {
    hide Refused, Register;
    if requests != [] {
      var n := |requests| - 1;
      var last := requests[n];
      AdmissionsAreSpaced(requests[..n], limits);
      var before := Admitted(requests[..n], limits);
      if !Refused(Register(before), limits, last.checked) {
        assert before != [] ==> n > 0 && before[0] <= requests[n - 1].recorded <= last.checked;
        AdmissionIsSpaced(before, limits, last);
      }
    }
  }

  lemma AdmissionIsSpaced(before: seq<int>, limits: Limits, last: Request)
    requires Descending(before) && Spaced(before, limits) && limits.max < MAXCONNECTIONREQUESTARRAYSIZE
    requires 0 <= last.checked <= last.recorded && (before != [] ==> before[0] <= last.checked)
    requires !Refused(Register(before), limits, last.checked)
    ensures Descending([last.recorded] + before) && Spaced([last.recorded] + before, limits)
  {
    hide Refused, Register;
    if |before| >= limits.max {
      NotRefused(before, limits, last.checked);
    }
    var h := [last.recorded] + before;
    forall i | 0 <= i && i + limits.max < |h| ensures h[i] - h[i + limits.max] >= limits.period {
      if i > 0 {
        assert before[i - 1] - before[i - 1 + limits.max] >= limits.period;
      }
    }
  }

  /** A request that is not refused comes late enough after the admission `max` places back. */
  lemma NotRefused(history: seq<int>, limits: Limits, now: int)
    requires Descending(history) && limits.max < MAXCONNECTIONREQUESTARRAYSIZE && |history| >= limits.max
    requires !Refused(Register(history), limits, now)
    ensures limits.max > 0 && now - history[limits.max - 1] >= limits.period
  {
    hide Young;
    AtLeastYoung(Register(history), now, limits.period, limits.max);
  }

  /** The admissions from `start` on, for `period` seconds. */
  function InWindow(history: seq<int>, start: int, period: nat): nat {
    if history == [] then 0
    else (if start <= history[0] < start + period then 1 else 0) + InWindow(history[1..], start, period)
  }

  lemma {:induction false} WindowOfPrefix(history: seq<int>, start: int, period: nat, n: nat)
    requires forall i | n <= i < |history| :: history[i] < start
    ensures InWindow(history, start, period) <= n
  {
    if history != [] {
      WindowOfPrefix(history[1..], start, period, if n > 0 then n - 1 else 0);
    }
  }

  lemma {:induction false} SpacedWindow(history: seq<int>, limits: Limits, start: int)
    requires Descending(history) && Spaced(history, limits)
    ensures InWindow(history, start, limits.period) <= limits.max
  {
    if history != [] {
      if history[0] >= start + limits.period {
        assert Spaced(history[1..], limits) by { SpacedTail(history, limits); }
        SpacedWindow(history[1..], limits, start);
      } else {
        forall i | limits.max <= i < |history| ensures history[i] < start {
          assert history[i - limits.max] - history[i - limits.max + limits.max] >= limits.period;
        }
        WindowOfPrefix(history, start, limits.period, limits.max);
      }
    }
  }

  lemma SpacedTail(history: seq<int>, limits: Limits)
    requires history != [] && Spaced(history, limits)
    ensures Spaced(history[1..], limits)
  {
    forall i | 0 <= i && i + limits.max < |history[1..]| ensures history[1..][i] - history[1..][i + limits.max] >= limits.period {
      assert history[i + 1] - history[i + 1 + limits.max] >= limits.period;
    }
  }

  /** No window of `period` seconds ever holds more than `max` admissions. */
  lemma WindowBound(requests: seq<Request>, limits: Limits, start: int)
    requires ClockAdvances(requests) && limits.max < MAXCONNECTIONREQUESTARRAYSIZE
    ensures InWindow(Admitted(requests, limits), start, limits.period) <= limits.max
  {
    AdmissionsAreSpaced(requests, limits);
    SpacedWindow(Admitted(requests, limits), limits, start);
  }

  /** The same for a run under a fixed configuration, in the values that are configured. */
  lemma ConfiguredWindowBound(requests: seq<Request>, config: Config, start: int)
    requires ClockAdvances(requests)
    ensures var admitted := Admitted(requests, LimitsOf(config));
            if !config.Values? then InWindow(admitted, start, 3600) <= 50
            else InWindow(admitted, start, config.period) <= if config.max < 100 then config.max else 50
  {
    WindowBound(requests, LimitsOf(config), start);
  }

  /** With its clock at `period` or later, a run refuses a request exactly when that many admissions of the run are too young. */
  lemma ConfiguredAnswer(requests: seq<Request>, config: Config, now: int)
    requires ClockAdvances(requests) && now >= if config.Values? then config.period else 3600
    ensures var admitted := Admitted(requests, LimitsOf(config));
            RefusedFor(Register(admitted), config, now) <==> RefusedFor(admitted, config, now)
  {
    hide Refused, RefusedFor, Register;
    var admitted := Admitted(requests, LimitsOf(config));
    AdmissionsAreSpaced(requests, LimitsOf(config));
    RegisterSuffices(admitted, LimitsOf(config), now);
    RefusedAsConfigured(admitted, config, now);
    RefusedAsConfigured(Register(admitted), config, now);
  }

  // ----- the register -----

  class ConnectionFreqArray {
    var times: array<int>
    /** all admissions, newest first */
    ghost var history: seq<int>

    ghost predicate Valid()
      reads this, times
    {
      times.Length == MAXCONNECTIONREQUESTARRAYSIZE && times[..] == Register(history)
    }

    /** initConnectionFreqArray. */
    constructor ()
      ensures Valid() && history == [] && fresh(times)
    {
      var a := new int[MAXCONNECTIONREQUESTARRAYSIZE];
      for i := 0 to MAXCONNECTIONREQUESTARRAYSIZE
        invariant forall j | 0 <= j < i :: a[j] == 0
      {
        a[i] := 0;
      }
      times := a;
      history := [];
    }

    /** newConnectionRequestAllowed at time `curtime`. */
    method NewConnectionRequestAllowed(curtime: int)
      requires Valid()
      modifies this`history, times
      ensures Valid() && history == [curtime] + old(history)
    {
      ghost var was, old100 := history, times[..];
      var i := MAXCONNECTIONREQUESTARRAYSIZE - 1;
      while i > 0
        invariant 0 <= i < times.Length
        invariant forall j | 0 <= j <= i :: times[j] == old100[j]
        invariant forall j | i < j < times.Length :: times[j] == old100[j - 1]
        invariant history == was
      {
        times[i] := times[i - 1];
        i := i - 1;
      }
      times[0] := curtime;
      history := [curtime] + history;
      Shifted(was, curtime);
      assert times[..] == [curtime] + old100[..MAXCONNECTIONREQUESTARRAYSIZE - 1];
    }

    /** maxConnectionPerPeriodReached at time `curtime`. */
    method MaxConnectionPerPeriodReached(config: Config, curtime: int) returns (reached: bool)
      requires Valid()
      ensures reached == Refused(Register(history), LimitsOf(config), curtime)
      ensures reached == RefusedFor(times[..], config, curtime)
    {
      RefusedAsConfigured(times[..], config, curtime);
      reached := true;
      var maxConnectionRequest, periodConnectionRequest;
      match config {
        case Values(max, period) =>
          maxConnectionRequest, periodConnectionRequest := max, period;
          if maxConnectionRequest >= MAXCONNECTIONREQUESTARRAYSIZE {
            maxConnectionRequest := DEFAULT_MAX_CONNECTIONREQUEST;
          }
        case _ =>
          maxConnectionRequest, periodConnectionRequest := DEFAULT_MAX_CONNECTIONREQUEST, DEFAULT_FREQ_CONNECTION_REQUEST;
      }
      var number := 0;
      for i := 0 to MAXCONNECTIONREQUESTARRAYSIZE
        invariant number == Young(times[..i], curtime, periodConnectionRequest)
      {
        YoungSnoc(times[..], curtime, periodConnectionRequest, i);
        assert times[..][..i + 1] == times[..i + 1] && times[..][..i] == times[..i];
        if curtime - times[i] < periodConnectionRequest {
          number := number + 1;
        }
      }
      assert times[..MAXCONNECTIONREQUESTARRAYSIZE] == times[..];
      if number < maxConnectionRequest {
        if number != MAXCONNECTIONREQUESTARRAYSIZE {
          reached := false;
        }
      }
    }
  }

  lemma Shifted(history: seq<int>, t: int)
    ensures Register([t] + history) == [t] + Register(history)[..MAXCONNECTIONREQUESTARRAYSIZE - 1]
  {
  }
}
