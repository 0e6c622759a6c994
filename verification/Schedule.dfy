/** What the scheduling rule of Monitor guarantees over whole runs: every entry gets its turn,
    and checks of one registry keep their distance. */
module Schedule {
  import opened Prelude
  import opened Monitor
  import TrackedImages

  /** A check: when it was decided, and the later time at which it is made. */
  datatype Check = Check(decided: int, at: int)

  /** The time that is recorded for it: the API server drops fractions of a second, and a second
      is some number of time units. */
  function Stored(at: int, unit: int): int
    requires unit > 0
  {
    at - at % unit
  }

  lemma StoredBounds(at: int, unit: int)
    requires unit > 0
    ensures at - unit < Stored(at, unit) <= at
  {
  }

  // ----- Round robin over a fixed set of entries -----

  ghost function StampsAfter(unit: int, stamps: seq<Option<int>>, checks: seq<Check>, k: nat): (r: seq<Option<int>>)
    requires unit > 0 && k <= |checks| && stamps != []
    ensures |r| == |stamps|
  {
    if k == 0 then stamps
    else
      var before := StampsAfter(unit, stamps, checks, k - 1);
      before[Pick(before) := Some(Stored(checks[k - 1].at, unit))]
  }

  /** The entry that check number k picks. */
  ghost function PickedBy(unit: int, stamps: seq<Option<int>>, checks: seq<Check>, k: nat): nat
    requires unit > 0 && k < |checks| && stamps != []
  {
    Pick(StampsAfter(unit, stamps, checks, k))
  }

  ghost predicate CheckAllowed(unit: int, tick: int, stamps: seq<Option<int>>, checks: seq<Check>, k: nat)
    requires unit > 0 && stamps != [] && k < |checks|
  {
    && checks[k].decided <= checks[k].at
    && Due(Latest(StampsAfter(unit, stamps, checks, k)), tick, checks[k].decided)
  }

  /** Every check of the run happens when the registry is due. */
  ghost predicate CheckRun(unit: int, tick: int, stamps: seq<Option<int>>, checks: seq<Check>) {
    unit > 0 && stamps != [] && forall k :: 0 <= k < |checks| ==> CheckAllowed(unit, tick, stamps, checks, k)
  }

  /** Entry x waits longer than since time t. */
  predicate OlderThan(stamp: Option<int>, t: int) {
    stamp.None? || stamp.value < t
  }

  /** Right after check i everything but the checked entry is older than it. */
  lemma CheckedIsNewest(unit: int, tick: int, stamps: seq<Option<int>>, checks: seq<Check>, i: nat, x: nat)
    requires CheckRun(unit, tick, stamps, checks) && unit <= tick && i < |checks|
    requires x < |stamps| && x != PickedBy(unit, stamps, checks, i)
    ensures OlderThan(StampsAfter(unit, stamps, checks, i + 1)[x], Stored(checks[i].at, unit))
  {
    var before := StampsAfter(unit, stamps, checks, i);
    assert CheckAllowed(unit, tick, stamps, checks, i);
    StoredBounds(checks[i].at, unit);
    if before[x].Some? {
      LatestIsGreatest(before, x);
    }
  }

  /** The entries picked by the n checks from number k on. */
  ghost function PicksFrom(unit: int, stamps: seq<Option<int>>, checks: seq<Check>, k: nat, n: nat): (picks: seq<nat>)
    requires unit > 0 && k + n <= |checks| && stamps != []
    ensures |picks| == n
  {
    if n == 0 then []
    else PicksFrom(unit, stamps, checks, k, n - 1) + [PickedBy(unit, stamps, checks, k + n - 1)]
  }

  lemma {:induction false} PicksFromAt(
    unit: int, stamps: seq<Option<int>>, checks: seq<Check>, k: nat, n: nat, d: nat)
    requires unit > 0 && k + n <= |checks| && stamps != [] && d < n
    ensures PicksFrom(unit, stamps, checks, k, n)[d] == PickedBy(unit, stamps, checks, k + d)
  {
    if d < n - 1 {
      PicksFromAt(unit, stamps, checks, k, n - 1, d);
    }
  }

  lemma OlderIsPickedFirst(stamps: seq<Option<int>>, e: nat, t: int, x: nat)
    requires e < |stamps| && x < |stamps| && stamps[e] == Some(t) && OlderThan(stamps[x], t)
    ensures Pick(stamps) != e
  {
    PickIsMostOverdue(stamps, x);
  }

  lemma NotInPrefix(unit: int, stamps: seq<Option<int>>, checks: seq<Check>, k: nat, n: nat, x: nat)
    requires unit > 0 && k + n <= |checks| && stamps != [] && n > 0
    requires x !in PicksFrom(unit, stamps, checks, k, n)
    ensures x !in PicksFrom(unit, stamps, checks, k, n - 1) && x != PickedBy(unit, stamps, checks, k + n - 1)
  {
  }

  lemma OthersKeepTheirStamp(unit: int, stamps: seq<Option<int>>, checks: seq<Check>, k: nat, x: nat)
    requires unit > 0 && stamps != [] && k < |checks| && x < |stamps| && x != PickedBy(unit, stamps, checks, k)
    ensures StampsAfter(unit, stamps, checks, k + 1)[x] == StampsAfter(unit, stamps, checks, k)[x]
  {
  }

  lemma CheckedIsStamped(unit: int, stamps: seq<Option<int>>, checks: seq<Check>, i: nat)
    requires unit > 0 && stamps != [] && i < |checks|
    ensures PickedBy(unit, stamps, checks, i) < |stamps|
    ensures StampsAfter(unit, stamps, checks, i + 1)[PickedBy(unit, stamps, checks, i)] ==
              Some(Stored(checks[i].at, unit))
  {
  }

  /** Until it is picked itself, an entry stays older than check i; and the one picked at i is
      not picked again while such an entry exists. */
  lemma {:induction false} UnpickedStayOlder(
    unit: int, tick: int, stamps: seq<Option<int>>, checks: seq<Check>, i: nat, m: nat, x: nat)
    requires CheckRun(unit, tick, stamps, checks) && unit <= tick && i < m <= |checks|
    requires x < |stamps| && x != PickedBy(unit, stamps, checks, i)
    requires x !in PicksFrom(unit, stamps, checks, i + 1, m - i - 1)
    ensures OlderThan(StampsAfter(unit, stamps, checks, m)[x], Stored(checks[i].at, unit))
    ensures StampsAfter(unit, stamps, checks, m)[PickedBy(unit, stamps, checks, i)] == Some(Stored(checks[i].at, unit))
    ensures m < |checks| ==> PickedBy(unit, stamps, checks, m) != PickedBy(unit, stamps, checks, i)
  {
    CheckedIsStamped(unit, stamps, checks, i);
    assert unit > 0;
    hide Stored, OlderThan, CheckRun, StampsAfter, PicksFrom;
    var e, t := PickedBy(unit, stamps, checks, i), Stored(checks[i].at, unit);
    if m == i + 1 {
      CheckedIsNewest(unit, tick, stamps, checks, i, x);
    } else {
      NotInPrefix(unit, stamps, checks, i + 1, m - i - 1, x);
      UnpickedStayOlder(unit, tick, stamps, checks, i, m - 1, x);
      OthersKeepTheirStamp(unit, stamps, checks, m - 1, x);
      OthersKeepTheirStamp(unit, stamps, checks, m - 1, e);
    }
    OlderIsPickedFirst(StampsAfter(unit, stamps, checks, m), e, t, x);
  }

  /** With n entries and a tick of at least a stored second, no entry is checked twice within n
      checks, whatever the starting times are. */
  lemma NoRepeatWithinRound(unit: int, tick: int, stamps: seq<Option<int>>, checks: seq<Check>, i: nat, j: nat)
    requires CheckRun(unit, tick, stamps, checks) && unit <= tick
    requires i < j < |checks| && j < i + |stamps|
    ensures PickedBy(unit, stamps, checks, i) != PickedBy(unit, stamps, checks, j)
  {
    var picks := PicksFrom(unit, stamps, checks, i + 1, j - i - 1);
    var x := SomeoneMissing(picks + [PickedBy(unit, stamps, checks, i)], |stamps|);
    UnpickedStayOlder(unit, tick, stamps, checks, i, j, x);
  }

  /** The entries checked by the n checks from number k on. */
  ghost function PicksOfRound(unit: int, stamps: seq<Option<int>>, checks: seq<Check>, k: nat): (r: seq<nat>)
    requires unit > 0 && stamps != [] && k + |stamps| <= |checks|
    ensures |r| == |stamps|
  {
    PicksFrom(unit, stamps, checks, k, |stamps|)
  }

  /** Any n consecutive checks check each of the n entries exactly once. */
  lemma RoundRobin(unit: int, tick: int, stamps: seq<Option<int>>, checks: seq<Check>, k: nat)
    requires CheckRun(unit, tick, stamps, checks) && unit <= tick && k + |stamps| <= |checks|
    ensures IsPermutation(PicksOfRound(unit, stamps, checks, k), |stamps|)
  {
    var r := PicksOfRound(unit, stamps, checks, k);
    forall a, b | 0 <= a < b < |r| ensures r[a] != r[b] {
      PicksFromAt(unit, stamps, checks, k, |stamps|, a);
      PicksFromAt(unit, stamps, checks, k, |stamps|, b);
      NoRepeatWithinRound(unit, tick, stamps, checks, k + a, k + b);
    }
    forall d | 0 <= d < |r| ensures r[d] < |stamps| {
      PicksFromAt(unit, stamps, checks, k, |stamps|, d);
    }
    DistinctCovers(r, |stamps|);
  }

  ghost predicate FairFrom(unit: int, tick: int, n: nat, stamps: seq<Option<int>>, checks: seq<Check>, k: nat) {
    |stamps| == n && CheckRun(unit, tick, stamps, checks) && k + n <= |checks| ==>
      IsPermutation(PicksOfRound(unit, stamps, checks, k), n)
  }

  ghost predicate Fair(unit: int, tick: int, n: nat) {
    forall stamps: seq<Option<int>>, checks: seq<Check>, k: nat :: FairFrom(unit, tick, n, stamps, checks, k)
  }

  lemma {:induction false} EqualStampsPickFirst(stamps: seq<Option<int>>)
    requires stamps != [] && forall i :: 0 <= i < |stamps| ==> stamps[i] == Some(0)
    ensures Pick(stamps) == 0 && Latest(stamps) == Some(0)
  {
    if |stamps| > 1 {
      EqualStampsPickFirst(stamps[..|stamps| - 1]);
    } else {
      assert stamps[..0] == [];
    }
  }

  /** With a tick below a stored second the recorded time need not advance between checks, and the
      first entry can be checked for ever. */
  lemma ShortTickStarves(unit: int, tick: int, n: nat)
    requires 0 <= tick < unit && n >= 2
    ensures !Fair(unit, tick, n)
  {
    var stamps := seq(n, _ => Some(0));
    var checks := seq(n, _ => Check(tick, tick));
    forall k | 0 <= k <= n ensures StampsAfter(unit, stamps, checks, k) == stamps {
      FrozenStamps(unit, tick, stamps, checks, k);
    }
    EqualStampsPickFirst(stamps);
    assert CheckRun(unit, tick, stamps, checks);
    PicksFromAt(unit, stamps, checks, 0, n, 0);
    PicksFromAt(unit, stamps, checks, 0, n, 1);
    var r := PicksOfRound(unit, stamps, checks, 0);
    assert r[0] == r[1];
    assert !FairFrom(unit, tick, n, stamps, checks, 0);
  }

  lemma {:induction false} FrozenStamps(unit: int, tick: int, stamps: seq<Option<int>>, checks: seq<Check>, k: nat)
    requires 0 <= tick < unit && stamps != [] && k <= |checks|
    requires forall i :: 0 <= i < |stamps| ==> stamps[i] == Some(0)
    requires forall i :: 0 <= i < |checks| ==> checks[i] == Check(tick, tick)
    ensures StampsAfter(unit, stamps, checks, k) == stamps
  {
    if k > 0 {
      FrozenStamps(unit, tick, stamps, checks, k - 1);
      EqualStampsPickFirst(stamps);
      Remainder(0, tick, unit);
    }
  }

  /** The scheduler is fair to two or more entries exactly when the interval holds maxPerInterval
      stored seconds, so that the tick does not fall below one. */
  lemma FairnessNeedsATick(unit: int, interval: nat, maxPerInterval: nat, n: nat)
    requires unit > 0 && maxPerInterval > 0 && n >= 2
    ensures Fair(unit, Tick(interval, maxPerInterval), n) <==> unit * maxPerInterval <= interval
  {
    var tick := Tick(interval, maxPerInterval);
    TickIsFloor(interval, maxPerInterval, unit);
    if unit <= tick {
      forall stamps: seq<Option<int>>, checks: seq<Check>, k: nat
        ensures FairFrom(unit, tick, n, stamps, checks, k)
      {
        if |stamps| == n && CheckRun(unit, tick, stamps, checks) && k + n <= |checks| {
          RoundRobin(unit, tick, stamps, checks, k);
        }
      }
    } else {
      ShortTickStarves(unit, tick, n);
    }
  }

  lemma TickIsFloor(interval: nat, maxPerInterval: nat, t: int)
    requires maxPerInterval > 0
    ensures 0 <= Tick(interval, maxPerInterval)
    ensures t <= Tick(interval, maxPerInterval) <==> t * maxPerInterval <= interval
  {
    var q := Tick(interval, maxPerInterval);
    assert interval == q * maxPerInterval + interval % maxPerInterval;
    if t <= q {
      Scales(t, q, maxPerInterval);
    } else {
      Scales(q + 1, t, maxPerInterval);
    }
  }

  // ----- Distance between checks, while entries come and go -----

  /** A check, or any other change of what is tracked on the registry. */
  datatype Event = Checked(check: Check) | Changed(after: seq<Option<int>>)

  /** A change may not take the registry's latest check away. */
  ghost predicate Allowed(tick: int, stamps: seq<Option<int>>, e: Event) {
    match e
    case Checked(c) => stamps != [] && c.decided <= c.at && Due(Latest(stamps), tick, c.decided)
    case Changed(after) => Latest(after) == Latest(stamps)
  }

  ghost function Apply(unit: int, tick: int, stamps: seq<Option<int>>, e: Event): seq<Option<int>>
    requires unit > 0 && Allowed(tick, stamps, e)
  {
    match e
    case Checked(c) => stamps[Pick(stamps) := Some(Stored(c.at, unit))]
    case Changed(after) => after
  }

  /** The recorded times after the events, if each was allowed. */
  ghost function StampsOf(unit: int, tick: int, start: seq<Option<int>>, events: seq<Event>): Option<seq<Option<int>>>
    requires unit > 0
    decreases |events|
  {
    if events == [] then Some(start)
    else
      var before, e := StampsOf(unit, tick, start, events[..|events| - 1]), events[|events| - 1];
      if before.Some? && Allowed(tick, before.value, e) then Some(Apply(unit, tick, before.value, e)) else None
  }

  /** When the checks are made. */
  ghost function Times(events: seq<Event>): seq<int>
    decreases |events|
  {
    if events == [] then []
    else
      var e := events[|events| - 1];
      Times(events[..|events| - 1]) + if e.Checked? then [e.check.at] else []
  }

  /** Each check is at least a tick after the recorded time of the one before it. */
  ghost predicate Spaced(unit: int, times: seq<int>, tick: int)
    requires unit > 0
  {
    forall i :: 0 < i < |times| ==> Stored(times[i - 1], unit) + tick <= times[i]
  }

  lemma {:induction false} ChecksKeepDistance(unit: int, tick: int, start: seq<Option<int>>, events: seq<Event>)
    requires unit > 0 && StampsOf(unit, tick, start, events).Some?
    ensures Spaced(unit, Times(events), tick)
    ensures Times(events) != [] ==>
              var latest := Latest(StampsOf(unit, tick, start, events).value);
              latest.Some? && latest.value >= Stored(Times(events)[|Times(events)| - 1], unit)
    decreases |events|
  {
    hide Latest, Apply, Stored;
    if events != [] {
      var front, e := events[..|events| - 1], events[|events| - 1];
      ChecksKeepDistance(unit, tick, start, front);
      EventKeepsLatest(unit, tick, StampsOf(unit, tick, start, front).value, e);
    }
  }

  lemma EventKeepsLatest(unit: int, tick: int, stamps: seq<Option<int>>, e: Event)
    requires unit > 0 && Allowed(tick, stamps, e)
    ensures var latest := Latest(Apply(unit, tick, stamps, e));
            if e.Checked? then latest.Some? && latest.value >= Stored(e.check.at, unit) else latest == Latest(stamps)
  {
    if e.Checked? {
      var after := Apply(unit, tick, stamps, e);
      assert after[Pick(stamps)] == Some(Stored(e.check.at, unit));
      LatestIsGreatest(after, Pick(stamps));
    }
  }

  lemma StoredAddsWhole(m: int, x: int, unit: int)
    requires unit > 0
    ensures Stored(Stored(m, unit) + x, unit) == Stored(m, unit) + Stored(x, unit)
  {
    var q := m / unit;
    assert Stored(m, unit) == q * unit;
    assert (q * unit + x) % unit == x % unit by {
      assert q * unit + x == (q + x / unit) * unit + x % unit;
      Remainder(q + x / unit, x % unit, unit);
    }
  }

  lemma Remainder(q: int, r: int, unit: int)
    requires 0 <= r < unit
    ensures (q * unit + r) % unit == r
  {
    var k := (q * unit + r) / unit;
    var s := (q * unit + r) % unit;
    assert k * unit + s == q * unit + r;
    assert (k - q) * unit == r - s && (q - k) * unit == s - r;
    if k > q {
      Scales(1, k - q, unit);
    } else if k < q {
      Scales(1, q - k, unit);
    }
  }

  lemma StoredIsMonotone(a: int, b: int, unit: int)
    requires unit > 0 && a <= b
    ensures Stored(a, unit) <= Stored(b, unit)
  {
    var p, q := a / unit, b / unit;
    assert Stored(a, unit) == p * unit && Stored(b, unit) == q * unit;
    if p > q {
      Scales(q + 1, p, unit);
    }
  }

  /** Between check i and the later check j lie j - i gaps: a whole tick counts once, the others
      lose what is less than a stored second, and so does the first recorded time. */
  lemma {:induction false} SpacedApart(unit: int, times: seq<int>, tick: int, i: nat, j: nat)
    requires unit > 0 && Spaced(unit, times, tick) && i < j < |times|
    ensures times[j] >= Stored(times[i], unit) + (j - i - 1) * Stored(tick, unit) + tick
    ensures times[j] - times[i] > (j - i - 1) * Stored(tick, unit) + tick - unit
  {
    hide Stored;
    StoredBounds(times[i], unit);
    if i + 1 < j {
      SpacedApart(unit, times, tick, i, j - 1);
      var whole := (j - i - 2) * Stored(tick, unit);
      StoredMultiple(tick, j - i - 2, unit);
      StoredIsMonotone(Stored(times[i], unit) + whole + tick, times[j - 1], unit);
      StoredSum(times[i], whole, tick, unit);
      assert (j - i - 1) * Stored(tick, unit) == whole + Stored(tick, unit);
    }
  }

  lemma StoredMultiple(x: int, k: int, unit: int)
    requires unit > 0
    ensures Stored(k * Stored(x, unit), unit) == k * Stored(x, unit)
  {
    var q := x / unit;
    assert Stored(x, unit) == q * unit;
    assert k * (q * unit) == (k * q) * unit;
    Remainder(k * q, 0, unit);
  }

  lemma StoredSum(m: int, whole: int, x: int, unit: int)
    requires unit > 0 && Stored(whole, unit) == whole
    ensures Stored(Stored(m, unit) + whole + x, unit) == Stored(m, unit) + whole + Stored(x, unit)
  {
    hide Stored;
    StoredAddsWhole(m, whole + x, unit);
    StoredAddsWhole(whole, x, unit);
    assert Stored(m, unit) + whole + x == Stored(m, unit) + (whole + x);
  }

  /** How many of the first n times fall into [start, start + w). */
  function CountIn(times: seq<int>, start: int, w: int, n: nat): nat
    requires n <= |times|
  {
    if n == 0 then 0
    else CountIn(times, start, w, n - 1) + if start <= times[n - 1] < start + w then 1 else 0
  }

  lemma {:induction false} CountSpans(times: seq<int>, start: int, w: int, n: nat) returns (a: nat, b: nat)
    requires n <= |times| && CountIn(times, start, w, n) > 0
    ensures a <= b < n && start <= times[a] < start + w && start <= times[b] < start + w
    ensures CountIn(times, start, w, n) <= b - a + 1
  {
    var inside := start <= times[n - 1] < start + w;
    if CountIn(times, start, w, n - 1) == 0 {
      a, b := n - 1, n - 1;
    } else {
      a, b := CountSpans(times, start, w, n - 1);
      if inside {
        b := n - 1;
      }
    }
  }

  /** A half-open window of length w that holds k > 1 checks is longer than k - 2 whole ticks and
      one more tick, less a stored second. */
  lemma WindowBound(unit: int, tick: nat, start: seq<Option<int>>, events: seq<Event>, from: int, w: nat)
    requires unit > 0 && StampsOf(unit, tick, start, events).Some?
    ensures var k := CountIn(Times(events), from, w, |Times(events)|);
            k > 1 ==> (k - 2) * Stored(tick, unit) + tick - unit + 1 < w
  {
    hide CountIn, Times, StampsOf, Spaced, Latest;
    var times := Times(events);
    var k := CountIn(times, from, w, |times|);
    if k > 1 {
      var a, b := CountSpans(times, from, w, |times|);
      ChecksKeepDistance(unit, tick, start, events);
      SpacedApart(unit, times, tick, a, b);
      StoredIsMonotone(0, tick, unit);
      Scales(k - 2, b - a - 1, Stored(tick, unit));
    }
  }

  function CeilDiv(a: nat, b: nat): nat
    requires b > 0
  {
    (a + b - 1) / b
  }

  lemma CeilDivBounds(a: nat, b: nat, k: nat)
    requires b > 0
    ensures k <= CeilDiv(a, b) <==> k == 0 || (k - 1) * b < a
  {
    var q := CeilDiv(a, b);
    assert a + b - 1 == q * b + (a + b - 1) % b;
    hide CeilDiv;
    if k > q {
      Scales(q, k - 1, b);
    } else if k > 0 {
      Scales(k - 1, q - 1, b);
      assert (q - 1) * b == q * b - b;
    }
  }

  /** If times are stored exactly, a window of length w holds at most ceil(w / tick) checks. */
  lemma ExactWindowBound(tick: nat, start: seq<Option<int>>, events: seq<Event>, from: int, w: nat)
    requires tick > 0 && StampsOf(1, tick, start, events).Some?
    ensures CountIn(Times(events), from, w, |Times(events)|) <= CeilDiv(w, tick)
  {
    hide CeilDiv, CountIn, Times, StampsOf, Stored;
    var times := Times(events);
    var k := CountIn(times, from, w, |times|);
    WindowBound(1, tick, start, events, from, w);
    CeilDivBounds(w, tick, k);
    if k > 1 {
      StoredBounds(tick, 1);
      assert (k - 1) * tick == (k - 2) * tick + tick;
    } else if k == 1 {
      var a, b := CountSpans(times, from, w, |times|);
    }
  }

  // ----- The configured maximum -----

  ghost predicate Forward(times: seq<int>) {
    forall i, j :: 0 <= i < j < |times| ==> times[i] <= times[j]
  }

  /** No window of one interval holds more checks, in any run in which time goes forward. */
  ghost predicate NeverExceeds(unit: int, interval: nat, maxPerInterval: nat)
    requires unit > 0 && maxPerInterval > 0
  {
    var tick := Tick(interval, maxPerInterval);
    forall start, events, from :: StampsOf(unit, tick, start, events).Some? && Forward(Times(events)) ==>
      CountIn(Times(events), from, interval, |Times(events)|) <= maxPerInterval
  }

  /** One entry checked as often as possible, the first time at a fraction of a second. */
  function SaturatedTime(first: int, tick: int, n: nat): int {
    if n == 0 then first else n * tick
  }

  ghost function Saturated(first: int, tick: int, n: nat): seq<Event> {
    if n == 0 then []
    else
      var t := SaturatedTime(first, tick, n - 1);
      Saturated(first, tick, n - 1) + [Checked(Check(t, t))]
  }

  ghost predicate IsFraction(unit: int, tick: int, first: int) {
    0 <= first < unit && first <= tick
  }

  lemma {:induction false} SaturatedRuns(unit: int, first: int, tick: nat, n: nat)
    requires IsFraction(unit, tick, first)
    ensures StampsOf(unit, tick, [None], Saturated(first, tick, n)) ==
              Some([if n == 0 then None else Some(Stored(SaturatedTime(first, tick, n - 1), unit))])
  {
    hide Stored, SaturatedTime, Allowed, Apply;
    if n > 0 {
      var events, t := Saturated(first, tick, n), SaturatedTime(first, tick, n - 1);
      assert events[..|events| - 1] == Saturated(first, tick, n - 1);
      SaturatedRuns(unit, first, tick, n - 1);
      if n == 1 {
        OnlyEntryIsChecked(unit, tick, None, t);
      } else {
        SaturatedStep(unit, first, tick, n - 2);
        OnlyEntryIsChecked(unit, tick, Some(Stored(SaturatedTime(first, tick, n - 2), unit)), t);
      }
    }
  }

  lemma SaturatedStep(unit: int, first: int, tick: nat, n: nat)
    requires IsFraction(unit, tick, first)
    ensures Stored(SaturatedTime(first, tick, n), unit) + tick <= SaturatedTime(first, tick, n + 1)
  {
    hide Stored;
    if n == 0 {
      FractionIsDropped(first, unit);
    } else {
      StoredBounds(n * tick, unit);
      assert (n + 1) * tick == n * tick + tick;
    }
  }

  lemma FractionIsDropped(first: int, unit: int)
    requires 0 <= first < unit
    ensures Stored(first, unit) == 0
  {
    Remainder(0, first, unit);
  }

  lemma OnlyEntryIsChecked(unit: int, tick: int, last: Option<int>, t: int)
    requires unit > 0 && (last.Some? ==> last.value + tick <= t)
    ensures Allowed(tick, [last], Checked(Check(t, t)))
    ensures Apply(unit, tick, [last], Checked(Check(t, t))) == [Some(Stored(t, unit))]
  {
    var stamps := [last];
    assert stamps[..0] == [];
    assert Latest(stamps) == last;
  }

  lemma {:induction false} SaturatedTimes(first: int, tick: nat, n: nat)
    ensures |Times(Saturated(first, tick, n))| == n
    ensures forall i :: 0 <= i < n ==> Times(Saturated(first, tick, n))[i] == SaturatedTime(first, tick, i)
  {
    if n > 0 {
      var events := Saturated(first, tick, n);
      assert events[..|events| - 1] == Saturated(first, tick, n - 1);
      SaturatedTimes(first, tick, n - 1);
    }
  }

  lemma {:induction false} AllCounted(times: seq<int>, from: int, w: int, n: nat)
    requires n <= |times| && forall i :: 0 <= i < n ==> from <= times[i] < from + w
    ensures CountIn(times, from, w, n) == n
  {
    if n > 0 {
      AllCounted(times, from, w, n - 1);
    }
  }

  lemma {:induction false} NoneCounted(times: seq<int>, from: int, n: nat)
    requires n <= |times|
    ensures CountIn(times, from, 0, n) == 0
  {
    if n > 0 {
      NoneCounted(times, from, n - 1);
    }
  }

  /** A run that makes one check more than the maximum within an interval. */
  lemma MaximumIsExceeded(unit: int, interval: nat, maxPerInterval: nat, first: int)
    requires maxPerInterval > 0
    requires IsFraction(unit, Tick(interval, maxPerInterval), first)
    requires maxPerInterval * Tick(interval, maxPerInterval) < first + interval
    requires interval > 0
    ensures !NeverExceeds(unit, interval, maxPerInterval)
  {
    var tick, n := Tick(interval, maxPerInterval), maxPerInterval + 1;
    TickIsFloor(interval, maxPerInterval, 0);
    SaturatedRuns(unit, first, tick, n);
    SaturatedTimes(first, tick, n);
    var events := Saturated(first, tick, n);
    var times := Times(events);
    forall i | 0 <= i < n ensures first <= times[i] < first + interval {
      if i > 0 {
        Scales(1, i, tick);
        Scales(i, maxPerInterval, tick);
      }
    }
    forall i, j | 0 <= i < j < n ensures times[i] <= times[j] {
      Scales(i, j, tick);
      Scales(1, j, tick);
    }
    AllCounted(times, first, interval, n);
  }

  /** maxPerInterval bounds the checks in every window of one interval exactly when it divides
      the interval and times are stored exactly. Otherwise rounding the tick down lets one more
      check in, and so does storing the first of them a fraction of a second too early. */
  lemma MaximumIsABoundIff(unit: int, interval: nat, maxPerInterval: nat)
    requires unit > 0 && maxPerInterval > 0
    ensures NeverExceeds(unit, interval, maxPerInterval) <==>
              interval == 0 || (unit == 1 && interval % maxPerInterval == 0)
  {
    var tick := Tick(interval, maxPerInterval);
    TickIsFloor(interval, maxPerInterval, tick);
    TickIsFloor(interval, maxPerInterval, 1);
    assert interval == tick * maxPerInterval + interval % maxPerInterval;
    assert tick * maxPerInterval == maxPerInterval * tick;
    if interval == 0 {
      forall start, events, from | StampsOf(unit, tick, start, events).Some?
        ensures CountIn(Times(events), from, interval, |Times(events)|) <= maxPerInterval
      {
        NoneCounted(Times(events), from, |Times(events)|);
      }
    } else if unit == 1 && interval % maxPerInterval == 0 {
      CeilDivBounds(interval, tick, maxPerInterval + 1);
      forall start, events, from | StampsOf(unit, tick, start, events).Some?
        ensures CountIn(Times(events), from, interval, |Times(events)|) <= maxPerInterval
      {
        ExactWindowBound(tick, start, events, from, interval);
      }
    } else {
      MaximumIsExceeded(unit, interval, maxPerInterval, if unit > 1 && tick > 0 then 1 else 0);
    }
  }

  // ----- Changes of the list -----

  function Without(stamps: seq<Option<int>>, i: nat): seq<Option<int>>
    requires i < |stamps|
  {
    stamps[..i] + stamps[i + 1..]
  }

  /** A later latest check: none is the earliest. */
  predicate NoLater(a: Option<int>, b: Option<int>) {
    a.Some? ==> b.Some? && a.value <= b.value
  }

  /** A change that checks nothing keeps the registry's wait exactly when it keeps the latest
      check, which is why Allowed asks for that. */
  lemma WaitIsKeptIff(before: Option<int>, after: Option<int>, tick: int)
    requires NoLater(after, before)
    ensures (forall now :: Due(after, tick, now) ==> Due(before, tick, now)) <==> after == before
  {
    if after != before {
      var now := before.value + tick - 1;
      assert Due(after, tick, now) && !Due(before, tick, now);
    }
  }

  lemma {:induction false} LatestOfSome(stamps: seq<Option<int>>, others: seq<Option<int>>)
    requires forall i :: 0 <= i < |stamps| && stamps[i].Some? ==> stamps[i] in others
    ensures NoLater(Latest(stamps), Latest(others))
  {
    if Latest(stamps).Some? {
      var i := LatestIsThere(stamps);
      var k :| 0 <= k < |others| && others[k] == stamps[i];
      LatestIsGreatest(others, k);
    }
  }

  /** Removing an entry keeps the wait exactly when another one has the same latest check. */
  lemma RemovalKeepsTheWaitIff(stamps: seq<Option<int>>, i: nat, tick: int)
    requires i < |stamps|
    ensures (forall now :: Due(Latest(Without(stamps, i)), tick, now) ==> Due(Latest(stamps), tick, now)) <==>
              Latest(Without(stamps, i)) == Latest(stamps)
  {
    LatestOfSome(Without(stamps, i), stamps);
    WaitIsKeptIff(Latest(stamps), Latest(Without(stamps, i)), tick);
  }

  // ----- Runs of the controller -----

  /** A check of the registry, or a sync of the list of one resource with what it read. */
  datatype Move =
    | Call(check: Check)
    | Sync(resource: nat, filter: string -> bool, expiry: int, pods: seq<map<string, bool>>, now: int, clock: int)

  /** What CheckNextForRegistry does when it checks the candidate just selected, or what
      SyncImageList does to one resource. */
  ghost predicate MoveStep(
    registryOf: RegistryOf, registry: string, unit: int, tick: int, before: seq<Resource>, m: Move,
    after: seq<Resource>)
    requires unit > 0
  {
    match m
    case Call(c) =>
      && c.decided <= c.at
      && Due(Latest(RegistryStamps(registryOf, before, registry)), tick, c.decided)
      && Restamped(registryOf, registry, before, Stored(c.at, unit), after)
    case Sync(c, filter, expiry, pods, now, clock) =>
      && c < |before| && |after| == |before|
      && after == before[c := before[c].(images := after[c].images)]
      && exists added ::
           TrackedImages.Synced(filter, expiry, TrackedImages.CurrentImages(filter, pods, |pods|), now, clock,
                                before[c].images, after[c].images, added)
  }

  ghost predicate MoveRun(
    registryOf: RegistryOf, registry: string, unit: int, tick: int, states: seq<seq<Resource>>, moves: seq<Move>)
  {
    && unit > 0 && |states| == |moves| + 1
    && forall k, next :: 0 <= k < |moves| && next == k + 1 ==>
         MoveStep(registryOf, registry, unit, tick, states[k], moves[k], states[next])
  }

  /** A sync of this list does not drop the entry. */
  ghost predicate Stays(m: Move, entry: TrackedImages.MonitoredImage)
    requires m.Sync?
  {
    !TrackedImages.Leaves(m.filter, m.expiry, m.pods, m.now, m.clock, entry)
  }

  /** The sync leaves this entry in the list of its resource. */
  ghost predicate Survives(resources: seq<Resource>, m: Move, loc: Loc)
    requires m.Sync? && Exists(resources, loc)
  {
    loc.resource == m.resource ==> Stays(m, At(resources, loc))
  }

  /** Some entry with the registry's latest check survives the sync, if there is one. */
  ghost predicate LatestSurvives(registryOf: RegistryOf, registry: string, resources: seq<Resource>, m: Move)
    requires m.Sync?
  {
    var latest := Latest(RegistryStamps(registryOf, resources, registry));
    latest.Some? ==> exists loc :: SurvivorAt(registryOf, registry, resources, m, latest.value, loc)
  }

  /** Some monitored entry of the registry was last checked then. */
  ghost predicate CheckedAt(registryOf: RegistryOf, resources: seq<Resource>, registry: string, t: int) {
    exists loc :: EntryAt(registryOf, resources, registry, t, loc)
  }

  ghost predicate EntryAt(registryOf: RegistryOf, resources: seq<Resource>, registry: string, t: int, loc: Loc) {
    TrackedOn(registryOf, resources, registry, loc) && At(resources, loc).lastMonitor == Some(t)
  }

  lemma StampsAreChecks(registryOf: RegistryOf, resources: seq<Resource>, registry: string, t: int)
    ensures Some(t) in RegistryStamps(registryOf, resources, registry) <==>
      CheckedAt(registryOf, resources, registry, t)
  {
    hide TrackedOn;
    var locs, stamps := RegistryLocs(registryOf, resources, registry), RegistryStamps(registryOf, resources, registry);
    if Some(t) in stamps {
      var i :| 0 <= i < |stamps| && stamps[i] == Some(t);
      LocationsMembers(registryOf, resources, registry, |resources|, locs[i]);
      assert locs[i] in locs;
      assert EntryAt(registryOf, resources, registry, t, locs[i]);
    }
    if CheckedAt(registryOf, resources, registry, t) {
      var loc :| EntryAt(registryOf, resources, registry, t, loc);
      EntryIsThere(registryOf, resources, registry, t, loc);
      LocationsMembers(registryOf, resources, registry, |resources|, loc);
      var i :| 0 <= i < |locs| && locs[i] == loc;
      assert stamps[i] == Some(t) && stamps[i] in stamps;
    }
  }

  lemma EntryIsThere(registryOf: RegistryOf, resources: seq<Resource>, registry: string, t: int, loc: Loc)
    requires EntryAt(registryOf, resources, registry, t, loc)
    ensures loc.resource < |resources| && Exists(resources, loc) && At(resources, loc).lastMonitor == Some(t)
  {
  }

  lemma LatestIsAmong(stamps: seq<Option<int>>)
    ensures Latest(stamps).Some? ==> Latest(stamps) in stamps
  {
    if Latest(stamps).Some? {
      var i := LatestIsThere(stamps);
    }
  }

  /** An entry is in the synced list, with its check time, exactly when it survives. */
  lemma SyncedEntries(
    m: Move, before: seq<TrackedImages.MonitoredImage>, after: seq<TrackedImages.MonitoredImage>, t: int)
    requires m.Sync?
    requires exists added ::
               TrackedImages.Synced(m.filter, m.expiry, TrackedImages.CurrentImages(m.filter, m.pods, |m.pods|), m.now,
                                    m.clock, before, after, added)
    ensures forall i :: 0 <= i < |after| && after[i].lastMonitor == Some(t) ==>
              exists p :: SameCheck(before, p, after[i]) && Stays(m, before[p])
    ensures forall p :: 0 <= p < |before| && Stays(m, before[p]) ==>
              exists i :: SameCheck(after, i, before[p])
  {
    hide TrackedImages.Leaves, TrackedImages.Synced, TrackedImages.CurrentImages;
    var current := TrackedImages.CurrentImages(m.filter, m.pods, |m.pods|);
    var added :| TrackedImages.Synced(m.filter, m.expiry, current, m.now, m.clock, before, after, added);
    forall i | 0 <= i < |after| && after[i].lastMonitor == Some(t)
      ensures exists p :: SameCheck(before, p, after[i]) && Stays(m, before[p])
    {
      TrackedImages.SyncIsExact(m.filter, m.expiry, m.pods, m.now, m.clock, before, after, added, after[i]);
      assert after[i] in after;
      var p :| TrackedImages.IsKept(m.filter, m.expiry, m.pods, m.now, m.clock, before, p, after[i]);
      assert SameCheck(before, p, after[i]);
    }
    forall p | 0 <= p < |before| && Stays(m, before[p])
      ensures exists i :: SameCheck(after, i, before[p])
    {
      var e := TrackedImages.KeptEntry(m.filter, m.pods, m.now, before[p]);
      assert TrackedImages.IsKept(m.filter, m.expiry, m.pods, m.now, m.clock, before, p, e);
      TrackedImages.SyncIsExact(m.filter, m.expiry, m.pods, m.now, m.clock, before, after, added, e);
      var i :| 0 <= i < |after| && after[i] == e;
      assert SameCheck(after, i, before[p]);
    }
  }

  ghost predicate SameCheck(images: seq<TrackedImages.MonitoredImage>, i: int, entry: TrackedImages.MonitoredImage) {
    0 <= i < |images| && images[i].image == entry.image && images[i].lastMonitor == entry.lastMonitor
  }

  /** A monitored entry of the registry with this check time survives the sync. */
  ghost predicate SurvivorAt(
    registryOf: RegistryOf, registry: string, resources: seq<Resource>, m: Move, t: int, loc: Loc)
    requires m.Sync?
  {
    EntryAt(registryOf, resources, registry, t, loc) && Survives(resources, m, loc)
  }

  /** The check times after a sync are those of the entries that survive it. */
  lemma SyncedChecks(
    registryOf: RegistryOf, registry: string, unit: int, tick: int, before: seq<Resource>, m: Move,
    after: seq<Resource>, t: int)
    requires unit > 0 && m.Sync? && MoveStep(registryOf, registry, unit, tick, before, m, after)
    ensures CheckedAt(registryOf, after, registry, t) <==>
              exists loc :: SurvivorAt(registryOf, registry, before, m, t, loc)
  {
    hide MoveStep, SurvivorAt, EntryAt;
    if loc :| EntryAt(registryOf, after, registry, t, loc) {
      var was := SurvivorOf(registryOf, registry, unit, tick, before, m, after, t, loc);
    }
    if loc :| SurvivorAt(registryOf, registry, before, m, t, loc) {
      var now := SurvivedAs(registryOf, registry, unit, tick, before, m, after, t, loc);
    }
  }

  lemma SurvivorOf(
    registryOf: RegistryOf, registry: string, unit: int, tick: int, before: seq<Resource>, m: Move,
    after: seq<Resource>, t: int, loc: Loc)
    returns (was: Loc)
    requires unit > 0 && m.Sync? && MoveStep(registryOf, registry, unit, tick, before, m, after)
    requires EntryAt(registryOf, after, registry, t, loc)
    ensures SurvivorAt(registryOf, registry, before, m, t, was)
  {
    hide Stays, TrackedImages.Synced;
    was := loc;
    if loc.resource == m.resource {
      SyncedEntries(m, before[m.resource].images, after[m.resource].images, t);
      var p :| SameCheck(before[m.resource].images, p, At(after, loc)) && Stays(m, before[m.resource].images[p]);
      was := Loc(m.resource, p);
    }
  }

  lemma SurvivedAs(
    registryOf: RegistryOf, registry: string, unit: int, tick: int, before: seq<Resource>, m: Move,
    after: seq<Resource>, t: int, loc: Loc)
    returns (now: Loc)
    requires unit > 0 && m.Sync? && MoveStep(registryOf, registry, unit, tick, before, m, after)
    requires SurvivorAt(registryOf, registry, before, m, t, loc)
    ensures EntryAt(registryOf, after, registry, t, now)
  {
    hide Stays, TrackedImages.Synced, Restamped, Due, Locations, LocationsIn, Latest, TrackedImages.CurrentImages;
    now := loc;
    if loc.resource == m.resource {
      SyncedEntries(m, before[m.resource].images, after[m.resource].images, t);
      var i :| SameCheck(after[m.resource].images, i, before[m.resource].images[loc.index]);
      now := Loc(m.resource, i);
    }
  }

  /** A sync keeps the registry's latest check time exactly when it keeps an entry that has it. */
  lemma SyncKeepsLatestIff(
    registryOf: RegistryOf, registry: string, unit: int, tick: int, before: seq<Resource>, m: Move,
    after: seq<Resource>)
    requires unit > 0 && m.Sync? && MoveStep(registryOf, registry, unit, tick, before, m, after)
    ensures var was := Latest(RegistryStamps(registryOf, before, registry));
            var latest := Latest(RegistryStamps(registryOf, after, registry));
            && NoLater(latest, was)
            && (latest == was <==> LatestSurvives(registryOf, registry, before, m))
  {
    hide MoveStep, TrackedOn, Survives, CheckedAt, RegistryStamps;
    var old_, new_ := RegistryStamps(registryOf, before, registry), RegistryStamps(registryOf, after, registry);
    forall i | 0 <= i < |new_| && new_[i].Some? ensures new_[i] in old_ {
      StampSurvived(registryOf, registry, unit, tick, before, m, after, new_[i].value);
    }
    LatestOfSome(new_, old_);
    LatestIsAmong(old_);
    LatestIsAmong(new_);
    if Latest(old_).Some? {
      StampSurvived(registryOf, registry, unit, tick, before, m, after, Latest(old_).value);
      if Latest(old_) in new_ {
        var i :| 0 <= i < |new_| && new_[i] == Latest(old_);
        LatestIsGreatest(new_, i);
      }
    }
  }

  lemma StampSurvived(
    registryOf: RegistryOf, registry: string, unit: int, tick: int, before: seq<Resource>, m: Move,
    after: seq<Resource>,
    t: int)
    requires unit > 0 && m.Sync? && MoveStep(registryOf, registry, unit, tick, before, m, after)
    ensures Some(t) in RegistryStamps(registryOf, after, registry) <==>
              exists loc :: SurvivorAt(registryOf, registry, before, m, t, loc)
    ensures Some(t) in RegistryStamps(registryOf, after, registry) ==>
              Some(t) in RegistryStamps(registryOf, before, registry)
  {
    hide MoveStep, TrackedOn, Survives, RegistryStamps;
    StampsAreChecks(registryOf, after, registry, t);
    StampsAreChecks(registryOf, before, registry, t);
    SyncedChecks(registryOf, registry, unit, tick, before, m, after, t);
  }

  /** The controller's moves as events on the check times of one registry. */
  ghost function EventsOf(
    registryOf: RegistryOf, registry: string, states: seq<seq<Resource>>, moves: seq<Move>): (events: seq<Event>)
    requires |states| == |moves| + 1
  {
    seq(|moves|, k requires 0 <= k < |moves| => EventOf(moves[k], RegistryStamps(registryOf, states[k + 1], registry)))
  }

  function EventOf(m: Move, stamps: seq<Option<int>>): Event {
    match m
    case Call(c) => Checked(c)
    case Sync(_, _, _, _, _, _) => Changed(stamps)
  }

  /** While every sync keeps an entry with the registry's latest check, the checks the controller
      makes are a run of allowed events, so that they keep their distance. */
  lemma {:induction false} MovesAreEvents(
    registryOf: RegistryOf, registry: string, unit: int, tick: int, states: seq<seq<Resource>>, moves: seq<Move>)
    requires MoveRun(registryOf, registry, unit, tick, states, moves)
    requires forall k :: 0 <= k < |moves| && moves[k].Sync? ==>
               LatestSurvives(registryOf, registry, states[k], moves[k])
    ensures var events := EventsOf(registryOf, registry, states, moves);
            && StampsOf(unit, tick, RegistryStamps(registryOf, states[0], registry), events) ==
               Some(RegistryStamps(registryOf, states[|moves|], registry))
            && Spaced(unit, Times(events), tick)
    decreases |moves|
  {
    hide RegistryStamps, Spaced, Times, Allowed, Apply, LatestSurvives, MoveStep;
    var events := EventsOf(registryOf, registry, states, moves);
    var start := RegistryStamps(registryOf, states[0], registry);
    if moves != [] {
      var n := |moves| - 1;
      MovesAreEvents(registryOf, registry, unit, tick, states[..n + 1], moves[..n]);
      assert EventsOf(registryOf, registry, states[..n + 1], moves[..n]) == events[..n];
      assert MoveStep(registryOf, registry, unit, tick, states[n], moves[n], states[n + 1]);
      MoveIsEvent(registryOf, registry, unit, tick, states[n], moves[n], states[n + 1]);
    }
    ChecksKeepDistance(unit, tick, start, events);
  }

  lemma MoveIsEvent(
    registryOf: RegistryOf, registry: string, unit: int, tick: int, before: seq<Resource>, m: Move,
    after: seq<Resource>)
    requires unit > 0 && MoveStep(registryOf, registry, unit, tick, before, m, after)
    requires m.Sync? ==> LatestSurvives(registryOf, registry, before, m)
    ensures var stamps := RegistryStamps(registryOf, before, registry);
            var restamped := RegistryStamps(registryOf, after, registry);
            && Allowed(tick, stamps, EventOf(m, restamped))
            && Apply(unit, tick, stamps, EventOf(m, restamped)) == restamped
  {
    hide LatestSurvives, RegistryStamps;
    if m.Sync? {
      SyncKeepsLatestIff(registryOf, registry, unit, tick, before, m, after);
    }
  }

  /** Without syncs in between, the controller's checks are a run of the round robin. */
  lemma {:induction false} CallsAreACheckRun(
    registryOf: RegistryOf, registry: string, unit: int, tick: int, states: seq<seq<Resource>>, checks: seq<Check>)
    requires MoveRun(registryOf, registry, unit, tick, states,
                     seq(|checks|, k requires 0 <= k < |checks| => Call(checks[k])))
    requires RegistryStamps(registryOf, states[0], registry) != []
    ensures CheckRun(unit, tick, RegistryStamps(registryOf, states[0], registry), checks)
    ensures forall k :: 0 <= k <= |checks| ==>
              StampsAfter(unit, RegistryStamps(registryOf, states[0], registry), checks, k) ==
              RegistryStamps(registryOf, states[k], registry)
  {
    var stamps := RegistryStamps(registryOf, states[0], registry);
    forall k | 0 <= k <= |checks|
      ensures StampsAfter(unit, stamps, checks, k) == RegistryStamps(registryOf, states[k], registry)
    {
      CallsRestamp(registryOf, registry, unit, tick, states, checks, k);
    }
    var moves := seq(|checks|, k requires 0 <= k < |checks| => Call(checks[k]));
    forall k | 0 <= k < |checks| ensures CheckAllowed(unit, tick, stamps, checks, k) {
      assert MoveStep(registryOf, registry, unit, tick, states[k], moves[k], states[k + 1]);
    }
  }

  lemma {:induction false} CallsRestamp(
    registryOf: RegistryOf, registry: string, unit: int, tick: int, states: seq<seq<Resource>>, checks: seq<Check>,
    k: nat)
    requires MoveRun(registryOf, registry, unit, tick, states,
                     seq(|checks|, k requires 0 <= k < |checks| => Call(checks[k])))
    requires RegistryStamps(registryOf, states[0], registry) != [] && k <= |checks|
    ensures StampsAfter(unit, RegistryStamps(registryOf, states[0], registry), checks, k) ==
              RegistryStamps(registryOf, states[k], registry)
  {
    hide RegistryStamps, Stored;
    if k > 0 {
      CallsRestamp(registryOf, registry, unit, tick, states, checks, k - 1);
      var moves := seq(|checks|, k requires 0 <= k < |checks| => Call(checks[k]));
      assert MoveStep(registryOf, registry, unit, tick, states[k - 1], moves[k - 1], states[k]);
    }
  }
}
