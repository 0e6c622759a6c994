/** internal/parallel/parallel.go: run every probe at once, commit in index order. */
module Parallel {
  import opened Prelude

  /** What one goroutine sends: its value, or its error. */
  datatype Outcome<+R, +E> = Success(value: R) | Failure(error: E)

  /** The first success by index, if any, and the errors that precede it. */
  datatype Answer<+R, +E> = Answer(value: Option<R>, errors: seq<E>)

  /** The reference meaning: try one candidate after the other, from the left. */
  function Scan<R, E>(outcomes: seq<Outcome<R, E>>): Answer<R, E> {
    if outcomes == [] then Answer(None, [])
    else match outcomes[0]
      case Success(v) => Answer(Some(v), [])
      case Failure(e) =>
        var rest := Scan(outcomes[1..]);
        Answer(rest.value, [e] + rest.errors)
  }

  ghost predicate FailsBelow<R, E>(outcomes: seq<Outcome<R, E>>, k: nat) {
    k <= |outcomes| && forall j :: 0 <= j < k ==> outcomes[j].Failure?
  }

  function Errors<R, E>(outcomes: seq<Outcome<R, E>>, k: nat): seq<E>
    requires FailsBelow(outcomes, k)
  {
    seq(k, j requires 0 <= j < k => outcomes[j].error)
  }

  /** Everything below k fails and k, if there is one, succeeds. */
  ghost predicate FirstSuccessAt<R, E>(outcomes: seq<Outcome<R, E>>, k: nat) {
    FailsBelow(outcomes, k) && (k < |outcomes| ==> outcomes[k].Success?)
  }

  lemma {:induction false} ScanAt<R, E>(outcomes: seq<Outcome<R, E>>, k: nat)
    requires FirstSuccessAt(outcomes, k)
    ensures Scan(outcomes).errors == Errors(outcomes, k)
    ensures |Scan(outcomes).errors| == k && forall j :: 0 <= j < k ==> Scan(outcomes).errors[j] == outcomes[j].error
    ensures Scan(outcomes).value == if k < |outcomes| then Some(outcomes[k].value) else None
  {
    if k > 0 {
      ScanAt(outcomes[1..], k - 1);
      assert Errors(outcomes, k) == [outcomes[0].error] + Errors(outcomes[1..], k - 1);
    }
  }

  /** The received results reach, without a gap from index 0, either a success or the end. */
  ghost predicate Settled<R, E>(outcomes: seq<Outcome<R, E>>, taken: seq<nat>) {
    exists k: nat :: SettledAt(outcomes, taken, k)
  }

  ghost predicate SettledAt<R, E>(outcomes: seq<Outcome<R, E>>, taken: seq<nat>, k: nat) {
    && FirstSuccessAt(outcomes, k)
    && (forall j :: 0 <= j < k ==> j in taken)
    && (k < |outcomes| ==> k in taken)
  }

  /** Whatever the results still missing turn out to be, the scan gives the same answer. */
  ghost predicate Determined<R(!new), E(!new)>(outcomes: seq<Outcome<R, E>>, taken: seq<nat>) {
    forall other: seq<Outcome<R, E>> :: Agrees(outcomes, other, taken) ==> Scan(other) == Scan(outcomes)
  }

  ghost predicate Agrees<R, E>(outcomes: seq<Outcome<R, E>>, other: seq<Outcome<R, E>>, taken: seq<nat>) {
    |other| == |outcomes| && forall i :: 0 <= i < |outcomes| && i in taken ==> other[i] == outcomes[i]
  }

  lemma FirstSuccessExists<R, E>(outcomes: seq<Outcome<R, E>>) returns (k: nat)
    ensures FirstSuccessAt(outcomes, k)
  {
    k := 0;
    while k < |outcomes| && outcomes[k].Failure?
      invariant FailsBelow(outcomes, k)
    {
      k := k + 1;
    }
  }

  /** The collector's own test for returning is exactly "no missing result can matter". */
  lemma SettledIffDetermined<R(!new, 00), E(!new, 00)>(outcomes: seq<Outcome<R, E>>, taken: seq<nat>)
    ensures Settled(outcomes, taken) <==> Determined(outcomes, taken)
  {
    var k := FirstSuccessExists(outcomes);
    ScanAt(outcomes, k);
    if Settled(outcomes, taken) {
      var s: nat :| SettledAt(outcomes, taken, s);
      forall other: seq<Outcome<R, E>> | Agrees(outcomes, other, taken)
        ensures Scan(other) == Scan(outcomes)
      {
        ScanAt(outcomes, s);
        ScanAt(other, s);
        assert Errors(outcomes, s) == Errors(other, s);
      }
    } else {
      assert !SettledAt(outcomes, taken, k);
      var m: nat :| m <= k && m < |outcomes| && m !in taken;
      MissingMatters(outcomes, taken, k, m);
    }
  }

  /** A result missing at or below the first success could still change the answer. */
  lemma MissingMatters<R(!new, 00), E(!new, 00)>(outcomes: seq<Outcome<R, E>>, taken: seq<nat>, k: nat, m: nat)
    requires FirstSuccessAt(outcomes, k) && m <= k && m < |outcomes| && m !in taken
    ensures !Determined(outcomes, taken)
  {
    ScanAt(outcomes, k);
    if m < k {
      var v: R :| true;
      var other := outcomes[m := Success(v)];
      ScanAt(other, m);
      assert Agrees(outcomes, other, taken);
      assert |Errors(other, m)| != |Errors(outcomes, k)|;
    } else {
      var e: E :| true;
      var other := outcomes[m := Failure(e)];
      var k' := FirstSuccessExists(other);
      assert k' >= m ==> k' > m;
      assert k' >= m by {
        assert forall i :: 0 <= i < m ==> other[i] == outcomes[i];
      }
      ScanAt(other, k');
      assert Agrees(outcomes, other, taken);
      assert |Errors(other, k')| != |Errors(outcomes, k)|;
    }
  }

  /** Receives results in the order of arrivals, stores them in pending, and advances a
      cursor over the contiguous prefix that has arrived. */
  method FirstSuccessful<R(!new, 00), E(!new, 00)>(outcomes: seq<Outcome<R, E>>, arrivals: seq<nat>)
    returns (answer: Answer<R, E>, received: nat)
    requires IsPermutation(arrivals, |outcomes|)
    ensures answer == Scan(outcomes)
    ensures received <= |arrivals| && Determined(outcomes, arrivals[..received])
    ensures forall k :: 0 <= k < received ==> !Determined(outcomes, arrivals[..k])
  {
    var n := |outcomes|;
    var pending: array<Option<Outcome<R, E>>> := new Option<Outcome<R, E>>[n](_ => None);
    var nextToReturn := 0;
    received := 0;
    while received < n
      invariant received <= n
      invariant forall i :: 0 <= i < n ==>
        pending[i] == if i in arrivals[..received] then Some(outcomes[i]) else None
      invariant FailsBelow(outcomes, nextToReturn)
      invariant forall i :: 0 <= i < nextToReturn ==> i in arrivals[..received]
      invariant nextToReturn < n ==> pending[nextToReturn].None?
      invariant forall k :: 0 <= k < received ==> !Determined(outcomes, arrivals[..k])
    {
      NotYetDetermined(outcomes, arrivals[..received], nextToReturn, arrivals[received], arrivals);
      var index := arrivals[received];
      pending[index] := Some(outcomes[index]);
      received := received + 1;
      assert arrivals[..received] == arrivals[..received - 1] + [index];
      while nextToReturn < n && pending[nextToReturn].Some?
        invariant FailsBelow(outcomes, nextToReturn)
        invariant forall i :: 0 <= i < nextToReturn ==> i in arrivals[..received]
      {
        if pending[nextToReturn].value.Success? {
          answer := Answer(Some(pending[nextToReturn].value.value), Errors(outcomes, nextToReturn));
          ScanAt(outcomes, nextToReturn);
          assert SettledAt(outcomes, arrivals[..received], nextToReturn);
          SettledIffDetermined(outcomes, arrivals[..received]);
          return;
        }
        nextToReturn := nextToReturn + 1;
      }
    }
    assert arrivals[..received] == arrivals;
    answer := Answer(None, Errors(outcomes, n));
    ScanAt(outcomes, n);
    assert SettledAt(outcomes, arrivals[..received], n);
    SettledIffDetermined(outcomes, arrivals[..received]);
  }

  lemma NotYetDetermined<R(!new, 00), E(!new, 00)>(
    outcomes: seq<Outcome<R, E>>, taken: seq<nat>, next: nat, index: nat, arrivals: seq<nat>)
    requires FailsBelow(outcomes, next)
    requires next < |outcomes| ==> next !in taken
    requires IsPermutation(arrivals, |outcomes|) && |taken| < |arrivals| && taken == arrivals[..|taken|]
    requires index == arrivals[|taken|] && forall i :: 0 <= i < next ==> i in taken
    ensures !Determined(outcomes, taken)
  {
    assert index !in taken by {
      assert forall j :: 0 <= j < |taken| ==> taken[j] == arrivals[j] && arrivals[j] != arrivals[|taken|];
    }
    assert next < |outcomes|;
    var k := FirstSuccessExists(outcomes);
    assert next <= k;
    MissingMatters(outcomes, taken, k, next);
  }

  // ----- The goroutines and the channel as a protocol -----

  /** Who has not sent yet, what the buffered channel holds, what the collector took. */
  datatype Net = Net(unsent: set<nat>, channel: seq<nat>, taken: seq<nat>, returned: bool)

  datatype Event = Send(index: nat) | Receive

  ghost function Start<R, E>(outcomes: seq<Outcome<R, E>>): Net {
    Net(Below(|outcomes|), [], [], Settled(outcomes, []))
  }

  /** A send needs room in the buffer of capacity n; a receive needs a waiting collector. */
  ghost predicate Enabled<R, E>(outcomes: seq<Outcome<R, E>>, s: Net, e: Event) {
    match e
    case Send(i) => i in s.unsent && |s.channel| < |outcomes|
    case Receive => !s.returned && s.channel != []
  }

  ghost function Next<R, E>(outcomes: seq<Outcome<R, E>>, s: Net, e: Event): Net
    requires Enabled(outcomes, s, e)
  {
    match e
    case Send(i) => s.(unsent := s.unsent - {i}, channel := s.channel + [i])
    case Receive =>
      var taken := s.taken + [s.channel[0]];
      s.(channel := s.channel[1..], taken := taken, returned := Settled(outcomes, taken))
  }

  /** The state after the events, if each was enabled when it happened. */
  ghost function Run<R, E>(outcomes: seq<Outcome<R, E>>, events: seq<Event>): Option<Net>
    decreases |events|
  {
    if events == [] then Some(Start(outcomes))
    else
      var before := Run(outcomes, events[..|events| - 1]);
      var e := events[|events| - 1];
      if before.Some? && Enabled(outcomes, before.value, e) then Some(Next(outcomes, before.value, e)) else None
  }

  ghost predicate NetInvariant<R, E>(outcomes: seq<Outcome<R, E>>, s: Net, steps: nat) {
    var n := |outcomes|;
    var sent := s.taken + s.channel;
    && (forall i :: i in s.unsent ==> i < n && i !in sent)
    && (forall i :: 0 <= i < |sent| ==> sent[i] < n)
    && Distinct(sent)
    && (forall i :: 0 <= i < n ==> i in s.unsent || i in sent)
    && |s.unsent| + |sent| == n
    && steps == |sent| + |s.taken|
    && s.returned == Settled(outcomes, s.taken)
    && (forall k :: 0 <= k < |s.taken| ==> !Settled(outcomes, s.taken[..k]))
  }

  lemma NetInvariantStep<R, E>(outcomes: seq<Outcome<R, E>>, p: Net, e: Event, steps: nat)
    requires NetInvariant(outcomes, p, steps) && Enabled(outcomes, p, e)
    ensures NetInvariant(outcomes, Next(outcomes, p, e), steps + 1)
  {
    var s := Next(outcomes, p, e);
    var before, after := p.taken + p.channel, s.taken + s.channel;
    match e {
      case Send(i) =>
        assert after == before + [i];
      case Receive =>
        assert after == before;
        assert forall k :: 0 <= k < |p.taken| ==> s.taken[..k] == p.taken[..k];
        assert s.taken[..|p.taken|] == p.taken;
    }
  }

  lemma {:induction false} NetInvariantHolds<R, E>(outcomes: seq<Outcome<R, E>>, events: seq<Event>)
    requires Run(outcomes, events).Some?
    ensures NetInvariant(outcomes, Run(outcomes, events).value, |events|)
    decreases |events|
  {
    if events == [] {
      var s := Start(outcomes);
      assert s.taken + s.channel == [];
    } else {
      var front := events[..|events| - 1];
      NetInvariantHolds(outcomes, front);
      NetInvariantStep(outcomes, Run(outcomes, front).value, events[|events| - 1], |front|);
    }
  }

  /** In every reachable state: no sender is ever blocked by a full buffer, even after the
      collector returned; there is no deadlock before it returns; the protocol makes at most
      two steps per goroutine; and the collector returns at the first receive after which the
      answer is determined. */
  lemma ProtocolIsSafe<R(!new, 00), E(!new, 00)>(outcomes: seq<Outcome<R, E>>, events: seq<Event>, s: Net)
    requires Run(outcomes, events) == Some(s)
    ensures forall i :: i in s.unsent ==> Enabled(outcomes, s, Send(i))
    ensures |s.channel| <= |outcomes|
    ensures !s.returned ==> exists e :: Enabled(outcomes, s, e)
    ensures |events| <= 2 * |outcomes|
    ensures s.returned <==> Determined(outcomes, s.taken)
    ensures forall k :: 0 <= k < |s.taken| ==> !Determined(outcomes, s.taken[..k])
  {
    NetInvariantHolds(outcomes, events);
    SettledIffDetermined(outcomes, s.taken);
    forall k | 0 <= k < |s.taken| ensures !Determined(outcomes, s.taken[..k]) {
      SettledIffDetermined(outcomes, s.taken[..k]);
    }
    forall i | i in s.unsent ensures Enabled(outcomes, s, Send(i)) {
      assert {i} <= s.unsent;
      UnsentCounts(s.unsent, i);
    }
    if !s.returned {
      if s.channel != [] {
        assert Enabled(outcomes, s, Receive);
      } else if s.unsent != {} {
        var i :| i in s.unsent;
        assert Enabled(outcomes, s, Send(i));
      } else {
        var k := FirstSuccessExists(outcomes);
        assert s.taken + s.channel == s.taken;
        assert false by {
          assert SettledAt(outcomes, s.taken, k);
        }
      }
    }
  }

  lemma UnsentCounts(unsent: set<nat>, i: nat)
    requires i in unsent
    ensures |unsent| > 0
  {
  }
}
