/** The per-host debounce rule: the state record kept for every host and
    the update one probe result applies to it. */
module Tracker {
  type Ip = string

  /** The record kept per host: the last confirmed status (true = up) and
      the two counters of probes that disagreed with it. */
  datatype HostState = HostState(status: bool, failCount: nat, successCount: nat)

  /** The two thresholds read from the configuration. The program does not
      check them, so any integer is allowed here. */
  datatype Thresholds = Thresholds(failure: int, recovery: int)

  /** The notifications sent when a host's confirmed status flips. */
  datatype Notice = Down(ip: Ip) | Recovered(ip: Ip)

  /** What one step produces: the new record and the notifications sent. */
  datatype StepResult = StepResult(next: HostState, notices: seq<Notice>)

  /** The record every host starts with, and the default for a missing one. */
  const INITIAL := HostState(true, 0, 0)

  predicate ValidThresholds(th: Thresholds) {
    th.failure >= 1 && th.recovery >= 1
  }

  /** At most one counter is nonzero: the one that disagrees with `status`. */
  predicate Consistent(s: HostState) {
    (s.status ==> s.successCount == 0) && (!s.status ==> s.failCount == 0)
  }

  /** The disagreeing counter stays below its threshold between probes. */
  predicate Bounded(s: HostState, th: Thresholds) {
    (s.status ==> s.failCount < th.failure) && (!s.status ==> s.successCount < th.recovery)
  }

  /** The state invariant kept by every step when the thresholds are at least 1. */
  predicate Sound(s: HostState, th: Thresholds) {
    Consistent(s) && Bounded(s, th)
  }

  /** The notification, if any, for a change from `before` to `after`. */
  function Transition(ip: Ip, before: bool, after: bool): seq<Notice> {
    if before == after then [] else if before then [Down(ip)] else [Recovered(ip)]
  }

  /** Applies one probe result `up` to the record `s` of host `ip`. */
  function Step(ip: Ip, s: HostState, up: bool, th: Thresholds): (r: StepResult)
    // whatever the record was, the new one has at most one nonzero counter
    ensures Consistent(r.next)
    // a notification is sent exactly when the status flips, naming the direction
    ensures r.notices == Transition(ip, s.status, r.next.status)
    // the status flips only towards the probe, and only when the counter reaches the threshold
    ensures r.next.status != s.status ==> r.next.status == up
    ensures r.next.status != s.status && s.status ==> s.failCount + 1 >= th.failure
    ensures r.next.status != s.status && !s.status ==> s.successCount + 1 >= th.recovery
    // a disagreeing probe that reaches the threshold always flips the status
    ensures up != s.status && s.status && s.failCount + 1 >= th.failure ==> !r.next.status
    ensures up != s.status && !s.status && s.successCount + 1 >= th.recovery ==> r.next.status
    // with thresholds of at least 1, the bounds are kept
    ensures ValidThresholds(th) && Bounded(s, th) ==> Bounded(r.next, th)
  {
    if up != s.status then
      if up then
        // candidate recovery
        var c := s.successCount + 1;
        if c >= th.recovery then StepResult(HostState(true, 0, 0), [Recovered(ip)])
        else StepResult(HostState(false, 0, c), [])
      else
        // candidate outage
        var c := s.failCount + 1;
        if c >= th.failure then StepResult(HostState(false, 0, 0), [Down(ip)])
        else StepResult(HostState(true, c, 0), [])
    else if up then
      StepResult(s.(successCount := 0), [])
    else
      StepResult(s.(failCount := 0), [])
  }

  /** A probe that agrees with the status changes neither the status nor
      the counter of failures while up (of successes while down); it only
      zeroes the counter of the current direction, and sends nothing. */
  lemma AgreeingProbe(ip: Ip, s: HostState, up: bool, th: Thresholds)
    requires up == s.status
    ensures Step(ip, s, up, th).notices == []
    ensures Step(ip, s, up, th).next.status == s.status
    ensures s.status ==> Step(ip, s, up, th).next == HostState(true, s.failCount, 0)
    ensures !s.status ==> Step(ip, s, up, th).next == HostState(false, 0, s.successCount)
  {
  }

  /** On a consistent record an agreeing probe changes nothing at all: the
      counter it zeroes is already zero. So it never undoes the disagreeing
      probes counted before it. */
  lemma AgreeingProbeKeepsRecord(ip: Ip, s: HostState, up: bool, th: Thresholds)
    requires Consistent(s) && up == s.status
    ensures Step(ip, s, up, th) == StepResult(s, [])
  {
  }

  /** A failed probe while up: the failure counter grows by one and the
      success counter is zeroed; reaching the threshold confirms the outage
      with exactly one Down notification. */
  lemma FailedProbeWhileUp(ip: Ip, s: HostState, th: Thresholds)
    requires s.status
    ensures var r := Step(ip, s, false, th);
      if s.failCount + 1 >= th.failure then r == StepResult(HostState(false, 0, 0), [Down(ip)])
      else r == StepResult(HostState(true, s.failCount + 1, 0), [])
  {
  }

  /** A successful probe while down: the success counter grows by one and
      the failure counter is zeroed; reaching the threshold confirms the
      recovery with exactly one Recovered notification. */
  lemma SuccessfulProbeWhileDown(ip: Ip, s: HostState, th: Thresholds)
    requires !s.status
    ensures var r := Step(ip, s, true, th);
      if s.successCount + 1 >= th.recovery then r == StepResult(HostState(true, 0, 0), [Recovered(ip)])
      else r == StepResult(HostState(false, 0, s.successCount + 1), [])
  {
  }

  /** With a threshold of 1 (or less) the first disagreeing probe flips
      the status, whatever the counters held, with one notification. */
  lemma ThresholdOneIsImmediate(ip: Ip, s: HostState, up: bool, th: Thresholds)
    requires up != s.status
    requires s.status ==> th.failure <= 1
    requires !s.status ==> th.recovery <= 1
    ensures Step(ip, s, up, th) == StepResult(HostState(up, 0, 0), Transition(ip, s.status, up))
  {
  }

  /** The fold of `Step` over the successive probe results of one host,
      collecting the notifications in order. */
  function HostRun(ip: Ip, s: HostState, ups: seq<bool>, th: Thresholds): (r: StepResult)
    decreases |ups|
  {
    if ups == [] then StepResult(s, [])
    else
      var n := |ups| - 1;
      var prev := HostRun(ip, s, ups[..n], th);
      var last := Step(ip, prev.next, ups[n], th);
      StepResult(last.next, prev.notices + last.notices)
  }

  /** Number of failed probes in `ups`. */
  function Failures(ups: seq<bool>): nat {
    multiset(ups)[false]
  }

  /** Number of successful probes in `ups`. */
  function Successes(ups: seq<bool>): nat {
    multiset(ups)[true]
  }

  /** Soundness is kept along a whole run, and every notification belongs to
      a probe. */
  lemma {:induction false} HostRunSound(ip: Ip, s: HostState, ups: seq<bool>, th: Thresholds)
    requires ValidThresholds(th) && Sound(s, th)
    ensures Sound(HostRun(ip, s, ups, th).next, th)
    ensures |HostRun(ip, s, ups, th).notices| <= |ups|
    decreases |ups|
  {
    if ups != [] {
      HostRunSound(ip, s, ups[..|ups| - 1], th);
    }
  }

  /** While a host stays up, its failure counter counts every failed probe
      since it was last confirmed up, whether or not successful probes came
      in between: nothing is sent and the status stays up as long as the
      total stays below the threshold. */
  lemma {:induction false} FailuresAccumulate(ip: Ip, s: HostState, ups: seq<bool>, th: Thresholds)
    requires s.status && s.successCount == 0
    requires s.failCount + Failures(ups) < th.failure
    ensures HostRun(ip, s, ups, th) == StepResult(HostState(true, s.failCount + Failures(ups), 0), [])
    decreases |ups|
  {
    if ups != [] {
      var n := |ups| - 1;
      assert ups == ups[..n] + [ups[n]];
      FailuresAccumulate(ip, s, ups[..n], th);
    }
  }

  /** The dual of FailuresAccumulate while a host stays down. */
  lemma {:induction false} SuccessesAccumulate(ip: Ip, s: HostState, ups: seq<bool>, th: Thresholds)
    requires !s.status && s.failCount == 0
    requires s.successCount + Successes(ups) < th.recovery
    ensures HostRun(ip, s, ups, th) == StepResult(HostState(false, 0, s.successCount + Successes(ups)), [])
    decreases |ups|
  {
    if ups != [] {
      var n := |ups| - 1;
      assert ups == ups[..n] + [ups[n]];
      SuccessesAccumulate(ip, s, ups[..n], th);
    }
  }

  /** An up host is confirmed down, with exactly one Down notification, on
      the failed probe that brings the failures counted since it was last
      confirmed up to the threshold. */
  lemma DownOnThresholdFailure(ip: Ip, s: HostState, ups: seq<bool>, th: Thresholds)
    requires s.status && s.successCount == 0
    requires |ups| > 0 && !ups[|ups| - 1]
    requires s.failCount + Failures(ups) == th.failure
    ensures HostRun(ip, s, ups, th) == StepResult(HostState(false, 0, 0), [Down(ip)])
  {
    var n := |ups| - 1;
    assert ups == ups[..n] + [ups[n]];
    FailuresAccumulate(ip, s, ups[..n], th);
  }

  /** A down host is confirmed up, with exactly one Recovered notification,
      on the successful probe that brings the successes counted since it was
      last confirmed down to the threshold. */
  lemma RecoveredOnThresholdSuccess(ip: Ip, s: HostState, ups: seq<bool>, th: Thresholds)
    requires !s.status && s.failCount == 0
    requires |ups| > 0 && ups[|ups| - 1]
    requires s.successCount + Successes(ups) == th.recovery
    ensures HostRun(ip, s, ups, th) == StepResult(HostState(true, 0, 0), [Recovered(ip)])
  {
    var n := |ups| - 1;
    assert ups == ups[..n] + [ups[n]];
    SuccessesAccumulate(ip, s, ups[..n], th);
  }

  /** The notifications of one host alternate, starting with Down when the
      host starts up and with Recovered when it starts down. */
  predicate Alternating(ns: seq<Notice>, ip: Ip, startUp: bool) {
    forall k :: 0 <= k < |ns| ==>
      ns[k] == (if (k % 2 == 0) == startUp then Down(ip) else Recovered(ip))
  }

  /** Over any run the notifications alternate between Down and Recovered,
      and the final status is the starting one flipped once per notification. */
  lemma {:induction false} HostRunAlternates(ip: Ip, s: HostState, ups: seq<bool>, th: Thresholds)
    ensures Alternating(HostRun(ip, s, ups, th).notices, ip, s.status)
    ensures HostRun(ip, s, ups, th).next.status == (s.status == (|HostRun(ip, s, ups, th).notices| % 2 == 0))
    decreases |ups|
  {
    if ups != [] {
      var n := |ups| - 1;
      HostRunAlternates(ip, s, ups[..n], th);
      var prev := HostRun(ip, s, ups[..n], th);
      var last := Step(ip, prev.next, ups[n], th);
      AlternatingAppend(prev.notices, ip, s.status, prev.next.status, last.next.status);
    }
  }

  /** Appending the notification of one status change (or none) to an
      alternating sequence whose parity matches the status keeps it
      alternating, with the parity matching the new status. */
  lemma AlternatingAppend(ns: seq<Notice>, ip: Ip, startUp: bool, before: bool, after: bool)
    requires Alternating(ns, ip, startUp) && before == (startUp == (|ns| % 2 == 0))
    ensures var ms := ns + Transition(ip, before, after);
      Alternating(ms, ip, startUp) && after == (startUp == (|ms| % 2 == 0))
  {
    var ms := ns + Transition(ip, before, after);
    if before != after {
      forall k | 0 <= k < |ms|
        ensures ms[k] == (if (k % 2 == 0) == startUp then Down(ip) else Recovered(ip))
      {
        if k < |ns| {
          assert ms[k] == ns[k];
        }
      }
    } else {
      assert ms == ns;
    }
  }

  /** A host that starts from the initial record can only ever be reported
      down first: it never sends a Recovered notification before a Down one. */
  lemma FirstNoticeIsDown(ip: Ip, ups: seq<bool>, th: Thresholds)
    requires HostRun(ip, INITIAL, ups, th).notices != []
    ensures HostRun(ip, INITIAL, ups, th).notices[0] == Down(ip)
  {
    HostRunAlternates(ip, INITIAL, ups, th);
  }

  /** With a failure threshold of 2, failures separated by a success are
      still counted together: the second failure confirms the outage. */
  lemma InterleavedFailuresConfirmOutage(ip: Ip, recovery: int)
    ensures HostRun(ip, INITIAL, [false, true, false], Thresholds(2, recovery)).notices == [Down(ip)]
    ensures var ns := HostRun(ip, INITIAL, [false, true, false, true], Thresholds(2, recovery)).notices;
      |ns| >= 1 && ns[0] == Down(ip)
  {
    DownOnThresholdFailure(ip, INITIAL, [false, true, false], Thresholds(2, recovery));
    assert [false, true, false, true][..3] == [false, true, false];
  }

  /** Three failures in a row with a failure threshold of 3 confirm the
      outage on the third, with a single Down notification; two successes
      with a recovery threshold of 2 then confirm the recovery. */
  lemma OutageThenRecovery(ip: Ip)
    ensures HostRun(ip, INITIAL, [false, false, false], Thresholds(3, 2)) == StepResult(HostState(false, 0, 0), [Down(ip)])
    ensures HostRun(ip, HostState(false, 0, 0), [true, true], Thresholds(3, 2)) == StepResult(HostState(true, 0, 0), [Recovered(ip)])
  {
    DownOnThresholdFailure(ip, INITIAL, [false, false, false], Thresholds(3, 2));
    RecoveredOnThresholdSuccess(ip, HostState(false, 0, 0), [true, true], Thresholds(3, 2));
  }
}
