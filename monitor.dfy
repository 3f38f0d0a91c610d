/** The monitor object: the map of host records it owns, updated in place
    by the initialisation loop and by every cycle, and the notifications it
    has handed to the messaging endpoint. */
module Monitor {
  import Probe
  import opened Tracker
  import opened Cycle

  class PingMonitor {
    /** The host registry, in file order, and the configured thresholds. */
    const hosts: seq<Host>
    const thresholds: Thresholds
    /** The record of every host, keyed by address. */
    var hostStates: map<Ip, HostState>
    /** Every notification sent so far, oldest first. */
    var sent: seq<Notice>

    /** A new monitor holds no records and has sent nothing. */
    constructor (hosts: seq<Host>, thresholds: Thresholds)
      ensures this.hosts == hosts && this.thresholds == thresholds
      ensures hostStates == map[] && sent == []
    {
      this.hosts := hosts;
      this.thresholds := thresholds;
      hostStates := map[];
      sent := [];
    }

    /** Before the first cycle every registry address is set to the initial
        record, whatever it held; nothing is sent. */
    method InitializeStates()
      modifies this
      ensures hostStates == Initialize(old(hostStates), hosts)
      ensures sent == old(sent)
    {
      var i := 0;
      while i < |hosts|
        invariant 0 <= i <= |hosts|
        invariant hostStates == Initialize(old(hostStates), hosts[..i])
        invariant sent == old(sent)
      {
        InitializeSnoc(old(hostStates), hosts, i);
        hostStates := hostStates[hosts[i].ip := INITIAL];
        i := i + 1;
      }
      assert hosts[..i] == hosts;
    }

    /** What the monitor holds: its records and the notifications sent. */
    ghost function Snapshot(): CycleResult
      reads this
    {
      CycleResult(hostStates, sent)
    }

    /** One cycle, given the probe outcome of every registry host in order:
        each host's record (the initial one if it has none) is updated in
        place by the debounce rule and written back, and a notification is
        sent whenever its status flips. */
    method CheckAllHosts(outcomes: seq<Probe.Outcome>)
      requires |outcomes| == |hosts|
      modifies this
      ensures Snapshot() == CheckAll(old(Snapshot()), hosts, outcomes, thresholds)
    {
      var i := 0;
      while i < |hosts|
        invariant 0 <= i <= |hosts|
        invariant Snapshot() == CheckAll(old(Snapshot()), hosts[..i], outcomes[..i], thresholds)
      {
        CheckAllSnoc(old(Snapshot()), hosts, outcomes, thresholds, i);
        var ip := hosts[i].ip;
        var currentStatus := Probe.Reachable(outcomes[i]);
        var state := Lookup(hostStates, ip);
        ghost var before := Snapshot();
        ghost var step := Step(ip, state, currentStatus, thresholds);
        if currentStatus != state.status {
          if currentStatus {
            // candidate recovery
            state := state.(successCount := state.successCount + 1, failCount := 0);
            if state.successCount >= thresholds.recovery {
              state := state.(status := true, successCount := 0);
              sent := sent + [Recovered(ip)];
            }
          } else {
            // candidate outage
            state := state.(failCount := state.failCount + 1, successCount := 0);
            if state.failCount >= thresholds.failure {
              state := state.(status := false, failCount := 0);
              sent := sent + [Down(ip)];
            }
          }
        } else if currentStatus {
          state := state.(successCount := 0);
        } else {
          state := state.(failCount := 0);
        }
        assert state == step.next && sent == before.notices + step.notices;
        hostStates := hostStates[ip := state];
        i := i + 1;
      }
      assert hosts[..i] == hosts && outcomes[..i] == outcomes;
    }

    /** Successive cycles, one per element of `cycles` (the probe outcomes
        each cycle observes). */
    method CheckCycles(cycles: seq<seq<Probe.Outcome>>)
      requires WellFormed(cycles, hosts)
      modifies this
      ensures Snapshot() == RunCycles(old(Snapshot()), hosts, cycles, thresholds)
    {
      var k := 0;
      while k < |cycles|
        invariant 0 <= k <= |cycles|
        invariant Snapshot() == RunCycles(old(Snapshot()), hosts, cycles[..k], thresholds)
      {
        RunCyclesSnoc(old(Snapshot()), hosts, cycles, thresholds, k);
        CheckAllHosts(cycles[k]);
        k := k + 1;
      }
      assert cycles[..k] == cycles;
    }

    /** The monitoring run: initialise the records, then run the cycles. */
    method Run(cycles: seq<seq<Probe.Outcome>>)
      requires WellFormed(cycles, hosts)
      modifies this
      ensures Snapshot() == RunFromStart(old(Snapshot()), hosts, cycles, thresholds)
    {
      InitializeStates();
      CheckCycles(cycles);
    }
  }
}
