/** One monitoring cycle over the host registry, the initialisation done
    before the first cycle, and a run of successive cycles, as functions on
    the map of host records. These are the specifications the monitor's
    methods are proved against. */
module Cycle {
  import Probe
  import opened Tracker

  /** A registry entry; the address is the key of the host's record. */
  datatype Host = Host(name: string, ip: Ip)

  /** The monitor's observable state: the record of every host, keyed by
      address, and every notification sent so far, oldest first. */
  datatype CycleResult = CycleResult(states: map<Ip, HostState>, notices: seq<Notice>)

  /** The addresses of the registry. */
  function Ips(hosts: seq<Host>): set<Ip> {
    set i | 0 <= i < |hosts| :: hosts[i].ip
  }

  /** No address occurs twice in the registry. */
  predicate DistinctIps(hosts: seq<Host>) {
    forall i, j :: 0 <= i < j < |hosts| ==> hosts[i].ip != hosts[j].ip
  }

  /** The record of `ip`, or the initial record when there is none. */
  function Lookup(m: map<Ip, HostState>, ip: Ip): HostState {
    if ip in m then m[ip] else INITIAL
  }

  /** Every record in the map keeps the state invariant. */
  predicate AllSound(m: map<Ip, HostState>, th: Thresholds) {
    forall ip :: ip in m ==> Sound(m[ip], th)
  }

  /** Each cycle holds one probe outcome per registry entry. */
  predicate WellFormed(cycles: seq<seq<Probe.Outcome>>, hosts: seq<Host>) {
    forall k :: 0 <= k < |cycles| ==> |cycles[k]| == |hosts|
  }

  /** The notifications of `ns` that name `ip`, in order. */
  function NoticesFor(ns: seq<Notice>, ip: Ip): (r: seq<Notice>)
    decreases |ns|
  {
    if ns == [] then []
    else
      var n := |ns| - 1;
      NoticesFor(ns[..n], ip) + (if ns[n].ip == ip then [ns[n]] else [])
  }

  lemma IpsOfPrefix(hosts: seq<Host>)
    requires hosts != []
    ensures Ips(hosts) == Ips(hosts[..|hosts| - 1]) + {hosts[|hosts| - 1].ip}
  {
    var n := |hosts| - 1;
    forall ip | ip in Ips(hosts) ensures ip in Ips(hosts[..n]) + {hosts[n].ip} {
      var i :| 0 <= i < |hosts| && hosts[i].ip == ip;
      if i < n { assert hosts[..n][i] == hosts[i]; }
    }
    forall ip | ip in Ips(hosts[..n]) ensures ip in Ips(hosts) {
      var i :| 0 <= i < n && hosts[..n][i].ip == ip;
      assert hosts[i].ip == ip;
    }
  }

  /** Filtering distributes over concatenation. */
  lemma {:induction false} NoticesForAppend(a: seq<Notice>, b: seq<Notice>, ip: Ip)
    ensures NoticesFor(a + b, ip) == NoticesFor(a, ip) + NoticesFor(b, ip)
    decreases |b|
  {
    if b == [] {
      assert a + b == a;
    } else {
      var n := |b| - 1;
      assert (a + b)[..|a + b| - 1] == a + b[..n];
      assert (a + b)[|a + b| - 1] == b[n];
      NoticesForAppend(a, b[..n], ip);
    }
  }

  /** No notification in `ns` names `ip`. */
  lemma {:induction false} NoticesForNone(ns: seq<Notice>, ip: Ip)
    requires forall k :: 0 <= k < |ns| ==> ns[k].ip != ip
    ensures NoticesFor(ns, ip) == []
    decreases |ns|
  {
    if ns != [] {
      NoticesForNone(ns[..|ns| - 1], ip);
    }
  }

  /** Every notification in `ns` names `ip`. */
  lemma {:induction false} NoticesForAll(ns: seq<Notice>, ip: Ip)
    requires forall k :: 0 <= k < |ns| ==> ns[k].ip == ip
    ensures NoticesFor(ns, ip) == ns
    decreases |ns|
  {
    if ns != [] {
      var n := |ns| - 1;
      NoticesForAll(ns[..n], ip);
      assert ns == ns[..n] + [ns[n]];
    }
  }

  /** Appending notifications that do not name `ip` leaves its filter unchanged. */
  lemma NoticesForAppendOther(a: seq<Notice>, b: seq<Notice>, ip: Ip)
    requires forall k :: 0 <= k < |b| ==> b[k].ip != ip
    ensures NoticesFor(a + b, ip) == NoticesFor(a, ip)
  {
    NoticesForAppend(a, b, ip);
    NoticesForNone(b, ip);
  }

  /** After notifications none of which names `ip`, the filter of `ip` is
      exactly the appended ones that all name it. */
  lemma NoticesForAppendOwn(a: seq<Notice>, b: seq<Notice>, ip: Ip)
    requires forall k :: 0 <= k < |a| ==> a[k].ip != ip
    requires forall k :: 0 <= k < |b| ==> b[k].ip == ip
    ensures NoticesFor(a + b, ip) == b
  {
    NoticesForAppend(a, b, ip);
    NoticesForNone(a, ip);
    NoticesForAll(b, ip);
  }

  /** The loop of `run` before the first cycle: every registry address gets
      the initial record, up with both counters at zero, whatever it held;
      entries for other addresses are kept. */
  function Initialize(m: map<Ip, HostState>, hosts: seq<Host>): (r: map<Ip, HostState>)
    ensures r.Keys == m.Keys + Ips(hosts)
    ensures forall ip :: ip in Ips(hosts) ==> r[ip] == INITIAL
    ensures forall ip :: ip in m && ip !in Ips(hosts) ==> r[ip] == m[ip]
    decreases |hosts|
  {
    if hosts == [] then m
    else
      var n := |hosts| - 1;
      IpsOfPrefix(hosts);
      Initialize(m, hosts[..n])[hosts[n].ip := INITIAL]
  }

  /** A per-host update: given an address, its record and its probe
      result, the new record and the notifications to send. */
  type Updater = (Ip, HostState, bool) -> StepResult

  /** The update the monitor applies, with the configured thresholds. */
  function Update(th: Thresholds): Updater {
    (ip, s, up) => Step(ip, s, up, th)
  }

  /** An update that sends at most one notification, naming the host it
      was applied to. */
  ghost predicate WellBehaved(f: Updater) {
    forall ip, s, up :: |f(ip, s, up).notices| <= 1 &&
      forall k :: 0 <= k < |f(ip, s, up).notices| ==> f(ip, s, up).notices[k].ip == ip
  }

  /** A well-behaved update applied to one host. */
  lemma WellBehavedAt(f: Updater, ip: Ip, s: HostState, up: bool)
    requires WellBehaved(f)
    ensures var ns := f(ip, s, up).notices;
      |ns| <= 1 && forall k :: 0 <= k < |ns| ==> ns[k].ip == ip
  {
  }

  lemma UpdateWellBehaved(th: Thresholds)
    ensures WellBehaved(Update(th))
  {
  }

  /** The visit of one host within a cycle: its record (the initial record
      when it has none) is updated with its probe result and written back
      under its address; its notifications are appended to those sent. */
  function Visit(prev: CycleResult, ip: Ip, up: bool, f: Updater): CycleResult {
    var last := f(ip, Lookup(prev.states, ip), up);
    CycleResult(prev.states[ip := last.next], prev.notices + last.notices)
  }

  /** The hosts visited one after the other, in registry order. */
  function Visits(start: CycleResult, hosts: seq<Host>, ups: seq<bool>, f: Updater): CycleResult
    requires |ups| == |hosts|
    decreases |hosts|
  {
    if hosts == [] then start
    else
      var n := |hosts| - 1;
      Visit(Visits(start, hosts[..n], ups[..n], f), hosts[n].ip, ups[n], f)
  }

  /** The up/down result of each probe outcome, in order. */
  function Ups(outcomes: seq<Probe.Outcome>): (ups: seq<bool>)
    ensures |ups| == |outcomes|
  {
    seq(|outcomes|, k requires 0 <= k < |outcomes| => Probe.Reachable(outcomes[k]))
  }

  /** One cycle: every registry host in order, its probe outcome turned
      into up/down and applied to its record by the step rule. */
  function CheckAll(start: CycleResult, hosts: seq<Host>, outcomes: seq<Probe.Outcome>, th: Thresholds): CycleResult
    requires |outcomes| == |hosts|
  {
    Visits(start, hosts, Ups(outcomes), Update(th))
  }

  /** Visits write a record for every registry address and keep every
      entry for any other address. */
  lemma {:induction false} VisitsFrame(start: CycleResult, hosts: seq<Host>, ups: seq<bool>, f: Updater)
    requires |ups| == |hosts|
    ensures Visits(start, hosts, ups, f).states.Keys == start.states.Keys + Ips(hosts)
    ensures forall ip :: ip in start.states && ip !in Ips(hosts) ==> Visits(start, hosts, ups, f).states[ip] == start.states[ip]
    decreases |hosts|
  {
    if hosts != [] {
      var n := |hosts| - 1;
      IpsOfPrefix(hosts);
      VisitsFrame(start, hosts[..n], ups[..n], f);
    }
  }

  /** Visits only append to the notifications sent, at most one per host,
      each naming a registry address. */
  lemma {:induction false} VisitsNotices(start: CycleResult, hosts: seq<Host>, ups: seq<bool>, f: Updater)
    requires |ups| == |hosts| && WellBehaved(f)
    ensures var ns := Visits(start, hosts, ups, f).notices;
      && |start.notices| <= |ns| <= |start.notices| + |hosts|
      && ns[..|start.notices|] == start.notices
      && forall k :: |start.notices| <= k < |ns| ==> ns[k].ip in Ips(hosts)
    decreases |hosts|
  {
    if hosts != [] {
      var n := |hosts| - 1;
      IpsOfPrefix(hosts);
      VisitsNotices(start, hosts[..n], ups[..n], f);
      var prev := Visits(start, hosts[..n], ups[..n], f);
      var q := hosts[n].ip;
      var last := f(q, Lookup(prev.states, q), ups[n]);
      WellBehavedAt(f, q, Lookup(prev.states, q), ups[n]);
      assert (prev.notices + last.notices)[..|start.notices|] == prev.notices[..|start.notices|];
    }
  }

  /** A prefix of a registry with distinct addresses has distinct addresses. */
  lemma DistinctPrefix(hosts: seq<Host>, n: nat)
    requires DistinctIps(hosts) && n <= |hosts|
    ensures DistinctIps(hosts[..n])
  {
    forall i, j | 0 <= i < j < n ensures hosts[..n][i].ip != hosts[..n][j].ip {
      assert hosts[..n][i] == hosts[i] && hosts[..n][j] == hosts[j];
    }
  }

  /** The last host of a registry with distinct addresses is not among the
      addresses before it. */
  lemma LastIpIsNew(hosts: seq<Host>)
    requires DistinctIps(hosts) && hosts != []
    ensures hosts[|hosts| - 1].ip !in Ips(hosts[..|hosts| - 1])
  {
    var n := |hosts| - 1;
    forall j | 0 <= j < n ensures hosts[..n][j].ip != hosts[n].ip {
      assert hosts[..n][j] == hosts[j];
    }
  }

  /** Visits leave the record and the notifications of an address outside
      the registry as they were. */
  lemma {:induction false} VisitsUntouched(start: CycleResult, hosts: seq<Host>, ups: seq<bool>, f: Updater, q: Ip)
    requires |ups| == |hosts| && WellBehaved(f) && q !in Ips(hosts)
    ensures var r := Visits(start, hosts, ups, f);
      Lookup(r.states, q) == Lookup(start.states, q) && NoticesFor(r.notices, q) == NoticesFor(start.notices, q)
    decreases |hosts|
  {
    if hosts != [] {
      var n := |hosts| - 1;
      IpsOfPrefix(hosts);
      VisitsUntouched(start, hosts[..n], ups[..n], f, q);
      var prev := Visits(start, hosts[..n], ups[..n], f);
      var p := hosts[n].ip;
      var last := f(p, Lookup(prev.states, p), ups[n]);
      WellBehavedAt(f, p, Lookup(prev.states, p), ups[n]);
      NoticesForAppendOther(prev.notices, last.notices, q);
    }
  }

  /** The last host visited sees its own record from before the cycle. */
  lemma VisitsLast(start: CycleResult, hosts: seq<Host>, ups: seq<bool>, f: Updater)
    requires |ups| == |hosts| && DistinctIps(hosts) && hosts != [] && WellBehaved(f)
    ensures var q := hosts[|hosts| - 1].ip;
      var st := f(q, Lookup(start.states, q), ups[|hosts| - 1]);
      var r := Visits(start, hosts, ups, f);
      Lookup(r.states, q) == st.next && NoticesFor(r.notices, q) == NoticesFor(start.notices, q) + st.notices
  {
    var n := |hosts| - 1;
    var q := hosts[n].ip;
    LastIpIsNew(hosts);
    VisitsUntouched(start, hosts[..n], ups[..n], f, q);
    var prev := Visits(start, hosts[..n], ups[..n], f);
    var last := f(q, Lookup(start.states, q), ups[n]);
    WellBehavedAt(f, q, Lookup(start.states, q), ups[n]);
    NoticesForAppend(prev.notices, last.notices, q);
    NoticesForAll(last.notices, q);
  }

  /** What each host of the registry would send on its own, joined in
      registry order: the update of host `i` applied to its record in `m`. */
  function Emitted(m: map<Ip, HostState>, hosts: seq<Host>, ups: seq<bool>, f: Updater): seq<Notice>
    requires |ups| == |hosts|
    decreases |hosts|
  {
    if hosts == [] then []
    else
      var n := |hosts| - 1;
      Emitted(m, hosts[..n], ups[..n], f) + f(hosts[n].ip, Lookup(m, hosts[n].ip), ups[n]).notices
  }

  /** When addresses are distinct, visits append exactly the notifications
      of the hosts, each computed from its own record, in registry order. */
  lemma {:induction false} VisitsOrder(start: CycleResult, hosts: seq<Host>, ups: seq<bool>, f: Updater)
    requires |ups| == |hosts| && DistinctIps(hosts) && WellBehaved(f)
    ensures Visits(start, hosts, ups, f).notices == start.notices + Emitted(start.states, hosts, ups, f)
    decreases |hosts|
  {
    if hosts != [] {
      var n := |hosts| - 1;
      var q := hosts[n].ip;
      DistinctPrefix(hosts, n);
      VisitsOrder(start, hosts[..n], ups[..n], f);
      LastIpIsNew(hosts);
      VisitsUntouched(start, hosts[..n], ups[..n], f, q);
      VisitsOrderStep(start, hosts, ups, f);
    }
  }

  /** The inductive step of VisitsOrder: if the prefix appended its hosts'
      notifications in order and the last host saw its own record from
      before the cycle, the whole registry did. */
  lemma VisitsOrderStep(start: CycleResult, hosts: seq<Host>, ups: seq<bool>, f: Updater)
    requires |ups| == |hosts| && hosts != []
    requires var n := |hosts| - 1;
      Visits(start, hosts[..n], ups[..n], f).notices == start.notices + Emitted(start.states, hosts[..n], ups[..n], f)
    requires var n := |hosts| - 1;
      Lookup(Visits(start, hosts[..n], ups[..n], f).states, hosts[n].ip) == Lookup(start.states, hosts[n].ip)
    ensures Visits(start, hosts, ups, f).notices == start.notices + Emitted(start.states, hosts, ups, f)
  {
    var n := |hosts| - 1;
    var last := f(hosts[n].ip, Lookup(start.states, hosts[n].ip), ups[n]);
    var e := Emitted(start.states, hosts[..n], ups[..n], f);
    assert (start.notices + e) + last.notices == start.notices + (e + last.notices);
  }

  /** The last host visited does not touch the record or the notifications
      of any other address. */
  lemma VisitsOthers(start: CycleResult, hosts: seq<Host>, ups: seq<bool>, f: Updater, p: Ip)
    requires |ups| == |hosts| && hosts != [] && p != hosts[|hosts| - 1].ip && WellBehaved(f)
    ensures var n := |hosts| - 1;
      var prev := Visits(start, hosts[..n], ups[..n], f);
      var r := Visits(start, hosts, ups, f);
      Lookup(r.states, p) == Lookup(prev.states, p) && NoticesFor(r.notices, p) == NoticesFor(prev.notices, p)
  {
    var n := |hosts| - 1;
    var q := hosts[n].ip;
    var prev := Visits(start, hosts[..n], ups[..n], f);
    var last := f(q, Lookup(prev.states, q), ups[n]);
    WellBehavedAt(f, q, Lookup(prev.states, q), ups[n]);
    NoticesForAppendOther(prev.notices, last.notices, p);
  }

  /** When addresses are distinct, a host's new record and the
      notifications naming it are exactly one update of its own record with
      its own probe result. */
  lemma {:induction false} VisitsAt(start: CycleResult, hosts: seq<Host>, ups: seq<bool>, f: Updater, i: nat)
    requires |ups| == |hosts| && DistinctIps(hosts) && i < |hosts| && WellBehaved(f)
    ensures var st := f(hosts[i].ip, Lookup(start.states, hosts[i].ip), ups[i]);
      var r := Visits(start, hosts, ups, f);
      && Lookup(r.states, hosts[i].ip) == st.next
      && NoticesFor(r.notices, hosts[i].ip) == NoticesFor(start.notices, hosts[i].ip) + st.notices
    decreases |hosts|
  {
    var n := |hosts| - 1;
    if i == n {
      VisitsLast(start, hosts, ups, f);
    } else {
      assert hosts[..n][i] == hosts[i] && ups[..n][i] == ups[i];
      DistinctPrefix(hosts, n);
      assert hosts[i].ip != hosts[n].ip;
      VisitsAt(start, hosts[..n], ups[..n], f, i);
      VisitsOthers(start, hosts, ups, f, hosts[i].ip);
    }
  }

  /** Visiting from a map without `p` or from the same map with the initial
      record for `p` gives the same notifications, and the same records
      once `p` has been visited. */
  lemma {:induction false} VisitsMissing(start: CycleResult, hosts: seq<Host>, ups: seq<bool>, f: Updater, p: Ip)
    requires |ups| == |hosts| && p !in start.states
    ensures var a := Visits(start, hosts, ups, f);
      var b := Visits(start.(states := start.states[p := INITIAL]), hosts, ups, f);
      a.notices == b.notices &&
      if p in Ips(hosts) then a.states == b.states else p !in a.states && b.states == a.states[p := INITIAL]
    decreases |hosts|
  {
    if hosts != [] {
      var n := |hosts| - 1;
      IpsOfPrefix(hosts);
      VisitsMissing(start, hosts[..n], ups[..n], f, p);
      var a := Visits(start, hosts[..n], ups[..n], f);
      var q := hosts[n].ip;
      var x := f(q, Lookup(a.states, q), ups[n]).next;
      if p !in Ips(hosts[..n]) && q != p {
        assert a.states[p := INITIAL][q := x] == a.states[q := x][p := INITIAL];
      }
    }
  }

  /** With thresholds of at least 1, the step rule applied host after host
      keeps the invariant of every record. */
  lemma {:induction false} VisitsSound(start: CycleResult, hosts: seq<Host>, ups: seq<bool>, th: Thresholds)
    requires |ups| == |hosts| && ValidThresholds(th) && AllSound(start.states, th)
    ensures AllSound(Visits(start, hosts, ups, Update(th)).states, th)
    decreases |hosts|
  {
    if hosts != [] {
      var n := |hosts| - 1;
      VisitsSound(start, hosts[..n], ups[..n], th);
    }
  }

  /** The initialisation of the first `i + 1` hosts is that of the first
      `i` followed by host `i`. */
  lemma InitializeSnoc(m: map<Ip, HostState>, hosts: seq<Host>, i: nat)
    requires i < |hosts|
    ensures Initialize(m, hosts[..i + 1]) == Initialize(m, hosts[..i])[hosts[i].ip := INITIAL]
  {
    assert hosts[..i + 1][..i] == hosts[..i];
  }

  /** A cycle over the first `i + 1` hosts is the cycle over the first `i`
      followed by the visit of host `i`. */
  lemma CheckAllSnoc(start: CycleResult, hosts: seq<Host>, outcomes: seq<Probe.Outcome>, th: Thresholds, i: nat)
    requires |outcomes| == |hosts| && i < |hosts|
    ensures CheckAll(start, hosts[..i + 1], outcomes[..i + 1], th)
      == Visit(CheckAll(start, hosts[..i], outcomes[..i], th), hosts[i].ip, Probe.Reachable(outcomes[i]), Update(th))
  {
    assert hosts[..i + 1][..i] == hosts[..i];
    assert Ups(outcomes[..i + 1])[..i] == Ups(outcomes[..i]);
  }

  /** A cycle writes a record for every registry address and keeps every
      entry for any other address; it only appends to the notifications
      sent, at most one per host, each naming a registry address. */
  lemma CheckAllFrame(start: CycleResult, hosts: seq<Host>, outcomes: seq<Probe.Outcome>, th: Thresholds)
    requires |outcomes| == |hosts|
    ensures var r := CheckAll(start, hosts, outcomes, th);
      && r.states.Keys == start.states.Keys + Ips(hosts)
      && (forall ip :: ip in start.states && ip !in Ips(hosts) ==> r.states[ip] == start.states[ip])
      && |start.notices| <= |r.notices| <= |start.notices| + |hosts|
      && r.notices[..|start.notices|] == start.notices
      && forall k :: |start.notices| <= k < |r.notices| ==> r.notices[k].ip in Ips(hosts)
  {
    VisitsFrame(start, hosts, Ups(outcomes), Update(th));
    UpdateWellBehaved(th);
    VisitsNotices(start, hosts, Ups(outcomes), Update(th));
  }

  /** With thresholds of at least 1, a cycle keeps the invariant of every
      record: at most one counter nonzero, and it below its threshold. */
  lemma CheckAllSound(start: CycleResult, hosts: seq<Host>, outcomes: seq<Probe.Outcome>, th: Thresholds)
    requires |outcomes| == |hosts|
    requires ValidThresholds(th) && AllSound(start.states, th)
    ensures AllSound(CheckAll(start, hosts, outcomes, th).states, th)
  {
    VisitsSound(start, hosts, Ups(outcomes), th);
  }

  /** When addresses are distinct, the cycle's effect on a host is exactly
      one step on its own record with its own probe outcome: its new record
      and the notifications naming it depend on nothing else. */
  lemma CheckAllAt(start: CycleResult, hosts: seq<Host>, outcomes: seq<Probe.Outcome>, th: Thresholds, i: nat)
    requires |outcomes| == |hosts| && DistinctIps(hosts) && i < |hosts|
    ensures var st := Step(hosts[i].ip, Lookup(start.states, hosts[i].ip), Probe.Reachable(outcomes[i]), th);
      var r := CheckAll(start, hosts, outcomes, th);
      && Lookup(r.states, hosts[i].ip) == st.next
      && NoticesFor(r.notices, hosts[i].ip) == NoticesFor(start.notices, hosts[i].ip) + st.notices
  {
    UpdateWellBehaved(th);
    VisitsAt(start, hosts, Ups(outcomes), Update(th), i);
  }

  /** When addresses are distinct, a cycle appends the notifications of the
      registry hosts in registry order, each the one step of that host's own
      record with its own probe outcome. */
  lemma CheckAllOrder(start: CycleResult, hosts: seq<Host>, outcomes: seq<Probe.Outcome>, th: Thresholds)
    requires |outcomes| == |hosts| && DistinctIps(hosts)
    ensures CheckAll(start, hosts, outcomes, th).notices == start.notices + Emitted(start.states, hosts, Ups(outcomes), Update(th))
  {
    UpdateWellBehaved(th);
    VisitsOrder(start, hosts, Ups(outcomes), Update(th));
  }

  /** A missing record is treated exactly as if `run` had initialised it:
      a cycle over a registry that contains `p` gives the same records and
      notifications whether `p` has no entry or the initial one. */
  lemma MissingEntryIsInitial(start: CycleResult, hosts: seq<Host>, outcomes: seq<Probe.Outcome>, th: Thresholds, p: Ip)
    requires |outcomes| == |hosts| && p !in start.states && p in Ips(hosts)
    ensures CheckAll(start, hosts, outcomes, th) == CheckAll(start.(states := start.states[p := INITIAL]), hosts, outcomes, th)
  {
    VisitsMissing(start, hosts, Ups(outcomes), Update(th), p);
  }

  /** Successive cycles, each over the whole registry. */
  function RunCycles(start: CycleResult, hosts: seq<Host>, cycles: seq<seq<Probe.Outcome>>, th: Thresholds): CycleResult
    requires WellFormed(cycles, hosts)
    decreases |cycles|
  {
    if cycles == [] then start
    else
      var n := |cycles| - 1;
      CheckAll(RunCycles(start, hosts, cycles[..n], th), hosts, cycles[n], th)
  }

  /** The run over the first `k + 1` cycles is the run over the first `k`
      followed by cycle `k`. */
  lemma RunCyclesSnoc(start: CycleResult, hosts: seq<Host>, cycles: seq<seq<Probe.Outcome>>, th: Thresholds, k: nat)
    requires WellFormed(cycles, hosts) && k < |cycles|
    ensures RunCycles(start, hosts, cycles[..k + 1], th) == CheckAll(RunCycles(start, hosts, cycles[..k], th), hosts, cycles[k], th)
  {
    assert cycles[..k + 1][..k] == cycles[..k];
  }

  /** What `run` does: initialise every registry address, then run the cycles. */
  function RunFromStart(start: CycleResult, hosts: seq<Host>, cycles: seq<seq<Probe.Outcome>>, th: Thresholds): CycleResult
    requires WellFormed(cycles, hosts)
  {
    RunCycles(start.(states := Initialize(start.states, hosts)), hosts, cycles, th)
  }

  /** The up/down results of the host at registry position `i`, cycle by cycle. */
  function Column(cycles: seq<seq<Probe.Outcome>>, i: nat): (ups: seq<bool>)
    requires forall k :: 0 <= k < |cycles| ==> i < |cycles[k]|
    ensures |ups| == |cycles|
  {
    seq(|cycles|, k requires 0 <= k < |cycles| => Probe.Reachable(cycles[k][i]))
  }

  /** With thresholds of at least 1, every record keeps the invariant
      through any number of cycles. */
  lemma {:induction false} RunCyclesSound(start: CycleResult, hosts: seq<Host>, cycles: seq<seq<Probe.Outcome>>, th: Thresholds)
    requires WellFormed(cycles, hosts)
    requires ValidThresholds(th) && AllSound(start.states, th)
    ensures AllSound(RunCycles(start, hosts, cycles, th).states, th)
    decreases |cycles|
  {
    if cycles != [] {
      var n := |cycles| - 1;
      RunCyclesSound(start, hosts, cycles[..n], th);
      CheckAllSound(RunCycles(start, hosts, cycles[..n], th), hosts, cycles[n], th);
    }
  }

  /** When addresses are distinct, a host's record and notifications over
      many cycles are those of its own probe results folded through the
      step rule, independent of every other host. */
  lemma {:induction false} RunCyclesAt(start: CycleResult, hosts: seq<Host>, cycles: seq<seq<Probe.Outcome>>, th: Thresholds, i: nat)
    requires WellFormed(cycles, hosts) && DistinctIps(hosts) && i < |hosts|
    ensures var h := HostRun(hosts[i].ip, Lookup(start.states, hosts[i].ip), Column(cycles, i), th);
      var r := RunCycles(start, hosts, cycles, th);
      && Lookup(r.states, hosts[i].ip) == h.next
      && NoticesFor(r.notices, hosts[i].ip) == NoticesFor(start.notices, hosts[i].ip) + h.notices
    decreases |cycles|
  {
    var p := hosts[i].ip;
    if cycles != [] {
      var n := |cycles| - 1;
      var col := Column(cycles, i);
      assert col[..n] == Column(cycles[..n], i);
      RunCyclesAt(start, hosts, cycles[..n], th, i);
      var prev := RunCycles(start, hosts, cycles[..n], th);
      var hprev := HostRun(p, Lookup(start.states, p), col[..n], th);
      assert Lookup(prev.states, p) == hprev.next;
      CheckAllAt(prev, hosts, cycles[n], th, i);
      assert col[n] == Probe.Reachable(cycles[n][i]);
      var st := Step(p, hprev.next, col[n], th);
      assert HostRun(p, Lookup(start.states, p), col, th) == StepResult(st.next, hprev.notices + st.notices);
    }
  }

  /** Over a whole run started by `run`, each host's record is the fold of
      the step rule over its own probe results from the initial record, and
      the notifications naming it alternate and begin with Down: a host is
      never reported recovered before it was reported down. */
  lemma RunFromStartPerHost(start: CycleResult, hosts: seq<Host>, cycles: seq<seq<Probe.Outcome>>, th: Thresholds, i: nat)
    requires WellFormed(cycles, hosts) && DistinctIps(hosts) && i < |hosts|
    ensures var r := RunFromStart(start, hosts, cycles, th);
      var h := HostRun(hosts[i].ip, INITIAL, Column(cycles, i), th);
      && Lookup(r.states, hosts[i].ip) == h.next
      && NoticesFor(r.notices, hosts[i].ip) == NoticesFor(start.notices, hosts[i].ip) + h.notices
      && Alternating(h.notices, hosts[i].ip, true)
  {
    var init := start.(states := Initialize(start.states, hosts));
    assert hosts[i].ip in Ips(hosts);
    RunCyclesAt(init, hosts, cycles, th, i);
    HostRunAlternates(hosts[i].ip, INITIAL, Column(cycles, i), th);
  }

  /** With thresholds of at least 1, every record of the registry starts
      sound and stays sound for the whole run. */
  lemma RunFromStartSound(start: CycleResult, hosts: seq<Host>, cycles: seq<seq<Probe.Outcome>>, th: Thresholds)
    requires WellFormed(cycles, hosts)
    requires ValidThresholds(th) && AllSound(start.states, th)
    ensures AllSound(RunFromStart(start, hosts, cycles, th).states, th)
  {
    RunCyclesSound(start.(states := Initialize(start.states, hosts)), hosts, cycles, th);
  }
}
