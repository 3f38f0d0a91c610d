# ping-monitor: the host up/down debounce state machine

`ping_monitor.py` pings a fixed list of hosts once per cycle. It tells a
chat when a host goes down or comes back. When the thresholds are above
1, a single failed or successful ping does not change what it reports. For each host, keyed by IP address, it keeps a record with:

- `status`: the last confirmed status, up or down;
- `fail_count`: failed probes counted while the host is up;
- `success_count`: successful probes counted while the host is down.

A probe that disagrees with `status` increments the counter for its
direction and zeroes the other one. When that counter reaches the
configured failure or recovery threshold, `status` flips, the counter
resets and one notification is sent: "down" or "recovered". A probe that
agrees with `status` zeroes only the counter for the current direction
(`success_count` while up, `fail_count` while down).

This project models that core in Dafny and proves its properties.

- `probe.dfy` (module `Probe`): the outcome of one ping, as seen by
  `check_host`: a latency, `None` (timeout), `False` (error), or an
  exception. Also the mapping from outcome to up/down.
- `tracker.dfy` (module `Tracker`): the host record, the thresholds, the
  notifications, and the update rule `Step` applied to one record by one
  probe result. `HostRun` folds `Step` over the successive probe results
  of one host. Lemmas state how the rule behaves over single probes and
  over whole runs.
- `cycle.dfy` (module `Cycle`): the specification of the monitor's state
  as values. `Initialize` is the initialisation loop of `run`. `CheckAll`
  is one call of `check_all_hosts`: the hosts visited in registry order.
  `RunCycles` and `RunFromStart` are successive cycles. Lemmas state which
  entries a cycle touches and that a host's history depends only on its
  own probe results.
- `monitor.dfy` (module `Monitor`): class `PingMonitor`. It has the map of
  host records as a mutable field and the notifications sent so far as a
  sequence field. Its methods are the loops of `run` and
  `check_all_hosts`, updating the map in place, and each is proved equal
  to the corresponding function of `Cycle`.

The pinging itself is not modelled. Each cycle receives the probe outcome
of every registry host, in registry order, as a parameter. The infinite
`while self.running` loop becomes a finite sequence of cycles. The chat
endpoint becomes the `sent` sequence: `check_all_hosts` ignores the
result of `send_telegram` (`ping_monitor.py:208`, `ping_monitor.py:221`),
so whether a message is delivered does not affect the state.

The code, not the description of the program, decides one point. A
probe that agrees with the status does not reset the counter of
disagreeing probes (`ping_monitor.py:222-227`). So the failures that
confirm an outage need not be consecutive. With a failure threshold of
2, the probes fail, succeed, fail confirm the outage
(`Tracker.InterleavedFailuresConfirmOutage`). The model follows the code.
The counter restarts only when the status flips, or when a disagreeing
probe in the other direction zeroes it. That cannot happen while the
status stays the same. The thresholds are not validated by the program;
the model accepts any integer, and the bounds are proved for thresholds
of at least 1.

## Model

| member | source | states |
|---|---|---|
| Probe.Reachable | ping_monitor.py:176-186 | a probe counts as up exactly when ping returned a latency (zero included); `None`, `False` and a raised exception all count as down |
| Tracker.Step | ping_monitor.py:195-227 | the new record of one host after one probe: at most one counter nonzero; a notification exactly when the status flips, naming its direction; a flip only towards the probe and only when the counter reaches its threshold, and always then; with thresholds of at least 1 the counter stays below its threshold |
| Tracker.AgreeingProbe | ping_monitor.py:222-227 | a probe agreeing with the status keeps the status, sends nothing, zeroes only the counter of the current direction and leaves the other counter as it was |
| Tracker.AgreeingProbeKeepsRecord | ping_monitor.py:222-227 | on a record whose counters are consistent with its status, an agreeing probe leaves the record unchanged, so it never undoes counted disagreeing probes |
| Tracker.FailedProbeWhileUp | ping_monitor.py:209-221 | a failed probe while up increments the failure count and zeroes the success count; at the threshold the host becomes down with both counts zero and exactly one Down notification, otherwise nothing is sent |
| Tracker.SuccessfulProbeWhileDown | ping_monitor.py:196-208 | a successful probe while down increments the success count and zeroes the failure count; at the threshold the host becomes up with both counts zero and exactly one Recovered notification, otherwise nothing is sent |
| Tracker.ThresholdOneIsImmediate | ping_monitor.py:200-202 | with a threshold of 1 (or less) the first disagreeing probe flips the status, with both counts zero and one notification |
| Tracker.HostRunSound | ping_monitor.py:193-229 | with thresholds of at least 1, a host's record stays consistent and below its threshold after every probe; at most one notification per probe |
| Tracker.FailuresAccumulate | ping_monitor.py:209-227 | while a host stays up, its failure count is the number of failed probes since it was last confirmed up, successes in between notwithstanding, and nothing is sent |
| Tracker.SuccessesAccumulate | ping_monitor.py:196-208 | while a host stays down, its success count is the number of successful probes since it was last confirmed down, and nothing is sent |
| Tracker.DownOnThresholdFailure | ping_monitor.py:209-221 | an up host is confirmed down, with exactly one Down notification, by the failed probe that brings its accumulated failures to the threshold |
| Tracker.RecoveredOnThresholdSuccess | ping_monitor.py:196-208 | a down host is confirmed up, with exactly one Recovered notification, by the successful probe that brings its accumulated successes to the threshold |
| Tracker.HostRunAlternates | ping_monitor.py:195-221 | a host's notifications alternate between Down and Recovered, starting with Down when it starts up, and its final status is the starting one flipped once per notification |
| Tracker.AlternatingAppend | ping_monitor.py:195-221 | appending the notification of one status change to an alternating history keeps it alternating and in step with the status |
| Tracker.FirstNoticeIsDown | ping_monitor.py:239-240 | a host starting from the initial record is never reported recovered before it was reported down |
| Tracker.InterleavedFailuresConfirmOutage | ping_monitor.py:222-227 | with a failure threshold of 2, the probes fail, succeed, fail confirm the outage with one Down notification |
| Tracker.OutageThenRecovery | ping_monitor.py:196-221 | with thresholds 3 and 2, three failures send one Down and leave the host down with zero counts; two successes then send one Recovered |
| Cycle.Initialize | ping_monitor.py:239-240 | every registry address gets the record up, 0, 0 whatever it held; other entries are kept |
| Cycle.CheckAllFrame | ping_monitor.py:190-229 | a cycle writes a record for every registry address and no other; entries of other addresses are unchanged; it only appends notifications, at most one per host, each naming a registry address |
| Cycle.CheckAllSound | ping_monitor.py:190-229 | with thresholds of at least 1, a cycle keeps every record consistent and below its threshold |
| Cycle.CheckAllAt | ping_monitor.py:190-229 | with distinct addresses, a host's new record and the notifications naming it are one step of its own record with its own probe outcome |
| Cycle.CheckAllOrder | ping_monitor.py:190-229 | with distinct addresses, a cycle appends to the notifications already sent exactly those of the registry hosts in registry order, each from one step of that host's own record with its own probe outcome |
| Cycle.MissingEntryIsInitial | ping_monitor.py:193 | a host with no record is treated exactly as one with the record up, 0, 0 |
| Cycle.RunCyclesSound | ping_monitor.py:245-246 | with thresholds of at least 1, every record stays sound over any number of cycles |
| Cycle.RunCyclesAt | ping_monitor.py:245-246 | with distinct addresses, a host's record and notifications over many cycles are the fold of the step rule over its own probe results |
| Cycle.RunFromStartPerHost | ping_monitor.py:237-246 | over a run, each host's record is the fold of the step rule from up, 0, 0 over its own probes, and its notifications alternate starting with Down |
| Cycle.RunFromStartSound | ping_monitor.py:237-246 | with thresholds of at least 1, every record is sound throughout a run |
| Monitor.PingMonitor.constructor | ping_monitor.py:28 | a new monitor holds no host records and has sent nothing |
| Monitor.PingMonitor.InitializeStates | ping_monitor.py:239-240 | the initialisation loop sets every registry address to up, 0, 0 in place and sends nothing |
| Monitor.PingMonitor.CheckAllHosts | ping_monitor.py:188-229 | the loop over the registry updates each record in place and appends the notifications, ending exactly in the state of one cycle |
| Monitor.PingMonitor.CheckCycles | ping_monitor.py:245-246 | repeated calls of the cycle end in the state of the successive cycles |
| Monitor.PingMonitor.Run | ping_monitor.py:237-246 | initialisation followed by the cycles ends in the state of a whole run |

## Left out

- Probing: the ICMP ping of the `ping3` library and its timeout. Each probe outcome is a parameter.
- Telegram transport: `validate_telegram_config`, `send_telegram` and the HTTP calls. A notification is recorded as sent whether or not delivery succeeds; `check_all_hosts` ignores the result too.
- Message text: host names, timestamps from `datetime.strftime`, HTML markup. A notification carries only its kind and the host's address.
- Startup and shutdown notifications, signal handlers, the `running` flag, `sys.exit`, and the `KeyboardInterrupt` and exception handlers of `run`. One quirk there is not modelled: `shutdown` clears `running` before calling `send_shutdown_notification`, which returns at once when `running` is false, so the stop message is never sent.
- Monitor.PingMonitor.Run: the `time.sleep` between cycles and the unbounded loop are modelled as a finite sequence of cycles.
- Configuration and host-file loading, and logging: file I/O and library setup that do not touch host records.
- Floating point: latency formatting and the uptime computation. The latency of a successful probe is carried but never used.
- Cycle.CheckAllAt, Cycle.CheckAllOrder, Cycle.RunCyclesAt and Cycle.RunFromStartPerHost assume distinct addresses. The program does not check the registry for a repeated IP, and a repeated IP is a configuration error. `CheckAll` itself models that case as the program runs it: the later entry sees the record the earlier one wrote, since both share one dictionary entry.
- The host `description` field, which is only logged.
- tg_test.py, a stand-alone Telegram connectivity script, is not part of this model.
