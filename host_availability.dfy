/** The device-availability state machine of the poller: update_host_status in
    lib/functions.php. Each poll of a device feeds one observed status (Up or
    Down) into the device's record, which keeps a status with hysteresis
    (Unknown, Down, Recovering, Up), poll counters, the availability percentage
    and response-time statistics. Times and percentages are exact reals. */
module HostAvailability {
  import opened Php

  /** HOST_UNKNOWN, HOST_DOWN, HOST_RECOVERING, HOST_UP. */
  datatype Status = Unknown | Down | Recovering | Up

  /** AVAIL_NONE, AVAIL_SNMP_AND_PING, AVAIL_SNMP, AVAIL_PING, AVAIL_SNMP_OR_PING:
      which reachability checks decide the device's response time. */
  datatype AvailabilityMode = AvailNone | AvailSnmpAndPing | AvailSnmp | AvailPing | AvailSnmpOrPing

  /** The value stored for a fail or recovery date that was never set. */
  const UnsetDate: string := "0000-00-00 00:00:00"

  /** Empty dates are normalised to UnsetDate before anything else happens. */
  function NormalizedDate(d: string): (r: string)
    ensures r != ""
    ensures d != "" ==> r == d
  {
    if d == "" then UnsetDate else d
  }

  /** SNMP version 1 or 2 without a community: the SNMP check is taken as passed. */
  predicate SnmpNotRequired(community: string, version: int)
  {
    community == "" && version != 3
  }

  /** The modes in which a non-numeric SNMP sample is replaced by 0. */
  predicate ChecksSnmp(mode: AvailabilityMode)
  {
    mode == AvailSnmpAndPing || mode == AvailSnmpOrPing || mode == AvailSnmp
  }

  /** The modes in which a non-numeric ping sample is replaced by 0. */
  predicate ChecksPing(mode: AvailabilityMode)
  {
    mode == AvailSnmpAndPing || mode == AvailSnmpOrPing || mode == AvailPing
  }

  // ------------------------------------------------------------ statistics

  /** Availability as a percentage of successful polls. */
  function Availability(total: nat, failed: nat): (a: real)
    requires total > 0
    ensures failed <= total ==> 0.0 <= a <= 100.0
    ensures failed == 0 ==> a == 100.0
    ensures failed == total ==> a == 0.0
  {
    var good := total as real - failed as real;
    assert failed <= total ==> 0.0 <= good / total as real <= 1.0;
    100.0 * good / total as real
  }

  /** A Down poll never raises the availability and an Up poll never lowers it. */
  lemma AvailabilityMoves(total: nat, failed: nat)
    requires 0 < total && failed <= total
    ensures Availability(total + 1, failed + 1) <= Availability(total, failed)
    ensures Availability(total, failed) <= Availability(total + 1, failed)
  {
    var t, g := total as real, total as real - failed as real;
    assert Availability(total + 1, failed + 1) == 100.0 * g / (t + 1.0);
    assert Availability(total + 1, failed) == 100.0 * (g + 1.0) / (t + 1.0);
    assert (100.0 * g) * t <= (100.0 * g) * (t + 1.0);
    DivMonotone(100.0 * g, t + 1.0, 100.0 * g, t);
    assert (100.0 * g) * (t + 1.0) <= (100.0 * (g + 1.0)) * t;
    DivMonotone(100.0 * g, t, 100.0 * (g + 1.0), t + 1.0);
  }

  /** a / b <= c / d for positive denominators when a * d <= c * b. */
  lemma DivMonotone(a: real, b: real, c: real, d: real)
    requires b > 0.0 && d > 0.0 && a * d <= c * b
    ensures a / b <= c / d
  {
    var bd := b * d;
    assert bd > 0.0;
    assert a / b == (a * d) / bd;
    assert c / d == (c * b) / bd;
  }

  /** A sample converted to a number: a non-numeric sample counts as 0. */
  function SampleOrZero(v: Option<real>): real
  {
    match v
    case Some(x) => x
    case None => 0.0
  }

  /** The sample after the in-place coercion of a non-numeric value to 0. */
  function Coerced(checked: bool, v: Option<real>): (r: Option<real>)
    ensures checked ==> r == Some(SampleOrZero(v))
    ensures !checked ==> r == v
  {
    if checked && v.None? then Some(0.0) else v
  }

  /** The response time an Up poll records, by availability mode. */
  function PingTime(mode: AvailabilityMode, snmpNotRequired: bool, snmp: Option<real>, ping: Option<real>): real
  {
    if mode == AvailSnmpAndPing || mode == AvailSnmpOrPing then
      if snmpNotRequired then 0.0 else (SampleOrZero(snmp) + SampleOrZero(ping)) / 2.0
    else if mode == AvailSnmp then
      if snmpNotRequired then 0.0 else SampleOrZero(snmp)
    else if mode == AvailNone then 0.0
    else SampleOrZero(ping)
  }

  /** The recorded time is 0 or lies between the (coerced) samples the mode consults. */
  lemma PingTimeBetweenSamples(mode: AvailabilityMode, snmpNotRequired: bool, snmp: Option<real>, ping: Option<real>)
    ensures var p, s, q := PingTime(mode, snmpNotRequired, snmp, ping), SampleOrZero(snmp), SampleOrZero(ping);
      p == 0.0 || (ChecksSnmp(mode) && !ChecksPing(mode) && p == s) || (ChecksPing(mode) && !ChecksSnmp(mode) && p == q) ||
      (ChecksSnmp(mode) && ChecksPing(mode) && (if s <= q then s <= p <= q else q <= p <= s))
    ensures mode == AvailNone ==> PingTime(mode, snmpNotRequired, snmp, ping) == 0.0
  {
  }

  /** The running-average update: the mean of `n` values `avg`, extended by `x`. */
  function IncrementalMean(avg: real, n: nat, x: real): real
  {
    (n as real * avg + x) / (n as real + 1.0)
  }

  function Sum(xs: seq<real>): real
  {
    if xs == [] then 0.0 else Sum(xs[..|xs| - 1]) + xs[|xs| - 1]
  }

  function Mean(xs: seq<real>): real
    requires |xs| > 0
  {
    Sum(xs) / |xs| as real
  }

  /** avg_time is the mean of the response times of the successful polls: if it
      was the mean of the `|xs|` earlier times, the update makes it the mean of
      those and the new time `x`. */
  lemma {:induction false} AvgTimeIsRunningMean(xs: seq<real>, avg: real, x: real)
    requires |xs| > 0 ==> avg == Mean(xs)
    ensures IncrementalMean(avg, |xs|, x) == Mean(xs + [x])
  {
    var ys := xs + [x];
    assert ys[..|ys| - 1] == xs;
    assert Sum(ys) == Sum(xs) + x;
    var n := |xs| as real;
    if |xs| > 0 {
      assert n * avg == Sum(xs);
    } else {
      assert Sum(xs) == 0.0;
    }
  }

  /** Total 5, failed 1, average 2.0 before an Up poll with time 4.0: four
      earlier successful polls, so the new average is (4 * 2.0 + 4.0) / 5. */
  lemma AverageExample()
    ensures IncrementalMean(2.0, 5 - 1, 4.0) == 2.4
  {
  }

  // ------------------------------------------------------------ transitions

  /** The effect of one observation on the status and event count: whether it
      raises an event and whether it stamps the fail or recovery date. */
  datatype Transition = Transition(status: Status, eventCount: nat, issueEvent: bool, stampDate: bool)

  /** A Down observation, by prior status. */
  function DownTransition(status: Status, count: nat, failureCount: int): Transition
  {
    match status
    case Up =>
      var c := count + 1;
      if c >= failureCount then Transition(Down, c, true, failureCount == 1)
      else Transition(Up, c, false, c == 1)
    case Recovering => Transition(Down, 1, false, false)
    case Unknown => Transition(Down, 0, false, false)
    case Down => Transition(Down, count + 1, false, false)
  }

  /** Confirmation of a recovery once `c` consecutive Up observations are seen. */
  function RecoveryCheck(c: nat, recoveryCount: int): Transition
  {
    if c >= recoveryCount then Transition(Up, 0, true, recoveryCount == 1)
    else Transition(Recovering, c, false, c == 1)
  }

  /** An Up observation, by prior status. */
  function UpTransition(status: Status, count: nat, recoveryCount: int): Transition
  {
    match status
    case Down => RecoveryCheck(1, recoveryCount)
    case Recovering => RecoveryCheck(count + 1, recoveryCount)
    case _ => Transition(Up, 0, false, false)
  }

  /** The Down observation, case by case: from Up the count grows and the device
      goes Down (raising the event) exactly when it reaches the failure count,
      keeping the count; Recovering falls back to Down with count 1 and no event;
      Unknown becomes Down with count 0; Down only counts. */
  lemma DownCases(status: Status, count: nat, failureCount: int)
    ensures var t := DownTransition(status, count, failureCount);
      && (t.status == Down || (status == Up && t.status == Up))
      && (status == Up ==> t.eventCount == count + 1 && (t.status == Down <==> count + 1 >= failureCount) && t.issueEvent == (t.status == Down))
      && (status == Recovering ==> t == Transition(Down, 1, false, false))
      && (status == Unknown ==> t == Transition(Down, 0, false, false))
      && (status == Down ==> t == Transition(Down, count + 1, false, false))
      && (t.issueEvent ==> status == Up && t.status == Down)
  {
  }

  /** The fail date is stamped when the failure count is 1 and is reached, or when
      the first of several needed failures is seen. */
  lemma FailDateRule(status: Status, count: nat, failureCount: int)
    ensures var t := DownTransition(status, count, failureCount);
      t.stampDate <==> (status == Up &&
        ((count + 1 >= failureCount && failureCount == 1) || (count + 1 < failureCount && count + 1 == 1)))
  {
  }

  /** The Up observation, case by case: Down becomes Recovering with count 1 and
      Recovering counts up; either becomes Up with count 0 and raises the event
      once the count reaches the recovery count (so a recovery count of at most
      1 takes Down straight to Up). Up and Unknown become Up with count 0. */
  lemma UpCases(status: Status, count: nat, recoveryCount: int)
    ensures var t := UpTransition(status, count, recoveryCount);
      && (status == Down ==> if 1 >= recoveryCount then t == Transition(Up, 0, true, recoveryCount == 1) else t == Transition(Recovering, 1, false, true))
      && (status == Recovering ==> if count + 1 >= recoveryCount then t == Transition(Up, 0, true, recoveryCount == 1) else t == Transition(Recovering, count + 1, false, count + 1 == 1))
      && (status == Up || status == Unknown ==> t == Transition(Up, 0, false, false))
      && (t.issueEvent ==> t.status == Up && t.eventCount == 0)
      && (t.status == Up || t.status == Recovering)
  {
  }

  // ------------------------------------------------- runs of observations

  /** The part of a record the state machine reads: status and event count. */
  datatype Hysteresis = Hysteresis(status: Status, count: nat)

  /** One observation (`down` or not) applied to a status and count. */
  function Step(h: Hysteresis, down: bool, failureCount: int, recoveryCount: int): Transition
  {
    if down then DownTransition(h.status, h.count, failureCount)
    else UpTransition(h.status, h.count, recoveryCount)
  }

  /** A run of observations, oldest first, applied to a starting state. */
  function Run(h: Hysteresis, obs: seq<bool>, failureCount: int, recoveryCount: int): Hysteresis
    decreases |obs|
  {
    if obs == [] then h
    else
      var t := Step(Run(h, obs[..|obs| - 1], failureCount, recoveryCount), obs[|obs| - 1], failureCount, recoveryCount);
      Hysteresis(t.status, t.eventCount)
  }

  /** The number of Down observations at the end of a run. */
  function TrailingDowns(obs: seq<bool>): nat
  {
    if obs == [] || !obs[|obs| - 1] then 0 else 1 + TrailingDowns(obs[..|obs| - 1])
  }

  /** From Up with a clean count, the device stays Up as long as no streak of
      `failureCount` consecutive Down observations has occurred, and its count
      is the length of the current streak: isolated failures never add up. */
  lemma {:induction false} UpWhileStreaksShort(obs: seq<bool>, failureCount: int, recoveryCount: int)
    requires forall k :: 0 <= k <= |obs| ==> TrailingDowns(obs[..k]) < failureCount
    ensures Run(Hysteresis(Up, 0), obs, failureCount, recoveryCount) == Hysteresis(Up, TrailingDowns(obs))
  {
    if obs != [] {
      var p := obs[..|obs| - 1];
      forall k | 0 <= k <= |p| ensures TrailingDowns(p[..k]) < failureCount {
        assert p[..k] == obs[..k];
      }
      UpWhileStreaksShort(p, failureCount, recoveryCount);
      assert obs[..|obs|] == obs;
    }
  }

  /** The device goes Down exactly at the observation that completes the first
      streak of `failureCount` consecutive Down observations, and that
      observation raises the event. */
  lemma {:induction false} DownAtFirstFullStreak(obs: seq<bool>, failureCount: int, recoveryCount: int)
    requires failureCount >= 1
    requires forall k :: 0 <= k < |obs| ==> TrailingDowns(obs[..k]) < failureCount
    requires TrailingDowns(obs) >= failureCount
    ensures Run(Hysteresis(Up, 0), obs, failureCount, recoveryCount) == Hysteresis(Down, failureCount)
    ensures Step(Run(Hysteresis(Up, 0), obs[..|obs| - 1], failureCount, recoveryCount), true, failureCount, recoveryCount).issueEvent
  {
    var p := obs[..|obs| - 1];
    forall k | 0 <= k <= |p| ensures TrailingDowns(p[..k]) < failureCount {
      assert p[..k] == obs[..k];
    }
    UpWhileStreaksShort(p, failureCount, recoveryCount);
  }

  /** `n` consecutive Up observations. */
  function Ups(n: nat): (obs: seq<bool>)
    ensures |obs| == n && forall i :: 0 <= i < n ==> !obs[i]
  {
    seq(n, _ => false)
  }

  /** From Down, fewer than `recoveryCount` consecutive Up observations leave the
      device Recovering with that many confirmations. */
  lemma {:induction false} RecoveringBelowThreshold(n: nat, count: nat, failureCount: int, recoveryCount: int)
    requires 1 <= n < recoveryCount
    ensures Run(Hysteresis(Down, count), Ups(n), failureCount, recoveryCount) == Hysteresis(Recovering, n)
  {
    assert Ups(n)[..n - 1] == Ups(n - 1);
    if n > 1 {
      RecoveringBelowThreshold(n - 1, count, failureCount, recoveryCount);
    } else {
      assert Ups(0) == [];
    }
  }

  /** From Down, exactly `recoveryCount` consecutive Up observations bring the
      device back Up with a cleared count, and the last one raises the event. */
  lemma {:induction false} UpAtRecoveryThreshold(count: nat, failureCount: int, recoveryCount: int)
    requires recoveryCount >= 1
    ensures Run(Hysteresis(Down, count), Ups(recoveryCount), failureCount, recoveryCount) == Hysteresis(Up, 0)
    ensures Step(Run(Hysteresis(Down, count), Ups(recoveryCount - 1), failureCount, recoveryCount), false, failureCount, recoveryCount).issueEvent
  {
    assert Ups(recoveryCount)[..recoveryCount - 1] == Ups(recoveryCount - 1);
    if recoveryCount > 1 {
      RecoveringBelowThreshold(recoveryCount - 1, count, failureCount, recoveryCount);
    } else {
      assert Ups(0) == [];
    }
  }

  /** What every reachable state satisfies when both thresholds are at least 1:
      an Up device has fewer pending failures than the failure count, and a
      Recovering device has between 1 and recoveryCount - 1 confirmations. */
  predicate Consistent(h: Hysteresis, failureCount: int, recoveryCount: int)
  {
    && (h.status == Up ==> h.count < failureCount)
    && (h.status == Recovering ==> 1 <= h.count < recoveryCount)
  }

  /** With both thresholds at least 1, a single poll from any state, even an
      inconsistent one, lands in a consistent state. */
  lemma StepLandsConsistent(h: Hysteresis, down: bool, failureCount: int, recoveryCount: int)
    requires failureCount >= 1 && recoveryCount >= 1
    ensures var t := Step(h, down, failureCount, recoveryCount);
      Consistent(Hysteresis(t.status, t.eventCount), failureCount, recoveryCount)
  {
  }

  /** Every run of observations keeps the state consistent; only the empty run
      needs the starting state to be consistent, since any poll lands in a
      consistent state (StepLandsConsistent). */
  lemma RunKeepsConsistent(h: Hysteresis, obs: seq<bool>, failureCount: int, recoveryCount: int)
    requires failureCount >= 1 && recoveryCount >= 1
    requires Consistent(h, failureCount, recoveryCount)
    ensures Consistent(Run(h, obs, failureCount, recoveryCount), failureCount, recoveryCount)
  {
    if obs != [] {
      StepLandsConsistent(Run(h, obs[..|obs| - 1], failureCount, recoveryCount), obs[|obs| - 1], failureCount, recoveryCount);
    }
  }

  // ------------------------------------------------------------ event line

  datatype Severity = Error | Notice

  datatype LogLine = LogLine(severity: Severity, text: string)

  /** The event line logged when the flag is set: an ERROR naming the last error
      if the device is now Down, a NOTICE otherwise. */
  function EventLine(hostId: nat, issue: bool, status: Status, lastError: string): (e: Option<LogLine>)
    ensures e.Some? <==> issue
    ensures e.Some? ==> (e.value.severity == Error <==> status == Down)
    ensures e.Some? && status == Down ==>
      |lastError| <= |e.value.text| && e.value.text[|e.value.text| - |lastError|..] == lastError
  {
    var device := "Device[" + DecimalString(hostId) + "] ";
    if !issue then None
    else if status == Down then Some(LogLine(Error, device + "ERROR: HOST EVENT: Device is DOWN Message: " + lastError))
    else Some(LogLine(Notice, device + "NOTICE: HOST EVENT: Device Returned FROM DOWN State: "))
  }

  /** An event raised by a Down observation is always an ERROR, one raised by
      an Up observation always a NOTICE. */
  lemma EventSeverityFollowsObservation(hostId: nat, h: Hysteresis, down: bool, failureCount: int, recoveryCount: int, lastError: string)
    requires Step(h, down, failureCount, recoveryCount).issueEvent
    ensures var t := Step(h, down, failureCount, recoveryCount);
      EventLine(hostId, true, t.status, lastError).value.severity == (if down then Error else Notice)
  {
  }

  // ------------------------------------------------------- error message

  /** The status_last_error recorded on a Down observation. */
  function DownError(mode: AvailabilityMode, snmpNotRequired: bool, pingResponse: string, snmpResponse: string): string
  {
    if mode == AvailSnmpAndPing || mode == AvailSnmpOrPing then
      if snmpNotRequired then pingResponse else snmpResponse + ", " + pingResponse
    else if mode == AvailSnmp then
      if snmpNotRequired then "Device does not require SNMP" else snmpResponse
    else pingResponse
  }

  /** Outside the SNMP-only mode the ping diagnostic always ends the message;
      in the SNMP modes the SNMP diagnostic heads it unless SNMP is not required. */
  lemma DownErrorSources(mode: AvailabilityMode, snmpNotRequired: bool, pingResponse: string, snmpResponse: string)
    ensures var e := DownError(mode, snmpNotRequired, pingResponse, snmpResponse);
      && (mode != AvailSnmp ==> |pingResponse| <= |e| && e[|e| - |pingResponse|..] == pingResponse)
      && (ChecksSnmp(mode) && !snmpNotRequired ==> snmpResponse <= e)
      && (!ChecksSnmp(mode) ==> e == pingResponse)
  {
  }

  // ------------------------------------------------------------ the record

  /** The probe results of one poll ($ping), updated in place by the coercion
      of non-numeric samples. A sample is `None` when it is not numeric. */
  class Probe {
    var pingStatus: Option<real>
    var snmpStatus: Option<real>
    var pingResponse: string
    var snmpResponse: string

    constructor (pingStatus: Option<real>, snmpStatus: Option<real>, pingResponse: string, snmpResponse: string)
      ensures this.pingStatus == pingStatus && this.snmpStatus == snmpStatus
      ensures this.pingResponse == pingResponse && this.snmpResponse == snmpResponse
    {
      this.pingStatus := pingStatus;
      this.snmpStatus := snmpStatus;
      this.pingResponse := pingResponse;
      this.snmpResponse := snmpResponse;
    }

    /** Replaces non-numeric samples of the checks the mode uses by 0. */
    method Coerce(mode: AvailabilityMode)
      modifies this`snmpStatus, this`pingStatus
      ensures snmpStatus == Coerced(ChecksSnmp(mode), old(snmpStatus))
      ensures pingStatus == Coerced(ChecksPing(mode), old(pingStatus))
    {
      if (mode == AvailSnmpAndPing || mode == AvailSnmpOrPing || mode == AvailSnmp) && snmpStatus.None? {
        snmpStatus := Some(0.0);
      }
      if (mode == AvailSnmpAndPing || mode == AvailSnmpOrPing || mode == AvailPing) && pingStatus.None? {
        pingStatus := Some(0.0);
      }
    }
  }

  /** One device's status record ($hosts[$host_id]). */
  class HostRecord {
    const hostId: nat
    var status: Status
    var statusEventCount: nat
    var statusFailDate: string
    var statusRecDate: string
    var statusLastError: string
    var minTime: real
    var maxTime: real
    var curTime: real
    var avgTime: real
    var totalPolls: nat
    var failedPolls: nat
    var availability: real
    var snmpCommunity: string
    var snmpVersion: int

    /** Failed polls are part of all polls. */
    ghost predicate Valid()
      reads this
    {
      failedPolls <= totalPolls
    }

    constructor (hostId: nat, status: Status, statusEventCount: nat, statusFailDate: string, statusRecDate: string,
                 statusLastError: string, minTime: real, maxTime: real, curTime: real, avgTime: real,
                 totalPolls: nat, failedPolls: nat, availability: real, snmpCommunity: string, snmpVersion: int)
      requires failedPolls <= totalPolls
      ensures Valid()
      ensures this.hostId == hostId && this.status == status && this.statusEventCount == statusEventCount
      ensures this.statusFailDate == statusFailDate && this.statusRecDate == statusRecDate
      ensures this.statusLastError == statusLastError
      ensures this.minTime == minTime && this.maxTime == maxTime && this.curTime == curTime && this.avgTime == avgTime
      ensures this.totalPolls == totalPolls && this.failedPolls == failedPolls && this.availability == availability
      ensures this.snmpCommunity == snmpCommunity && this.snmpVersion == snmpVersion
    {
      this.hostId := hostId;
      this.status := status;
      this.statusEventCount := statusEventCount;
      this.statusFailDate := statusFailDate;
      this.statusRecDate := statusRecDate;
      this.statusLastError := statusLastError;
      this.minTime := minTime;
      this.maxTime := maxTime;
      this.curTime := curTime;
      this.avgTime := avgTime;
      this.totalPolls := totalPolls;
      this.failedPolls := failedPolls;
      this.availability := availability;
      this.snmpCommunity := snmpCommunity;
      this.snmpVersion := snmpVersion;
    }

    /** Feeds one observed status into the record. `now` stands for the current
        date, the two counts for the configured ping_failure_count and
        ping_recovery_count. Returns the event flag and the event line it
        produces; persisting the record is left to the caller. */
    method UpdateHostStatus(observed: Status, probe: Probe, mode: AvailabilityMode,
                            failureCount: int, recoveryCount: int, now: string)
      returns (issueLogMessage: bool, event: Option<LogLine>)
      requires Valid()
      modifies this, probe
      ensures Valid()
      // counters and availability
      ensures totalPolls == old(totalPolls) + 1
      ensures failedPolls == old(failedPolls) + (if observed == Down then 1 else 0)
      ensures availability == Availability(totalPolls, failedPolls)
      ensures 0.0 <= availability <= 100.0
      // configuration is not touched
      ensures snmpCommunity == old(snmpCommunity) && snmpVersion == old(snmpVersion)
      ensures probe.pingResponse == old(probe.pingResponse) && probe.snmpResponse == old(probe.snmpResponse)
      // the Down path
      ensures observed == Down ==>
        var t := DownTransition(old(status), old(statusEventCount), failureCount);
        && status == t.status && statusEventCount == t.eventCount && issueLogMessage == t.issueEvent
        && statusFailDate == (if t.stampDate then now else NormalizedDate(old(statusFailDate)))
        && statusRecDate == NormalizedDate(old(statusRecDate))
        && statusLastError == DownError(mode, SnmpNotRequired(snmpCommunity, snmpVersion), probe.pingResponse, probe.snmpResponse)
        && curTime == old(curTime) && minTime == old(minTime) && maxTime == old(maxTime) && avgTime == old(avgTime)
        && probe.pingStatus == old(probe.pingStatus) && probe.snmpStatus == old(probe.snmpStatus)
      // the Up path
      ensures observed != Down ==>
        var t := UpTransition(old(status), old(statusEventCount), recoveryCount);
        && status == t.status && statusEventCount == t.eventCount && issueLogMessage == t.issueEvent
        && statusFailDate == NormalizedDate(old(statusFailDate))
        && statusRecDate == (if t.stampDate then now else NormalizedDate(old(statusRecDate)))
        && statusLastError == old(statusLastError)
        && probe.snmpStatus == Coerced(ChecksSnmp(mode), old(probe.snmpStatus))
        && probe.pingStatus == Coerced(ChecksPing(mode), old(probe.pingStatus))
        && curTime == PingTime(mode, SnmpNotRequired(snmpCommunity, snmpVersion), old(probe.snmpStatus), old(probe.pingStatus))
        && maxTime == (if curTime > old(maxTime) then curTime else old(maxTime))
        && minTime == (if curTime < old(minTime) then curTime else old(minTime))
        && minTime <= curTime <= maxTime
        && avgTime == IncrementalMean(old(avgTime), old(totalPolls) - old(failedPolls), curTime)
      // the event line
      ensures event == EventLine(hostId, issueLogMessage, status, statusLastError)
    {
      NormalizeDates();
      if observed == Down {
        issueLogMessage := ObserveDown(probe, mode, failureCount, now);
      } else {
        issueLogMessage := ObserveUp(probe, mode, recoveryCount, now);
      }
      event := EventLine(hostId, issueLogMessage, status, statusLastError);
    }

    /** The Down branch: counts a failed poll, records the error message and
        applies the Down transition. */
    method ObserveDown(probe: Probe, mode: AvailabilityMode, failureCount: int, now: string)
      returns (issue: bool)
      requires Valid()
      modifies this`totalPolls, this`failedPolls, this`availability, this`statusLastError
      modifies this`status, this`statusEventCount, this`statusFailDate
      ensures Valid()
      ensures totalPolls == old(totalPolls) + 1 && failedPolls == old(failedPolls) + 1
      ensures availability == Availability(totalPolls, failedPolls)
      ensures statusLastError == DownError(mode, SnmpNotRequired(snmpCommunity, snmpVersion), probe.pingResponse, probe.snmpResponse)
      ensures var t := DownTransition(old(status), old(statusEventCount), failureCount);
        && status == t.status && statusEventCount == t.eventCount && issue == t.issueEvent
        && statusFailDate == (if t.stampDate then now else old(statusFailDate))
    {
      CountPoll(true);
      RecordDownError(probe, mode);
      issue := ApplyDown(failureCount, now);
    }

    /** The Up branch: counts a successful poll, coerces the samples, records
        the response times and applies the Up transition. */
    method ObserveUp(probe: Probe, mode: AvailabilityMode, recoveryCount: int, now: string)
      returns (issue: bool)
      requires Valid()
      modifies this`totalPolls, this`failedPolls, this`availability
      modifies this`curTime, this`minTime, this`maxTime, this`avgTime
      modifies this`status, this`statusEventCount, this`statusRecDate
      modifies probe`snmpStatus, probe`pingStatus
      ensures Valid()
      ensures totalPolls == old(totalPolls) + 1 && failedPolls == old(failedPolls)
      ensures availability == Availability(totalPolls, failedPolls)
      ensures probe.snmpStatus == Coerced(ChecksSnmp(mode), old(probe.snmpStatus))
      ensures probe.pingStatus == Coerced(ChecksPing(mode), old(probe.pingStatus))
      ensures curTime == PingTime(mode, SnmpNotRequired(snmpCommunity, snmpVersion), old(probe.snmpStatus), old(probe.pingStatus))
      ensures maxTime == (if curTime > old(maxTime) then curTime else old(maxTime))
      ensures minTime == (if curTime < old(minTime) then curTime else old(minTime))
      ensures minTime <= curTime <= maxTime
      ensures avgTime == IncrementalMean(old(avgTime), old(totalPolls) - old(failedPolls), curTime)
      ensures var t := UpTransition(old(status), old(statusEventCount), recoveryCount);
        && status == t.status && statusEventCount == t.eventCount && issue == t.issueEvent
        && statusRecDate == (if t.stampDate then now else old(statusRecDate))
    {
      CountPoll(false);
      probe.Coerce(mode);
      var pingTime := ResponseTime(probe, mode);
      RecordTimes(pingTime);
      issue := ApplyUp(recoveryCount, now);
    }

    /** Empty fail and recovery dates become UnsetDate. */
    method NormalizeDates()
      modifies this`statusFailDate, this`statusRecDate
      ensures statusFailDate == NormalizedDate(old(statusFailDate))
      ensures statusRecDate == NormalizedDate(old(statusRecDate))
    {
      if statusFailDate == "" {
        statusFailDate := UnsetDate;
      }
      if statusRecDate == "" {
        statusRecDate := UnsetDate;
      }
    }

    /** Counts one poll, failed or not, and recomputes the availability. */
    method CountPoll(failed: bool)
      requires Valid()
      modifies this`totalPolls, this`failedPolls, this`availability
      ensures Valid()
      ensures totalPolls == old(totalPolls) + 1
      ensures failedPolls == old(failedPolls) + (if failed then 1 else 0)
      ensures availability == Availability(totalPolls, failedPolls)
    {
      if failed {
        failedPolls := failedPolls + 1;
      }
      totalPolls := totalPolls + 1;
      availability := 100.0 * (totalPolls as real - failedPolls as real) / totalPolls as real;
    }

    /** Picks the error message of a Down observation by availability mode. */
    method RecordDownError(probe: Probe, mode: AvailabilityMode)
      modifies this`statusLastError
      ensures statusLastError == DownError(mode, SnmpNotRequired(snmpCommunity, snmpVersion), probe.pingResponse, probe.snmpResponse)
    {
      if mode == AvailSnmpAndPing || mode == AvailSnmpOrPing {
        if snmpCommunity == "" && snmpVersion != 3 {
          statusLastError := probe.pingResponse;
        } else {
          statusLastError := probe.snmpResponse + ", " + probe.pingResponse;
        }
      } else if mode == AvailSnmp {
        if snmpCommunity == "" && snmpVersion != 3 {
          statusLastError := "Device does not require SNMP";
        } else {
          statusLastError := probe.snmpResponse;
        }
      } else {
        statusLastError := probe.pingResponse;
      }
    }

    /** The status transition of a Down observation. */
    method ApplyDown(failureCount: int, now: string) returns (issue: bool)
      modifies this`status, this`statusEventCount, this`statusFailDate
      ensures var t := DownTransition(old(status), old(statusEventCount), failureCount);
        && status == t.status && statusEventCount == t.eventCount && issue == t.issueEvent
        && statusFailDate == (if t.stampDate then now else old(statusFailDate))
    {
      issue := false;
      if status == Up {
        statusEventCount := statusEventCount + 1;
        if statusEventCount >= failureCount {
          status := Down;
          issue := true;
          if failureCount == 1 {
            statusFailDate := now;
          }
        } else if statusEventCount == 1 {
          statusFailDate := now;
        }
      } else if status == Recovering {
        statusEventCount := 1;
        status := Down;
      } else if status == Unknown {
        status := Down;
        statusEventCount := 0;
      } else {
        statusEventCount := statusEventCount + 1;
      }
    }

    /** The response time of an Up observation, from the coerced samples. */
    method ResponseTime(probe: Probe, mode: AvailabilityMode) returns (pingTime: real)
      requires ChecksSnmp(mode) ==> probe.snmpStatus.Some?
      requires ChecksPing(mode) ==> probe.pingStatus.Some?
      ensures pingTime == PingTime(mode, SnmpNotRequired(snmpCommunity, snmpVersion), probe.snmpStatus, probe.pingStatus)
    {
      if mode == AvailSnmpAndPing || mode == AvailSnmpOrPing {
        if snmpCommunity == "" && snmpVersion != 3 {
          pingTime := 0.0;
        } else {
          pingTime := (probe.snmpStatus.value + probe.pingStatus.value) / 2.0;
        }
      } else if mode == AvailSnmp {
        if snmpCommunity == "" && snmpVersion != 3 {
          pingTime := 0.0;
        } else {
          pingTime := probe.snmpStatus.value;
        }
      } else if mode == AvailNone {
        pingTime := 0.0;
      } else {
        pingTime := probe.pingStatus.value;
      }
    }

    /** Records the response time of an Up observation that has already been counted. */
    method RecordTimes(pingTime: real)
      requires failedPolls < totalPolls
      modifies this`curTime, this`minTime, this`maxTime, this`avgTime
      ensures curTime == pingTime
      ensures maxTime == (if pingTime > old(maxTime) then pingTime else old(maxTime))
      ensures minTime == (if pingTime < old(minTime) then pingTime else old(minTime))
      ensures minTime <= curTime <= maxTime
      ensures avgTime == IncrementalMean(old(avgTime), totalPolls - 1 - failedPolls, pingTime)
    {
      curTime := pingTime;
      if pingTime > maxTime {
        maxTime := pingTime;
      }
      if pingTime < minTime {
        minTime := pingTime;
      }
      avgTime := ((totalPolls - 1 - failedPolls) as real * avgTime + pingTime) / (totalPolls - failedPolls) as real;
    }

    /** The status transition of an Up observation. */
    method ApplyUp(recoveryCount: int, now: string) returns (issue: bool)
      modifies this`status, this`statusEventCount, this`statusRecDate
      ensures var t := UpTransition(old(status), old(statusEventCount), recoveryCount);
        && status == t.status && statusEventCount == t.eventCount && issue == t.issueEvent
        && statusRecDate == (if t.stampDate then now else old(statusRecDate))
    {
      issue := false;
      if status == Down || status == Recovering {
        if status == Down {
          status := Recovering;
          statusEventCount := 1;
        } else {
          statusEventCount := statusEventCount + 1;
        }
        if statusEventCount >= recoveryCount {
          status := Up;
          issue := true;
          if recoveryCount == 1 {
            statusRecDate := now;
          }
          statusEventCount := 0;
        } else if statusEventCount == 1 {
          statusRecDate := now;
        }
      } else {
        status := Up;
        statusEventCount := 0;
      }
    }
  }
}
