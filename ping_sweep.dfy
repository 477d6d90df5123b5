/** The host-discovery sweep, `ping_sweep`: the hosts nmap lists
    are walked in order, each host that is up is counted, rescanned for its
    latency and listed, and a summary reports the totals. */
module PingSweep {
  import opened PyStr

  /** How the per-host rescan (lines 84-93) ended. `Timed`: the rescan call
      returned, so the latency was measured, whatever the MAC and vendor
      lookups that follow did. `RescanRaised`: creating the scanner or the
      rescan itself raised, before any latency was measured for this host. */
  datatype Rescan = Timed | RescanRaised

  /** One entry of `nm.all_hosts()`: its address, the state the first scan
      gave it, and how its rescan would end. */
  datatype HostEntry = HostEntry(address: string, state: string, rescan: Rescan)

  /** The first scan (line 69) either raises or lists hosts. */
  datatype FirstScan = FirstScanRaised | Listed(hosts: seq<HostEntry>)

  /** How the sweep ends: the first scan failed and the sweep returned early;
      an exception escaped the loop; or the summary line was printed after
      listing `rows`, one address per host that is up. */
  datatype SweepOutcome =
    | FirstScanFailed
    | Crashed
    | Completed(rows: seq<string>, totalHosts: nat, liveCount: nat)

  predicate IsUp(h: HostEntry) {
    h.state == "up"
  }

  /** The number of hosts that are up. */
  function CountUp(hosts: seq<HostEntry>): nat {
    if hosts == [] then 0 else (if IsUp(hosts[0]) then 1 else 0) + CountUp(hosts[1..])
  }

  /** The addresses of the hosts that are up, in the order nmap lists them. */
  function UpAddresses(hosts: seq<HostEntry>): seq<string> {
    if hosts == [] then []
    else (if IsUp(hosts[0]) then [hosts[0].address] else []) + UpAddresses(hosts[1..])
  }

  /** The first host that is up, if any. */
  function FirstUp(hosts: seq<HostEntry>): Option<HostEntry> {
    if hosts == [] then None
    else if IsUp(hosts[0]) then Some(hosts[0])
    else FirstUp(hosts[1..])
  }

  /** Counting and listing distribute over concatenation: what the loop adds host by host. */
  lemma {:induction false} TallyAppend(a: seq<HostEntry>, b: seq<HostEntry>)
    ensures CountUp(a + b) == CountUp(a) + CountUp(b)
    ensures UpAddresses(a + b) == UpAddresses(a) + UpAddresses(b)
    ensures FirstUp(a + b) == if FirstUp(a).Some? then FirstUp(a) else FirstUp(b)
    decreases |a|
  {
    if a == [] {
      assert a + b == b;
    } else {
      assert (a + b)[1..] == a[1..] + b;
      TallyAppend(a[1..], b);
    }
  }

  /** The live count never exceeds the hosts listed, equals the number of
      addresses printed, and is zero exactly when there is no host that is up. */
  lemma {:induction false} CountUpBounds(hosts: seq<HostEntry>)
    ensures CountUp(hosts) <= |hosts|
    ensures CountUp(hosts) == |UpAddresses(hosts)|
    ensures CountUp(hosts) == 0 <==> FirstUp(hosts).None?
    ensures CountUp(hosts) == |hosts| <==> forall n | 0 <= n < |hosts| :: IsUp(hosts[n])
  {
    if hosts != [] {
      CountUpBounds(hosts[1..]);
      assert forall n | 1 <= n < |hosts| :: hosts[n] == hosts[1..][n - 1];
    }
  }

  /** The sweep as written: the first host that is up decides whether it
      crashes, since `latency` (line 99) is unbound until some rescan has
      measured it. */
  function AsWrittenOutcome(scan: FirstScan): SweepOutcome {
    match scan
    case FirstScanRaised => FirstScanFailed
    case Listed(hosts) =>
      if FirstUp(hosts).Some? && FirstUp(hosts).value.rescan == RescanRaised then Crashed
      else Completed(UpAddresses(hosts), |hosts|, CountUp(hosts))
  }

  /** Lines 60-108 as written. `latencyBound` says whether the local
      `latency` has been assigned yet: when a rescan raises before any latency
      was measured, reading `latency` to choose a colour raises
      UnboundLocalError, before the host's row and the summary are printed.
      When a later rescan raises, the previous host's latency is reused for
      the colour only, which the outcome does not record. */
  method PingSweepAsWritten(scan: FirstScan) returns (outcome: SweepOutcome)
    ensures outcome == AsWrittenOutcome(scan)
  {
    if scan.FirstScanRaised? {
      return FirstScanFailed;
    }
    var hosts := scan.hosts;
    var liveCount := 0;
    var rows: seq<string> := [];
    var latencyBound := false;
    for n := 0 to |hosts|
      invariant liveCount == CountUp(hosts[..n])
      invariant rows == UpAddresses(hosts[..n])
      invariant latencyBound <==> FirstUp(hosts[..n]).Some?
      invariant FirstUp(hosts[..n]).Some? ==> FirstUp(hosts[..n]).value.rescan == Timed
    {
      assert hosts[..n + 1] == hosts[..n] + [hosts[n]];
      TallyAppend(hosts[..n], [hosts[n]]);
      if IsUp(hosts[n]) {
        liveCount := liveCount + 1;
        if hosts[n].rescan == Timed {
          latencyBound := true;
        } else if !latencyBound {
          assert hosts == hosts[..n] + hosts[n..];
          TallyAppend(hosts[..n], hosts[n..]);
          return Crashed;
        }
        rows := rows + [hosts[n].address];
      }
    }
    assert hosts[..|hosts|] == hosts;
    outcome := Completed(rows, |hosts|, liveCount);
  }

  /** The evidently intended sweep: every successful first scan ends with the
      summary, whose live count is the number of hosts that are up. */
  function IntendedOutcome(scan: FirstScan): SweepOutcome {
    match scan
    case FirstScanRaised => FirstScanFailed
    case Listed(hosts) => Completed(UpAddresses(hosts), |hosts|, CountUp(hosts))
  }

  /** Lines 60-108 with the latency reset for every host before its rescan,
      so that a failed rescan only leaves its own row without a latency. */
  method PingSweep(scan: FirstScan) returns (outcome: SweepOutcome)
    ensures outcome == IntendedOutcome(scan)
    ensures outcome.Completed? ==> outcome.liveCount <= outcome.totalHosts
    ensures outcome.Completed? ==> outcome.liveCount == |outcome.rows|
  {
    if scan.FirstScanRaised? {
      return FirstScanFailed;
    }
    var hosts := scan.hosts;
    var liveCount := 0;
    var rows: seq<string> := [];
    for n := 0 to |hosts|
      invariant liveCount == CountUp(hosts[..n])
      invariant rows == UpAddresses(hosts[..n])
    {
      assert hosts[..n + 1] == hosts[..n] + [hosts[n]];
      TallyAppend(hosts[..n], [hosts[n]]);
      if IsUp(hosts[n]) {
        liveCount := liveCount + 1;
        rows := rows + [hosts[n].address];
      }
    }
    assert hosts[..|hosts|] == hosts;
    CountUpBounds(hosts);
    outcome := Completed(rows, |hosts|, liveCount);
  }

  /** The two agree except when the first host that is up fails its rescan;
      then the sweep as written crashes instead of printing its summary. */
  lemma AsWrittenDiffersOnlyOnFirstRescan(scan: FirstScan)
    ensures AsWrittenOutcome(scan) != IntendedOutcome(scan) <==>
      scan.Listed? && FirstUp(scan.hosts).Some? && FirstUp(scan.hosts).value.rescan == RescanRaised
  {
  }

  /** A subnet with one host, up, whose rescan raises: the sweep as written
      crashes where the summary "1 IP addresses (1 hosts up)" was due. */
  lemma UnboundLatencyCrash()
    ensures var scan := Listed([HostEntry("10.0.0.1", "up", RescanRaised)]);
      AsWrittenOutcome(scan) == Crashed && IntendedOutcome(scan) == Completed(["10.0.0.1"], 1, 1)
  {
  }
}
