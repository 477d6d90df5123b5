/** The port scanner: the address check, `port_range_pattern.search` on the
    range typed with its spaces deleted, and the probe loop over
    `range(port_min, port_max + 1)`. */
module PortRange {
  import opened PyStr
  import Ipv4

  /** The two groups of the match, read with `int()`. Nothing orders them or bounds them by 65535. */
  datatype Bounds = Bounds(portMin: nat, portMax: nat)

  /** Where a match sits in the searched string: the first group is s[start..dash],
      the '-' is s[dash], the second group is s[dash + 1..end]. */
  datatype Span = Span(start: nat, dash: nat, end: nat)

  /** `([0-9]+)-([0-9]+)` matches s[i..k], with its '-' at j. */
  ghost predicate IsMatchAt(s: string, i: int, j: int, k: int) {
    && 0 <= i < j
    && j + 1 < k <= |s|
    && AllDigits(s[i..j])
    && s[j] == '-'
    && AllDigits(s[j + 1..k])
  }

  /** The match `search` reports: no match starts further left, and the
      greedy second group runs on as long as there are digits. */
  ghost predicate IsLeftmostGreedyMatch(s: string, i: int, j: int, k: int) {
    && IsMatchAt(s, i, j, k)
    && (k == |s| || !IsDigit(s[k]))
    && forall i', j', k' :: IsMatchAt(s, i', j', k') ==> i <= i'
  }

  /** The pair read from a match: `int()` of each group. */
  function GroupValues(s: string, i: int, j: int, k: int): Bounds
    requires 0 <= i <= j && j + 1 <= k <= |s|
    requires AllDigits(s[i..j]) && AllDigits(s[j + 1..k])
  {
    Bounds(DecimalValue(s[i..j]), DecimalValue(s[j + 1..k]))
  }

  /** The end of the longest run of digits starting at i: how far a greedy `[0-9]+` reaches. */
  function DigitRunEnd(s: string, i: nat): (j: nat)
    requires i <= |s|
    ensures i <= j <= |s|
    ensures AllDigits(s[i..j])
    ensures j == |s| || !IsDigit(s[j])
    decreases |s| - i
  {
    if i < |s| && IsDigit(s[i]) then
      var j := DigitRunEnd(s, i + 1);
      assert forall n | 0 <= n < j - i :: s[i..j][n] == s[n + i];
      j
    else i
  }

  /** A run of digits followed by a non-digit or the end is the greedy run. */
  lemma {:induction false} DigitRunEndAt(s: string, i: nat, j: nat)
    requires i <= j <= |s|
    requires AllDigits(s[i..j])
    requires j == |s| || !IsDigit(s[j])
    ensures DigitRunEnd(s, i) == j
    decreases j - i
  {
    if i < j {
      assert s[i] == s[i..j][0];
      assert s[i + 1..j] == s[i..j][1..];
      DigitRunEndAt(s, i + 1, j);
    }
  }

  /** `port_range_pattern.search(s)` restricted to matches starting at i or later:
      each start position is tried in turn, and at each the groups are greedy. */
  function SearchFrom(s: string, i: nat): (r: Option<Span>)
    requires i <= |s|
    ensures r.Some? ==> i <= r.value.start
    ensures r.Some? ==> IsMatchAt(s, r.value.start, r.value.dash, r.value.end)
    ensures r.Some? ==> r.value.end == |s| || !IsDigit(s[r.value.end])
    decreases |s| - i
  {
    if i == |s| then None
    else
      var j := DigitRunEnd(s, i);
      if i < j && j + 1 < |s| && s[j] == '-' && IsDigit(s[j + 1]) then
        var k := DigitRunEnd(s, j + 1);
        Some(Span(i, j, k))
      else SearchFrom(s, i + 1)
  }

  /** The search misses no match: nothing starts between i and what it reports,
      and when it reports nothing there is no match from i on. */
  lemma {:induction false} SearchFromIsLeftmost(s: string, i: nat)
    requires i <= |s|
    ensures SearchFrom(s, i).None? ==>
      forall a, j, k :: IsMatchAt(s, a, j, k) ==> a < i
    ensures SearchFrom(s, i).Some? ==>
      forall a, j, k :: IsMatchAt(s, a, j, k) && i <= a ==> SearchFrom(s, i).value.start <= a
    decreases |s| - i
  {
    if i < |s| {
      var j := DigitRunEnd(s, i);
      if !(i < j && j + 1 < |s| && s[j] == '-' && IsDigit(s[j + 1])) {
        forall j', k' | IsMatchAt(s, i, j', k')
          ensures false
        {
          DigitRunEndAt(s, i, j');
        }
        SearchFromIsLeftmost(s, i + 1);
      }
    }
  }

  /** The leftmost greedy match is unique, so the pair the scanner reads is well defined. */
  lemma LeftmostGreedyMatchUnique(s: string, i: int, j: int, k: int, i2: int, j2: int, k2: int)
    requires IsLeftmostGreedyMatch(s, i, j, k)
    requires IsLeftmostGreedyMatch(s, i2, j2, k2)
    ensures i == i2 && j == j2 && k == k2
  {
    assert i == i2;
    DigitRunEndAt(s, i, j);
    DigitRunEndAt(s, i, j2);
    DigitRunEndAt(s, j + 1, k);
    DigitRunEndAt(s, j + 1, k2);
  }

  /** Lines 122-125: delete the spaces, search, and read both groups with `int()`;
      `None` is the case in which the prompt repeats. */
  function ParsePortRange(input: string): Option<Bounds> {
    var s := RemoveAll(input, ' ');
    match SearchFrom(s, 0)
    case None => None
    case Some(m) => Some(GroupValues(s, m.start, m.dash, m.end))
  }

  /** Parsing fails exactly when the input, spaces deleted, holds no `digits-digits`;
      otherwise it yields the values of the leftmost, greedy such substring. */
  lemma ParsePortRangeIff(input: string)
    ensures ParsePortRange(input).None? ==>
      forall i, j, k :: !IsMatchAt(RemoveAll(input, ' '), i, j, k)
    ensures (forall i, j, k :: !IsMatchAt(RemoveAll(input, ' '), i, j, k)) ==>
      ParsePortRange(input).None?
    ensures ParsePortRange(input).Some? ==>
      exists i, j, k :: IsLeftmostGreedyMatch(RemoveAll(input, ' '), i, j, k) &&
        ParsePortRange(input).value == GroupValues(RemoveAll(input, ' '), i, j, k)
  {
    var s := RemoveAll(input, ' ');
    SearchFromIsLeftmost(s, 0);
    var r := SearchFrom(s, 0);
    if r.Some? {
      var m := r.value;
      assert IsMatchAt(s, m.start, m.dash, m.end);
      assert IsLeftmostGreedyMatch(s, m.start, m.dash, m.end);
      assert ParsePortRange(input).value == GroupValues(s, m.start, m.dash, m.end);
    }
  }

  /** No match starts inside a prefix that holds no digit. */
  lemma NoMatchInDigitFreePrefix(s: string, n: nat)
    requires n <= |s|
    requires forall m | 0 <= m < n :: !IsDigit(s[m])
    ensures forall a, j, k | IsMatchAt(s, a, j, k) :: n <= a
  {
    forall a, j, k | IsMatchAt(s, a, j, k)
      ensures n <= a
    {
      assert s[a..j][0] == s[a];
    }
  }

  /** A run of digits, a '-' and a run of digits, with no digit anywhere
      before it and none right after it, is the leftmost greedy match. */
  lemma RangeIsLeftmostMatch(s: string, i: nat, j: nat, k: nat)
    requires i < j && j + 1 < k <= |s|
    requires forall n | 0 <= n < i :: !IsDigit(s[n])
    requires AllDigits(s[i..j]) && s[j] == '-' && AllDigits(s[j + 1..k])
    requires k == |s| || !IsDigit(s[k])
    ensures IsLeftmostGreedyMatch(s, i, j, k)
  {
    NoMatchInDigitFreePrefix(s, i);
  }

  /** Where the parts of p + x + '-' + y + q sit: x at s[i..j], the '-' at
      s[j], y at s[j + 1..k]; no digit before i when p has none, and none at k
      when q does not start with one. */
  lemma RangeLayout(s: string, p: string, x: string, y: string, q: string, i: nat, j: nat, k: nat)
    requires s == p + x + ['-'] + y + q
    requires forall n | 0 <= n < |p| :: !IsDigit(p[n])
    requires q == [] || !IsDigit(q[0])
    requires i == |p| && j == i + |x| && k == j + 1 + |y|
    ensures k <= |s|
    ensures forall n | 0 <= n < i :: !IsDigit(s[n])
    ensures s[i..j] == x && s[j] == '-' && s[j + 1..k] == y
    ensures k == |s| || !IsDigit(s[k])
  {
    assert s == (p + x) + (['-'] + y + q);
    assert (['-'] + y + q)[1..] == y + q;
    assert forall n | 0 <= n < i :: s[n] == p[n];
    assert k < |s| ==> s[k] == q[0];
  }

  /** What the search reports is the leftmost greedy match, whenever there is one. */
  lemma SearchFindsLeftmostGreedyMatch(s: string, i: int, j: int, k: int)
    requires IsLeftmostGreedyMatch(s, i, j, k)
    ensures SearchFrom(s, 0) == Some(Span(i, j, k))
  {
    SearchFromIsLeftmost(s, 0);
    var r := SearchFrom(s, 0);
    assert r.Some? by {
      assert IsMatchAt(s, i, j, k);
    }
    var m := r.value;
    assert IsLeftmostGreedyMatch(s, m.start, m.dash, m.end);
    LeftmostGreedyMatchUnique(s, i, j, k, m.start, m.dash, m.end);
  }

  /** Whatever surrounds the range is ignored and spaces anywhere are deleted:
      once the spaces are gone, digits x, a '-' and digits y, preceded by no digit
      and followed by none, give (int(x), int(y)), whether or not x <= y and
      beyond 65535. */
  lemma ParsePortRangeOfPadded(input: string, p: string, x: string, y: string, q: string)
    requires RemoveAll(input, ' ') == p + x + ['-'] + y + q
    requires forall n | 0 <= n < |p| :: !IsDigit(p[n])
    requires |x| >= 1 && AllDigits(x) && |y| >= 1 && AllDigits(y)
    requires q == [] || !IsDigit(q[0])
    ensures ParsePortRange(input) == Some(Bounds(DecimalValue(x), DecimalValue(y)))
  {
    var s := RemoveAll(input, ' ');
    var i, j := |p|, |p| + |x|;
    var k := j + 1 + |y|;
    RangeLayout(s, p, x, y, q, i, j, k);
    assert AllDigits(s[i..j]) && s[j] == '-' && AllDigits(s[j + 1..k]);
    RangeIsLeftmostMatch(s, i, j, k);
    SearchFindsLeftmostGreedyMatch(s, i, j, k);
  }

  /** `range(lo, hi + 1)`: the ports the scanner probes, in the order it probes them. */
  function PortsInRange(lo: nat, hi: nat): seq<nat>
    decreases hi + 1 - lo
  {
    if lo > hi then [] else [lo] + PortsInRange(lo + 1, hi)
  }

  /** Exactly the ports lo to hi, ascending, `max(0, hi - lo + 1)` of them; none when lo > hi. */
  lemma {:induction false} PortsInRangeSpec(lo: nat, hi: nat)
    ensures |PortsInRange(lo, hi)| == if lo <= hi then hi - lo + 1 else 0
    ensures forall n | 0 <= n < |PortsInRange(lo, hi)| :: PortsInRange(lo, hi)[n] == lo + n
    decreases hi + 1 - lo
  {
    if lo <= hi {
      PortsInRangeSpec(lo + 1, hi);
    }
  }

  /** What nmap answered for one port: its state, service name and
      version, or an exception, which the scanner reports and moves past. */
  datatype PortProbe = Answered(state: string, service: string, version: string) | Raised

  /** One line of the scanner's output. */
  datatype PortRow = PortRow(port: nat, probe: PortProbe)

  /** Lines 128-141: probe every port of the range in turn; an exception on one
      port is reported on its row and the loop goes on. */
  method ScanPorts(address: string, range: Bounds, probe: (string, nat) -> PortProbe)
    returns (rows: seq<PortRow>)
    ensures |rows| == |PortsInRange(range.portMin, range.portMax)|
    ensures forall n | 0 <= n < |rows| ::
      var port := PortsInRange(range.portMin, range.portMax)[n];
      rows[n] == PortRow(port, probe(address, port))
  {
    PortsInRangeSpec(range.portMin, range.portMax);
    rows := [];
    var port := range.portMin;
    while port <= range.portMax
      invariant range.portMin <= port
      invariant port == range.portMin || port <= range.portMax + 1
      invariant |rows| == port - range.portMin
      invariant forall n | 0 <= n < |rows| ::
        rows[n] == PortRow(range.portMin + n, probe(address, range.portMin + n))
    {
      rows := rows + [PortRow(port, probe(address, port))];
      port := port + 1;
    }
  }

  /** The index of the first reply from `from` on that the address prompt
      accepts, or `|replies|` when the replies run out first. */
  function FirstAddressAt(replies: seq<string>, from: nat): (r: nat)
    requires from <= |replies|
    ensures from <= r <= |replies|
    ensures r < |replies| ==> Ipv4.MatchesIpPattern(replies[r])
    ensures forall m | from <= m < r :: !Ipv4.MatchesIpPattern(replies[m])
    decreases |replies| - from
  {
    if from == |replies| || Ipv4.MatchesIpPattern(replies[from]) then from
    else FirstAddressAt(replies, from + 1)
  }

  /** The index of the first reply from `from` on that the range prompt
      accepts, or `|replies|` when the replies run out first. */
  function FirstRangeAt(replies: seq<string>, from: nat): (r: nat)
    requires from <= |replies|
    ensures from <= r <= |replies|
    ensures r < |replies| ==> ParsePortRange(replies[r]).Some?
    ensures forall m | from <= m < r :: ParsePortRange(replies[m]).None?
    decreases |replies| - from
  {
    if from == |replies| || ParsePortRange(replies[from]).Some? then from
    else FirstRangeAt(replies, from + 1)
  }

  /** How `port_scanner` ends: the replies ran out at one of its prompts, or
      the address and range were accepted and the ports scanned. */
  datatype PortScanOutcome =
    | OutOfReplies
    | Scanned(address: string, range: Bounds, rows: seq<PortRow>)

  /** Lines 111-141. The address prompt repeats until a reply matches the
      address pattern; the range prompt then repeats until a reply holds a
      range; then every port of the range is probed. */
  method PortScanner(replies: seq<string>, probe: (string, nat) -> PortProbe)
    returns (outcome: PortScanOutcome)
    ensures var a := FirstAddressAt(replies, 0);
      outcome.OutOfReplies? <==> a == |replies| || FirstRangeAt(replies, a + 1) == |replies|
    ensures outcome.Scanned? ==>
      var a := FirstAddressAt(replies, 0);
      var b := FirstRangeAt(replies, a + 1);
      && outcome.address == replies[a]
      && Some(outcome.range) == ParsePortRange(replies[b])
      && |outcome.rows| == |PortsInRange(outcome.range.portMin, outcome.range.portMax)|
      && forall n | 0 <= n < |outcome.rows| ::
           outcome.rows[n].port == outcome.range.portMin + n &&
           outcome.rows[n].probe == probe(outcome.address, outcome.rows[n].port)
  {
    var i := 0;
    while i < |replies| && !Ipv4.MatchesIpPattern(replies[i])
      invariant i <= |replies|
      invariant FirstAddressAt(replies, i) == FirstAddressAt(replies, 0)
    {
      i := i + 1;
    }
    if i == |replies| {
      return OutOfReplies;
    }
    var address := replies[i];
    var j := i + 1;
    while j < |replies| && ParsePortRange(replies[j]).None?
      invariant i + 1 <= j <= |replies|
      invariant FirstRangeAt(replies, j) == FirstRangeAt(replies, i + 1)
    {
      j := j + 1;
    }
    if j == |replies| {
      return OutOfReplies;
    }
    var range := ParsePortRange(replies[j]).value;
    var rows := ScanPorts(address, range, probe);
    PortsInRangeSpec(range.portMin, range.portMax);
    outcome := Scanned(address, range, rows);
  }
}
