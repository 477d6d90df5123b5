# NetDetective v1.0 — a Dafny model of its input checks, scan loops and menu

NetDetective is an interactive network tool with a three-item menu:

- a ping sweep of a CIDR subnet, which lists the hosts that are up with their latency, MAC address and vendor;
- a port scanner for one IPv4 address over a range of ports;
- exit.

The scanning itself is done by nmap. This project models the logic of the tool around those calls:

- the three regular expressions and `validate_cidr`, which decide which input is accepted;
- the reading of a port range with `int()`;
- the port loop over `range(port_min, port_max + 1)`;
- the live-host tally and summary of the sweep;
- the menu's dispatch loop.

Every nmap call is a parameter of the model:

- a host entry carries the state nmap gave it and how its rescan ends;
- a port probe is a function from address and port to an answer or an exception.

Modules, one file each:

- `PyStr` (`pystr.dfy`): the Python built-ins the tool relies on, over strings as character sequences.
  - `int()` on ASCII digit strings, and `str()` on naturals, with both round trips.
  - `str.split`, with its inverse `join`.
  - `str.replace(c, "")`.
  - `str.strip()`, using Python's full `isspace` set.
- `Cidr` (`cidr.dfy`): `cidr_pattern` and `validate_cidr`.
  - The regular expression's language is a ghost predicate.
  - An executable split-based recogniser is proved equal to it.
  - The validator is proved to accept exactly the well-formed subnets.
- `Ipv4` (`ipv4.dfy`): `ip_add_pattern`.
  - It is proved to accept exactly the canonical dotted quads of four numbers from 0 to 255.
  - It is related to the subnet check.
- `PortRange` (`port_range.dfy`): `port_scanner`.
  - `port_range_pattern.search` is a search over start positions. It is proved to find the leftmost greedy match, which is unique.
  - The two prompt loops are modelled over a sequence of replies.
  - The port loop is a method proved to probe exactly the ports `lo..hi` in ascending order.
- `PingSweep` (`ping_sweep.dfy`): `ping_sweep`.
  - Both versions are loop methods proved against specification functions: the sweep as written and the corrected sweep (see Findings).
  - Lemmas bound the tally.
- `Menu` (`menu.dfy`): `main`.
  - One round of the menu is a function, and the `while True` loop is a method over a sequence of rounds.
  - Lemmas state which choice leads where.

The code does not check:

- that a port range has `min <= max` or stays within 65535: a reversed range such as `120-60` is accepted and scans no port (`PortRange.PortsInRangeSpec`);
- what surrounds a port range: the range is found with `search`, so text around it is ignored (`PortRange.ParsePortRangeOfPadded`);
- that the address fields of a subnet have no leading zero: they may, although the single-address pattern refuses them and the prefix group admits none (`Ipv4.CidrAdmitsLeadingZeros`).

The code makes its nmap calls one after another: one call for the whole subnet, then one rescan per host that is up, and one call per port. It has no concurrency, deadline or retry of its own.

## Model

| member | source | states |
|---|---|---|
| PyStr.FormatDecimal | NetDetective-v1.0.py:131 | `str(n)` is a numeral with no leading zero that `int()` reads back as n |
| PyStr.FormatDecimalOfValue | NetDetective-v1.0.py:131 | a numeral with no leading zero is `str` of its own value, the other half of the round trip |
| PyStr.DecimalValueBelow | NetDetective-v1.0.py:52 | `int()` of k digits is below 10^k |
| PyStr.DecimalValueAtLeast | NetDetective-v1.0.py:52 | `int()` of k digits not starting with '0' is at least 10^(k-1) |
| PyStr.Split | NetDetective-v1.0.py:48 | `split(sep)` gives at least one piece, no piece holds sep, and joining the pieces with sep gives the string back |
| PyStr.SplitJoin | NetDetective-v1.0.py:51 | splitting undoes joining when no piece holds the separator |
| PyStr.SplitAfterField | NetDetective-v1.0.py:48 | a field without the separator followed by the separator splits off as the first piece |
| PyStr.RemoveAllSpec | NetDetective-v1.0.py:122 | `replace(" ", "")` keeps every other character as often as it occurs and drops every space |
| PyStr.RemoveAllConcat | NetDetective-v1.0.py:122 | deleting spaces keeps the order of what remains: it distributes over concatenation |
| PyStr.RemoveAllAbsent | NetDetective-v1.0.py:122 | a string without spaces is left unchanged |
| PyStr.TrimStartSpec | NetDetective-v1.0.py:153 | stripping the start keeps the longest suffix not starting with white space and drops only white space |
| PyStr.TrimEndSpec | NetDetective-v1.0.py:153 | stripping the end keeps the longest prefix not ending with white space and drops only white space |
| PyStr.StripSpec | NetDetective-v1.0.py:153 | `strip()` is a slice with only white space on either side, and is empty or has no white space at its ends |
| PyStr.StripPadded | NetDetective-v1.0.py:156 | `strip()` of a text padded with white space is the text, when the text has no white space at its ends |
| Cidr.PrefixAlternativeIff | NetDetective-v1.0.py:17 | the prefix group matches exactly the numerals 0 to 32 written without a leading zero |
| Cidr.SplitCidrShape | NetDetective-v1.0.py:48-51 | a string of the pattern's shape splits at '/' into its address and prefix, and the address at '.' into its four fields |
| Cidr.MatchesCidrPatternIff | NetDetective-v1.0.py:16-18 | the split-based recogniser accepts exactly the language of `cidr_pattern` |
| Cidr.ValidateCidrIff | NetDetective-v1.0.py:47-52 | `validate_cidr` holds exactly for four fields of 1-3 digits each worth at most 255, a '/', and a prefix from 0 to 32 |
| Cidr.ValidateCidrOfShape | NetDetective-v1.0.py:47-52 | on the pattern's shape, `validate_cidr` is decided by the prefix group and the four field values |
| Cidr.NumericCheckRefusesLargeField | NetDetective-v1.0.py:49-52 | a subnet in the pattern's language, with one field above 255, is still refused by the numeric check |
| Ipv4.OctetAlternativeIff | NetDetective-v1.0.py:11-12 | the octet alternatives match exactly the numerals 0 to 255 written without a leading zero |
| Ipv4.MatchesIpPatternIff | NetDetective-v1.0.py:10-13 | the split-based recogniser accepts exactly the language of `ip_add_pattern` |
| Ipv4.MatchedAddressIsDottedQuad | NetDetective-v1.0.py:115 | an accepted address has four fields worth at most 255 and is the dotted rendering of their values |
| Ipv4.DottedQuadMatches | NetDetective-v1.0.py:115 | the dotted rendering of four numbers up to 255 is accepted and splits back into their numerals |
| Ipv4.MatchesIpPatternIffDottedQuad | NetDetective-v1.0.py:10-13 | the pattern accepts a string iff it is the dotted rendering of four numbers from 0 to 255 |
| Ipv4.IpPatternImpliesCidr | NetDetective-v1.0.py:10-18 | every accepted address with a '/' and a prefix of at most 32 is a subnet `validate_cidr` accepts |
| Ipv4.CidrAdmitsLeadingZeros | NetDetective-v1.0.py:10-18 | the converse fails: a leading zero in the first field passes the subnet check but not the address pattern |
| PortRange.DigitRunEnd | NetDetective-v1.0.py:14 | a greedy `[0-9]+` from i ends at the first non-digit or the end, and covers only digits |
| PortRange.DigitRunEndAt | NetDetective-v1.0.py:14 | any run of digits ending before a non-digit or the end is the greedy run |
| PortRange.SearchFrom | NetDetective-v1.0.py:14 | a reported match is a `digits-digits` match at or after the start, whose second group cannot be extended |
| PortRange.SearchFromIsLeftmost | NetDetective-v1.0.py:122 | the search misses no match: none when it reports none, and none further left than the one it reports |
| PortRange.LeftmostGreedyMatchUnique | NetDetective-v1.0.py:122 | the leftmost greedy match is unique, so the groups read are well defined |
| PortRange.SearchFindsLeftmostGreedyMatch | NetDetective-v1.0.py:122 | whenever a leftmost greedy match exists the search reports exactly it |
| PortRange.ParsePortRangeIff | NetDetective-v1.0.py:122-125 | parsing fails iff the input with spaces deleted holds no `digits-digits`, and otherwise yields `int()` of the leftmost greedy match's groups |
| PortRange.NoMatchInDigitFreePrefix | NetDetective-v1.0.py:14 | no match of the range pattern starts inside a prefix that holds no digit |
| PortRange.RangeIsLeftmostMatch | NetDetective-v1.0.py:14 | digits, '-', digits, with no digit anywhere before and a non-digit or the end right after, form the leftmost greedy match |
| PortRange.ParsePortRangeOfPadded | NetDetective-v1.0.py:122-125 | spaces anywhere and digit-free text around `x-y` are ignored: the range read is (int(x), int(y)), in either order and beyond 65535 |
| PortRange.PortsInRangeSpec | NetDetective-v1.0.py:129 | `range(lo, hi + 1)` is lo, lo+1, …, hi: hi - lo + 1 ports, none when lo > hi |
| PortRange.ScanPorts | NetDetective-v1.0.py:128-141 | one row per port of the range in order, each with that port's probe answer or exception; an exception does not stop the loop |
| PortRange.FirstAddressAt | NetDetective-v1.0.py:113-117 | the accepted address reply is the first that matches the pattern; every earlier one was refused |
| PortRange.FirstRangeAt | NetDetective-v1.0.py:119-126 | the accepted range reply is the first that holds a range; every earlier one was refused |
| PortRange.PortScanner | NetDetective-v1.0.py:111-141 | apart from the `int()` digit limit under Left out, the run ends only when the replies run out at a prompt; otherwise it scans the first accepted address over the first accepted range, port by port |
| PingSweep.TallyAppend | NetDetective-v1.0.py:74-77 | the live count, the listed addresses and the first host that is up distribute over concatenation of host lists |
| PingSweep.CountUpBounds | NetDetective-v1.0.py:74-107 | the live count is at most the host total, equals the number of rows, is zero iff no host is up, and equals the total iff all are up |
| PingSweep.PingSweepAsWritten | NetDetective-v1.0.py:60-108 | as written, the sweep crashes iff the first host that is up fails its rescan; otherwise it lists every host that is up and reports the total and live counts |
| PingSweep.PingSweep | NetDetective-v1.0.py:60-108 | corrected: a sweep whose first scan succeeds always lists every host that is up and reports the total and live counts, live ≤ total |
| PingSweep.AsWrittenDiffersOnlyOnFirstRescan | NetDetective-v1.0.py:83-99 | the written and corrected sweeps differ exactly when the first host that is up fails its rescan |
| PingSweep.UnboundLatencyCrash | NetDetective-v1.0.py:99 | one host, up, whose rescan raises: the sweep as written crashes where the corrected one reports 1 host of 1 up |
| Menu.Session | NetDetective-v1.0.py:146-170 | a session takes at most one action per round of replies |
| Menu.MenuLoop | NetDetective-v1.0.py:146-170 | the menu loop performs exactly the session's actions, stopping after the first exit |
| Menu.DispatchExitIff | NetDetective-v1.0.py:153-167 | a round exits iff its stripped choice is "3", and then with status 0 |
| Menu.DispatchPortScanIff | NetDetective-v1.0.py:162-163 | the port scanner starts iff the stripped choice is "2" |
| Menu.DispatchInvalidIff | NetDetective-v1.0.py:153-170 | a round reports an invalid option iff its stripped choice is none of "1", "2", "3" |
| Menu.DispatchSweepIff | NetDetective-v1.0.py:155-160 | the sweep starts iff the choice is "1" and the stripped subnet is well formed; the subnet is refused iff the choice is "1" and it is not |
| Menu.DispatchIgnoresPadding | NetDetective-v1.0.py:153 | white space around the choice does not change the round |
| Menu.SessionStopsAtExit | NetDetective-v1.0.py:146-170 | a session exits at most once and only in its last round, stops early only by exiting, and its actions are the rounds' dispatches in order |

## Left out

- The nmap calls are left out. They are the first scan, the per-host rescan, `all_hosts()`, the state lookups and the per-port `scan`. Their results are parameters of the model: a host list with states and rescan endings, and a probe function per port. The construction of the scanners, `nmap.PortScanner()`, sits outside any `try`, and the model does not capture its failing (nmap missing). At line 61 that failure ends the program instead of printing "Initial scan failed"; `FirstScanRaised` stands only for the `scan` at line 69 raising. At line 128 it ends the program after both port-scanner prompts have been answered, before any port is probed; `PortRange.PortScanner` always goes on to scan.
- The latency value, its colour thresholds, and the MAC address and vendor shown for a host are left out. They are measurements and lookups by nmap; only whether the latency was ever bound is modelled. After a later host's failed rescan, the previous host's latency is reused for its colour. That reuse is a display artefact the model does not record.
- `time.sleep`, `time.time`, `datetime` and the elapsed-time figure of the summary are left out as clock I/O.
- The banner, colour codes, `print` and the wording of messages are left out as terminal I/O. `input` becomes a sequence of reply lines. A reply sequence that runs out stands for `input()` reaching end of file.
- PortRange.ParsePortRangeIff: `int()` at lines 124-125 raises ValueError on a group of more than 4300 digits (Python's default limit on integer string conversion, leading zeros included). That call sits outside any `try`, so the program ends; the model reads a group of any length.
- PortRange.ParsePortRangeOfPadded: the same 4300-digit limit of `int()` is not modelled; the lemma's result holds for groups of any length.
- PortRange.PortScanner: the same 4300-digit limit of `int()` is not modelled; a range reply with a longer group ends the program, where the model scans it.
- Menu.MenuLoop: the replies the port scanner reads inside a round are not threaded through the menu's reply sequence. A sweep that crashes, which ends the program, is not propagated into the menu session. Each tool is modelled on its own in `PortRange.PortScanner` and `PingSweep`.
- The regular expressions' `$` also matching before one trailing newline is left out. The modelled input lines come from `input()`, which removes the newline.
- `int()` accepting non-ASCII Unicode digits is left out, because every string given to `int()` has first passed a pattern of ASCII `[0-9]`.
- Menu.Session: its own contract only bounds the number of actions. What the actions are is stated in Menu.SessionStopsAtExit.

## Findings

| source | as written | input that shows it | evidently intended | confidence | as-written member | corrected member |
|---|---|---|---|---|---|---|
| NetDetective-v1.0.py:99 | the latency colour reads `latency`, which is assigned only at line 89. When the rescan at lines 85-86 raises for the first host that is up, `latency` is unbound, UnboundLocalError escapes `ping_sweep`, and the program ends without the host's row or the summary | a subnet whose nmap result lists one host, `10.0.0.1`, up, and whose rescan of that host raises | the failed rescan leaves that host's latency as "N/A", the loop goes on, and the summary reports the total and live counts | not executed | PingSweep.PingSweepAsWritten, PingSweep.UnboundLatencyCrash | PingSweep.PingSweep |
