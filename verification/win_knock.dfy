/**
 The Windows variant (win64/main.py): `resolve_address`, the parser and knock
 loop of `perform_knock`, its probe ladder and status write, `check_service`,
 `test_connection` and the lookup in `knock_service`.
 */
module WinKnocker {
  import opened Optional
  import opened PyStr
  import opened Config
  import opened Knocks

  // ---------------------------------------------------------------- resolve_address

  /**
   The name service as the Windows variant sees it: the two `inet_pton` literal
   checks and `gethostbyname`, whose None stands for a raised error.
   */
  datatype Resolver = Resolver(
    isIPv4: string -> bool,
    isIPv6: string -> bool,
    byName: string -> Option<string>)

  /**
   `resolve_address(host)`. An absent host (None) makes `inet_pton` raise a
   TypeError, which the outer handler turns into None like any resolver error.
   */
  function Resolve(res: Resolver, host: Option<string>): (r: Option<string>)
    ensures host.None? ==> r.None?
    ensures host.Some? && (res.isIPv4(host.value) || res.isIPv6(host.value)) ==> r == host
    ensures host.Some? && !res.isIPv4(host.value) && !res.isIPv6(host.value) ==> r == res.byName(host.value)
  {
    match host
    case None => None
    case Some(h) =>
      if res.isIPv4(h) then Some(h)
      else if res.isIPv6(h) then Some(h)
      else res.byName(h)
  }

  /** A literal address is returned as is, whatever the lookup would answer. */
  lemma ResolveLiteralSkipsLookup(
    isIPv4: string -> bool, isIPv6: string -> bool,
    byName1: string -> Option<string>, byName2: string -> Option<string>, host: string)
    requires isIPv4(host) || isIPv6(host)
    ensures Resolve(Resolver(isIPv4, isIPv6, byName1), Some(host))
         == Resolve(Resolver(isIPv4, isIPv6, byName2), Some(host))
         == Some(host)
  {
  }

  /** `AF_INET6 if ':' in ip else AF_INET`. */
  function FamilyOf(ip: string): (f: Family)
    ensures f == IPv6 <==> ':' in ip
  {
    if ':' in ip then IPv6 else IPv4
  }

  // ---------------------------------------------------------------- port-spec parser

  /**
   The parser at the head of the knock loop. With a ':' the text before the
   first ':' is the port and the second field, lower-cased, selects UDP only if
   it is "udp". Without one, "udp" is looked for before "tcp" in the lower-cased
   spec, every occurrence is deleted, and a bare number is TCP.
   */
  function ParseSpec(spec: string): (r: Option<PortSpec>)
    ensures r.Some? && ':' !in spec ==> (r.value.udp <==> Occurs("udp", Lower(spec)))
  {
    if ':' in spec then
      CountAbsent(spec, ':');
      var parts := Split(spec, ':');
      PortOf(parts[0], Lower(parts[1]) == "udp")
    else if Occurs("udp", Lower(spec)) then
      PortOf(Remove(Lower(spec), "udp"), true)
    else if Occurs("tcp", Lower(spec)) then
      PortOf(Remove(Lower(spec), "tcp"), false)
    else
      PortOf(spec, false)
  }

  /**
   A spec `head:proto[:...]`: the port is `int(head)` and the knock is UDP iff
   `proto`, lower-cased, is "udp"; anything after a second ':' is ignored.
   */
  lemma ParseColonForm(head: string, proto: string, tail: string)
    requires ':' !in head && ':' !in proto
    requires tail == [] || tail[0] == ':'
    ensures ParseSpec(head + ":" + proto + tail) == PortOf(head, Lower(proto) == "udp")
  {
    SplitFields(head, ':', proto, tail);
    assert ':' in head + ":" + proto + tail;
  }

  /** Without ':', a spec holding "udp" in any case takes the UDP branch. */
  lemma ParseUdpBranch(spec: string)
    requires ':' !in spec && Occurs("udp", Lower(spec))
    ensures ParseSpec(spec) == PortOf(Remove(Lower(spec), "udp"), true)
  {
  }

  /** Without ':' or "udp", a spec holding "tcp" in any case takes the TCP branch. */
  lemma ParseTcpBranch(spec: string)
    requires ':' !in spec && !Occurs("udp", Lower(spec)) && Occurs("tcp", Lower(spec))
    ensures ParseSpec(spec) == PortOf(Remove(Lower(spec), "tcp"), false)
  {
  }

  /** A spec with neither ':' nor a protocol name is a bare TCP port. */
  lemma ParseBareBranch(spec: string)
    requires ':' !in spec && !Occurs("udp", Lower(spec)) && !Occurs("tcp", Lower(spec))
    ensures ParseSpec(spec) == PortOf(spec, false)
  {
  }

  /** `N:udp`, `Nudp` and `NUDP` all knock N over UDP. */
  lemma ParseUdpForms(n: int, suffix: string)
    requires Lower(suffix) == "udp"
    ensures ParseSpec(ShowInt(n) + ":" + suffix) == Some(PortSpec(n, true))
    ensures ParseSpec(ShowInt(n) + suffix) == Some(PortSpec(n, true))
  {
    PortOfShowInt(n, true);
    ParseColonForm(ShowInt(n), suffix, []);
    AppendEmpty(ShowInt(n) + ":" + suffix);
    ParseUdpSuffix(n, suffix);
  }

  lemma ParseUdpSuffix(n: int, suffix: string)
    requires Lower(suffix) == "udp"
    ensures ParseSpec(ShowInt(n) + suffix) == Some(PortSpec(n, true))
  {
    var d := ShowInt(n);
    PortOfShowInt(n, true);
    var s := d + suffix;
    assert ':' !in s by { assert ':' !in suffix by { assert |suffix| == 3; } }
    LowerAppend(d, suffix);
    assert Lower(s) == d + "udp";
    OccursSuffix(d, "udp");
    ParseUdpBranch(s);
    RemoveSuffix(d, "udp");
  }

  /** `N:tcp`, `Ntcp` and a bare `N` all knock N over TCP. */
  lemma ParseTcpForms(n: int)
    ensures ParseSpec(ShowInt(n) + ":" + "tcp") == Some(PortSpec(n, false))
    ensures ParseSpec(ShowInt(n) + "tcp") == Some(PortSpec(n, false))
    ensures ParseSpec(ShowInt(n)) == Some(PortSpec(n, false))
  {
    ParseTcpColon(n);
    ParseTcpSuffix(n);
    ParseBare(n);
  }

  lemma ParseTcpColon(n: int)
    ensures ParseSpec(ShowInt(n) + ":" + "tcp") == Some(PortSpec(n, false))
  {
    PortOfShowInt(n, false);
    ParseColonForm(ShowInt(n), "tcp", []);
    assert Lower("tcp")[0] == 't';
    AppendEmpty(ShowInt(n) + ":" + "tcp");
  }

  lemma ParseTcpSuffix(n: int)
    ensures ParseSpec(ShowInt(n) + "tcp") == Some(PortSpec(n, false))
  {
    var d := ShowInt(n);
    PortOfShowInt(n, false);
    var s := d + "tcp";
    assert ':' !in s;
    LowerAppend(d, "tcp");
    assert Lower("tcp") == "tcp";
    assert Lower(s) == s;
    NotOccursWithoutHead("udp", s);
    OccursSuffix(d, "tcp");
    ParseTcpBranch(s);
    RemoveSuffix(d, "tcp");
  }

  lemma ParseBare(n: int)
    ensures ParseSpec(ShowInt(n)) == Some(PortSpec(n, false))
  {
    var d := ShowInt(n);
    PortOfShowInt(n, false);
    NotOccursWithoutHead("udp", d);
    NotOccursWithoutHead("tcp", d);
    ParseBareBranch(d);
  }

  // ---------------------------------------------------------------- knock loop

  /** The parser applied to every entry of `ports_to_knock`, position by position. */
  function ParseAll(specs: seq<string>): (parsed: seq<Option<PortSpec>>)
    ensures |parsed| == |specs|
    ensures forall j | 0 <= j < |specs| :: parsed[j] == ParseSpec(specs[j])
  {
    seq(|specs|, j requires 0 <= j < |specs| => ParseSpec(specs[j]))
  }

  /**
   The knock loop of `perform_knock` from list position `i` on, over the parsed
   entries. An unparsable entry is skipped with no sleep. A parsed entry is
   knocked; a failure to create the socket clears the overall flag and skips
   that entry's sleep; a failed send is logged and the sleep follows as usual.
   The sleep comes after every position but the last, and a negative delay
   makes `time.sleep` raise, which clears the flag and skips the sleep.
   */
  function KnockFrom(ip: string, parsed: seq<Option<PortSpec>>, delayMs: int, transport: seq<Transport>, i: nat): (r: KnockRun)
    requires |transport| >= |parsed| && i <= |parsed|
    ensures forall e | 0 <= e < |r.events| && r.events[e].Knock? ::
      && i <= r.events[e].at < |parsed|
      && parsed[r.events[e].at] == Some(r.events[e].spec)
      && r.events[e].outcome == Effective(transport[r.events[e].at], r.events[e].spec.port)
      && r.events[e].family == FamilyOf(ip)
    decreases |parsed| - i
  {
    if i == |parsed| then KnockRun([], true)
    else
      var rest := KnockFrom(ip, parsed, delayMs, transport, i + 1);
      match parsed[i]
      case None => rest
      case Some(ps) =>
        var k := Knock(i, ps, FamilyOf(ip), Effective(transport[i], ps.port));
        if transport[i] == SocketError then
          KnockRun([k] + rest.events, false)
        else if i == |parsed| - 1 then
          KnockRun([k] + rest.events, rest.allSent)
        else if delayMs < 0 then
          KnockRun([k] + rest.events, false)
        else
          KnockRun([k, Sleep(delayMs)] + rest.events, rest.allSent)
  }

  /**
   The run from one list position in terms of the run from the next: nothing
   for an unparsed entry, otherwise its knock, then the sleep when the socket
   was created, the position is not the last and the delay is not negative.
   */
  lemma KnockStep(ip: string, parsed: seq<Option<PortSpec>>, delayMs: int, transport: seq<Transport>, i: nat)
    requires |transport| >= |parsed| && i < |parsed|
    ensures var r := KnockFrom(ip, parsed, delayMs, transport, i);
      var rest := KnockFrom(ip, parsed, delayMs, transport, i + 1);
      && (parsed[i].None? ==> r == rest)
      && (parsed[i].Some? ==>
            && r.events == StepEvents(Knock(i, parsed[i].value, FamilyOf(ip), Effective(transport[i], parsed[i].value.port)),
                                      transport[i] != SocketError && i < |parsed| - 1 && delayMs >= 0, delayMs)
                           + rest.events
            && r.allSent == (transport[i] != SocketError && (i == |parsed| - 1 || delayMs >= 0) && rest.allSent))
  {
  }

  /**
   Every parsed entry is knocked, in list order, whatever the network answers:
   a failed socket or send does not stop the loop.
   */
  lemma {:induction false} KnockedPositions(ip: string, parsed: seq<Option<PortSpec>>, delayMs: int, transport: seq<Transport>, i: nat)
    requires |transport| >= |parsed| && i <= |parsed|
    ensures KnockPositions(KnockFrom(ip, parsed, delayMs, transport, i).events) == Positions(Flags(parsed), i)
    decreases |parsed| - i
  {
    if i < |parsed| {
      KnockedPositions(ip, parsed, delayMs, transport, i + 1);
      KnockStep(ip, parsed, delayMs, transport, i);
      PositionsStep(Flags(parsed), i);
      if parsed[i].Some? {
        var k := Knock(i, parsed[i].value, FamilyOf(ip), Effective(transport[i], parsed[i].value.port));
        var slept := transport[i] != SocketError && i < |parsed| - 1 && delayMs >= 0;
        StepEventsPositions(k, slept, delayMs);
        KnockPositionsAppend(StepEvents(k, slept, delayMs), KnockFrom(ip, parsed, delayMs, transport, i + 1).events);
      }
    }
  }

  /**
   Every sleep sits right after a knock that was not at the last list position
   and whose socket was created, and lasts the configured delay.
   */
  lemma {:induction false} SleepFollowsKnock(ip: string, parsed: seq<Option<PortSpec>>, delayMs: int, transport: seq<Transport>, i: nat)
    requires |transport| >= |parsed| && i <= |parsed|
    ensures SleepsFollowKnocks(KnockFrom(ip, parsed, delayMs, transport, i).events, |parsed| - 1, delayMs)
    decreases |parsed| - i
  {
    if i < |parsed| {
      SleepFollowsKnock(ip, parsed, delayMs, transport, i + 1);
      KnockStep(ip, parsed, delayMs, transport, i);
      if parsed[i].Some? {
        var k := Knock(i, parsed[i].value, FamilyOf(ip), Effective(transport[i], parsed[i].value.port));
        var rest := KnockFrom(ip, parsed, delayMs, transport, i + 1).events;
        SleepsFollowKnocksPrepend(k, transport[i] != SocketError && i < |parsed| - 1 && delayMs >= 0, rest, |parsed| - 1, delayMs);
      }
    }
  }

  /** A negative delay leaves no sleep at all: `time.sleep` raises each time. */
  lemma {:induction false} NoSleepWithNegativeDelay(ip: string, parsed: seq<Option<PortSpec>>, delayMs: int, transport: seq<Transport>, i: nat)
    requires |transport| >= |parsed| && i <= |parsed|
    ensures delayMs < 0 ==> KnocksOnly(KnockFrom(ip, parsed, delayMs, transport, i).events)
    decreases |parsed| - i
  {
    if i < |parsed| && delayMs < 0 {
      NoSleepWithNegativeDelay(ip, parsed, delayMs, transport, i + 1);
      KnockStep(ip, parsed, delayMs, transport, i);
      if parsed[i].Some? {
        var k := Knock(i, parsed[i].value, FamilyOf(ip), Effective(transport[i], parsed[i].value.port));
        KnocksOnlyPrepend(k, KnockFrom(ip, parsed, delayMs, transport, i + 1).events, delayMs);
      }
    }
  }

  /**
   A knock that is not at the last list position and whose socket was created
   is followed at once by a sleep of the delay, unless the delay is negative.
   */
  lemma {:induction false} KnockThenSleep(ip: string, parsed: seq<Option<PortSpec>>, delayMs: int, transport: seq<Transport>, i: nat)
    requires |transport| >= |parsed| && i <= |parsed|
    ensures delayMs >= 0 ==> KnocksFollowedBySleep(KnockFrom(ip, parsed, delayMs, transport, i).events, |parsed| - 1, delayMs)
    decreases |parsed| - i
  {
    if i < |parsed| {
      KnockThenSleep(ip, parsed, delayMs, transport, i + 1);
      KnockStep(ip, parsed, delayMs, transport, i);
      if parsed[i].Some? && delayMs >= 0 {
        var k := Knock(i, parsed[i].value, FamilyOf(ip), Effective(transport[i], parsed[i].value.port));
        var rest := KnockFrom(ip, parsed, delayMs, transport, i + 1).events;
        KnocksFollowedBySleepPrepend(k, transport[i] != SocketError && i < |parsed| - 1, rest, |parsed| - 1, delayMs);
      }
    }
  }

  /**
   The flag `knock_successful` stays true iff no parsed entry failed to create
   its socket and no sleep was asked for with a negative delay.
   */
  lemma {:induction false} KnockAllSent(ip: string, parsed: seq<Option<PortSpec>>, delayMs: int, transport: seq<Transport>, i: nat)
    requires |transport| >= |parsed| && i <= |parsed|
    ensures KnockFrom(ip, parsed, delayMs, transport, i).allSent <==>
      forall j | i <= j < |parsed| && parsed[j].Some? ::
        transport[j] != SocketError && (j == |parsed| - 1 || delayMs >= 0)
    decreases |parsed| - i
  {
    if i < |parsed| {
      KnockAllSent(ip, parsed, delayMs, transport, i + 1);
      KnockStep(ip, parsed, delayMs, transport, i);
      var rest := KnockFrom(ip, parsed, delayMs, transport, i + 1);
      if !rest.allSent {
        var j :| i + 1 <= j < |parsed| && parsed[j].Some? &&
          !(transport[j] != SocketError && (j == |parsed| - 1 || delayMs >= 0));
      }
    }
  }

  /**
   Skipping is per entry, so the sleep count is not the list length minus one:
   with `["80", "x"]` the sleep after 80 is the last event, and with `["x", "80"]`
   there is none at all.
   */
  lemma TrailingSkipKeepsSleep(ip: string)
    ensures KnockFrom(ip, ParseAll(["80", "x"]), 300, [Ok, Ok], 0).events
         == [Knock(0, PortSpec(80, false), FamilyOf(ip), Ok), Sleep(300)]
    ensures KnockFrom(ip, ParseAll(["x", "80"]), 300, [Ok, Ok], 0).events
         == [Knock(1, PortSpec(80, false), FamilyOf(ip), Ok)]
  {
    ParseBare(80);
    assert ShowInt(80) == "80" by {
      assert ShowNat(8) == "8";
    }
    var x := "x";
    assert ':' !in x;
    assert !Occurs("udp", Lower(x)) && !Occurs("tcp", Lower(x)) by {
      assert Lower(x) == x;
      NotOccursWithoutHead("udp", x);
      NotOccursWithoutHead("tcp", x);
    }
    assert !IsIntLiteral(x) by {
      LetterNotInt(x, 'x');
    }
    assert ParseSpec(x) == None;
  }

  // ---------------------------------------------------------------- test_connection and the probe ladder

  /** The connect timeouts of the ladder, in milliseconds (0.5, 1, 2 and 5 s). */
  const LADDER_MS: seq<nat> := [500, 1000, 2000, 5000]

  /** Timeout of the single probe in `check_service` (2 s). */
  const CHECK_TIMEOUT_MS: nat := 2000

  /**
   One call of `test_connection`: the family of the socket it opened (None
   when the host did not resolve and no socket was made) and whether the
   connect succeeded.
   */
  datatype Attempt = Attempt(timeoutMs: nat, family: Option<Family>, reached: bool)

  /** The test host resolves to a usable address and the port fits a socket address. */
  predicate Reachable(res: Resolver, host: string, port: int) {
    Truthy(Resolve(res, Some(host))) && InPortRange(port)
  }

  /**
   `test_connection(host, port, timeout)`; `connectOk` is the network's answer
   to the connect. An unresolved host gives False without a socket; an
   out-of-range port makes `connect_ex` raise, which is caught as False.
   */
  function TestConnection(res: Resolver, host: string, port: int, timeoutMs: nat, connectOk: bool): (a: Attempt)
    ensures a.timeoutMs == timeoutMs
    ensures a.reached <==> Reachable(res, host, port) && connectOk
    ensures a.family.Some? <==> Truthy(Resolve(res, Some(host)))
    ensures a.family.Some? ==> a.family.value == FamilyOf(Resolve(res, Some(host)).value)
  {
    var ip := Resolve(res, Some(host));
    if !Truthy(ip) then Attempt(timeoutMs, None, false)
    else Attempt(timeoutMs, Some(FamilyOf(ip.value)), InPortRange(port) && connectOk)
  }

  /**
   The ladder from rung `k` on: each timeout in turn, stopping at the first
   attempt that connects. `connects[k]` is the network's answer at rung `k`.
   */
  function LadderFrom(res: Resolver, host: string, port: int, connects: seq<bool>, k: nat): (r: seq<Attempt>)
    requires k <= |LADDER_MS| <= |connects|
    ensures |r| <= |LADDER_MS| - k
    ensures forall j | 0 <= j < |r| :: r[j] == TestConnection(res, host, port, LADDER_MS[k + j], connects[k + j])
    ensures forall j | 0 <= j < |r| - 1 :: !r[j].reached
    ensures |r| < |LADDER_MS| - k ==> |r| > 0 && r[|r| - 1].reached
    ensures (|r| > 0 && r[|r| - 1].reached) <==>
      Reachable(res, host, port) && exists j | k <= j < |LADDER_MS| :: connects[j]
    decreases |LADDER_MS| - k
  {
    if k == |LADDER_MS| then []
    else
      var a := TestConnection(res, host, port, LADDER_MS[k], connects[k]);
      if a.reached then [a]
      else
        var rest := LadderFrom(res, host, port, connects, k + 1);
        assert forall j | 0 < j <= |rest| :: ([a] + rest)[j] == rest[j - 1];
        [a] + rest
  }

  /** The probes of a knock cycle and the verdict `accessible`. */
  datatype ProbeRun = ProbeRun(attempts: seq<Attempt>, accessible: bool)

  /**
   The host and integer port of a test address, when it splits on ':' into
   exactly two parts and the second is an integer; otherwise the unpacking or
   `int()` raises and the probe is abandoned.
   */
  function TestTarget(test: Option<string>): (r: Option<(string, int)>)
    ensures r.Some? ==> Truthy(test) && Count(test.value, ':') == 1
    ensures r.Some? ==> exists portText ::
      && test.value == r.value.0 + ":" + portText
      && ParseInt(portText) == Some(r.value.1)
  {
    if !Truthy(test) then None
    else
      var parts := Split(test.value, ':');
      if |parts| != 2 then None
      else
        assert Join(parts, ':') == parts[0] + ":" + parts[1];
        match ParseInt(parts[1])
        case None => None
        case Some(p) => Some((parts[0], p))
  }

  /** A `host:port` address with an integer port is read back as that pair. */
  lemma TestTargetOf(host: string, port: int)
    requires ':' !in host
    ensures TestTarget(Some(host + ":" + ShowInt(port))) == Some((host, port))
  {
    var d := ShowInt(port);
    ShowIntChars(port);
    ParseShowInt(port);
    SplitOnce(host, ':', d);
    assert host + ":" + d == host + [':'] + d;
  }

  /**
   Any integer literal after the one colon is a usable port, with the value
   `int()` gives it: `h:080` and `h:+80` are probed at port 80.
   */
  lemma TestTargetOfLiteral(host: string, portText: string)
    requires ':' !in host && IsIntLiteral(portText)
    ensures TestTarget(Some(host + ":" + portText)) == Some((host, ParseInt(portText).value))
  {
    assert ':' !in portText by {
      if ':' in portText {
        LetterNotInt(portText, ':');
      }
    }
    SplitOnce(host, ':', portText);
    assert host + ":" + portText == host + [':'] + portText;
  }

  /**
   The probe step of `perform_knock`: with a usable test address, the ladder;
   otherwise no attempt and `accessible` stays False. The verdict is True iff
   some rung's connect succeeded.
   */
  function ProbeLadder(res: Resolver, test: Option<string>, connects: seq<bool>): (r: ProbeRun)
    requires |connects| >= |LADDER_MS|
    ensures TestTarget(test).None? ==> r == ProbeRun([], false)
    ensures TestTarget(test).Some? ==>
      r.attempts == LadderFrom(res, TestTarget(test).value.0, TestTarget(test).value.1, connects, 0)
    ensures 1 <= |r.attempts| <= |LADDER_MS| || r.attempts == []
    ensures forall j | 0 <= j < |r.attempts| :: r.attempts[j].timeoutMs == LADDER_MS[j]
    ensures forall j | 0 <= j < |r.attempts| - 1 :: !r.attempts[j].reached
    ensures r.accessible <==> exists j | 0 <= j < |r.attempts| :: r.attempts[j].reached
    ensures r.accessible <==>
      && TestTarget(test).Some?
      && Reachable(res, TestTarget(test).value.0, TestTarget(test).value.1)
      && exists j | 0 <= j < |LADDER_MS| :: connects[j]
  {
    match TestTarget(test)
    case None => ProbeRun([], false)
    case Some((host, port)) =>
      var attempts := LadderFrom(res, host, port, connects, 0);
      ProbeRun(attempts, |attempts| > 0 && attempts[|attempts| - 1].reached)
  }

  // ---------------------------------------------------------------- perform_knock

  /** `service.get("service_name", "Unknown Service")`. */
  function NameOf(svc: Service): (n: string)
    ensures svc.name.Some? ==> n == svc.name.value
    ensures svc.name.None? ==> n == "Unknown Service"
  {
    OrElse(svc.name, "Unknown Service")
  }

  /** A knock cycle either stops at an unresolved target or knocks and probes. */
  datatype Cycle = Unresolved | Knocked(ip: string, knock: KnockRun, probe: ProbeRun)

  /**
   `perform_knock(service)`. If the target does not resolve nothing is knocked,
   nothing is probed and the status map is left as it was; otherwise the knock
   loop runs, the probe ladder follows, and only `status[name]` is written.
   */
  function PerformKnock(svc: Service, res: Resolver, transport: seq<Transport>, connects: seq<bool>, status: map<string, bool>)
    : (r: (Cycle, map<string, bool>))
    requires |transport| >= |svc.ports| && |connects| >= |LADDER_MS|
    ensures r.0.Unresolved? <==> !Truthy(Resolve(res, svc.target))
    ensures r.0.Unresolved? ==> r.1 == status
    ensures r.0.Knocked? ==>
      && r.0.ip == Resolve(res, svc.target).value
      && r.0.knock == KnockFrom(r.0.ip, ParseAll(svc.ports), DelayOf(svc), transport, 0)
      && r.0.probe == ProbeLadder(res, svc.test, connects)
    ensures r.0.Knocked? ==> NameOf(svc) in r.1 && r.1[NameOf(svc)] == r.0.probe.accessible
    ensures forall n | n != NameOf(svc) :: (n in r.1 <==> n in status) && (n in status ==> r.1[n] == status[n])
  {
    var ip := Resolve(res, svc.target);
    if !Truthy(ip) then (Unresolved, status)
    else
      var knock := KnockFrom(ip.value, ParseAll(svc.ports), DelayOf(svc), transport, 0);
      var probe := ProbeLadder(res, svc.test, connects);
      (Knocked(ip.value, knock, probe), status[NameOf(svc) := probe.accessible])
  }

  /**
   `check_service(service)`: one probe with the 2 s timeout, no knocking; the
   result, False for a missing or malformed test address, goes to `status[name]`.
   */
  function CheckService(svc: Service, res: Resolver, connectOk: bool, status: map<string, bool>)
    : (r: (Option<Attempt>, bool, map<string, bool>))
    ensures r.0.Some? <==> TestTarget(svc.test).Some?
    ensures r.0.Some? ==>
      && r.0.value.timeoutMs == CHECK_TIMEOUT_MS
      && (r.0.value.reached <==> r.1)
    ensures r.1 <==>
      && TestTarget(svc.test).Some?
      && Reachable(res, TestTarget(svc.test).value.0, TestTarget(svc.test).value.1)
      && connectOk
    ensures NameOf(svc) in r.2 && r.2[NameOf(svc)] == r.1
    ensures forall n | n != NameOf(svc) :: (n in r.2 <==> n in status) && (n in status ==> r.2[n] == status[n])
  {
    match TestTarget(svc.test)
    case None => (None, false, status[NameOf(svc) := false])
    case Some((host, port)) =>
      var probe := TestConnection(res, host, port, CHECK_TIMEOUT_MS, connectOk);
      (Some(probe), probe.reached, status[NameOf(svc) := probe.reached])
  }

  /**
   With the network giving the same answer at every rung, the knock cycle's
   ladder and the plain check reach the same verdict: the ladder's longer
   timeouts only help a port that opens while it is being probed.
   */
  lemma LadderAgreesWithCheck(svc: Service, res: Resolver, connectOk: bool, status: map<string, bool>)
    ensures ProbeLadder(res, svc.test, [connectOk, connectOk, connectOk, connectOk]).accessible
         == CheckService(svc, res, connectOk, status).1
  {
    var c := [connectOk, connectOk, connectOk, connectOk];
    if connectOk {
      assert c[0];
    }
  }

  /**
   `knock_service(name)`: the first configured service with that name is
   knocked; with none, nothing happens and the status map is unchanged.
   */
  function KnockService(services: seq<Service>, name: string, res: Resolver, transport: seq<Transport>,
                        connects: seq<bool>, status: map<string, bool>)
    : (r: (Option<Cycle>, map<string, bool>))
    requires forall s | s in services :: |transport| >= |s.ports|
    requires |connects| >= |LADDER_MS|
    ensures r.0.None? <==> Find(services, name).None?
    ensures r.0.None? ==> r.1 == status
    ensures r.0.Some? ==> (r.0.value, r.1) == PerformKnock(Find(services, name).value, res, transport, connects, status)
  {
    match Find(services, name)
    case None => (None, status)
    case Some(svc) =>
      var (cycle, status') := PerformKnock(svc, res, transport, connects, status);
      (Some(cycle), status')
  }
}
