/**
 The macOS variant (main.py): the parser and knock loop of
 `perform_port_knock`, `test_connection`, `check_service`, the icon update of
 `check_service_after_knock` and the lookup in `on_service_click`.
 */
module MacKnocker {
  import opened Optional
  import opened PyStr
  import opened Config
  import opened Knocks

  // ---------------------------------------------------------------- getaddrinfo

  /** The first `getaddrinfo` record: its family and address. */
  datatype Addr = Addr(family: Family, ip: string)

  /** `getaddrinfo(host)[0]`; None stands for a raised error or an empty list. */
  datatype Dns = Dns(lookup: string -> Option<Addr>)

  /** An absent host makes `getaddrinfo(host=None, port=None)` raise. */
  function GetAddrInfo(dns: Dns, host: Option<string>): (r: Option<Addr>)
    ensures host.None? ==> r.None?
    ensures host.Some? ==> r == dns.lookup(host.value)
  {
    match host
    case None => None
    case Some(h) => dns.lookup(h)
  }

  // ---------------------------------------------------------------- port-spec parser

  /**
   The parser of `perform_port_knock`. With a ':' the text before the first
   ':' is the port, and the second field, lower-cased, picks UDP for "udp",
   TCP for "tcp" and `defaultUdp` for anything else. Without one, "tcp" is
   looked for before "udp" in the lower-cased spec and every occurrence is
   deleted; a bare number takes `defaultUdp`.
   */
  function ParseSpec(spec: string, defaultUdp: bool): (r: Option<PortSpec>)
    ensures r.Some? && ':' !in spec ==>
      (r.value.udp <==> !Occurs("tcp", Lower(spec)) && (Occurs("udp", Lower(spec)) || defaultUdp))
  {
    if ':' in spec then
      CountAbsent(spec, ':');
      var parts := Split(spec, ':');
      var protocol := Lower(parts[1]);
      PortOf(parts[0], if protocol == "udp" then true else if protocol == "tcp" then false else defaultUdp)
    else if Occurs("tcp", Lower(spec)) then
      PortOf(Remove(Lower(spec), "tcp"), false)
    else if Occurs("udp", Lower(spec)) then
      PortOf(Remove(Lower(spec), "udp"), true)
    else
      PortOf(spec, defaultUdp)
  }

  /**
   A spec `head:proto[:...]`: the port is `int(head)`; "udp" and "tcp" (in any
   case) choose the protocol and any other second field keeps the default.
   */
  lemma ParseColonForm(head: string, proto: string, tail: string, defaultUdp: bool)
    requires ':' !in head && ':' !in proto
    requires tail == [] || tail[0] == ':'
    ensures ParseSpec(head + ":" + proto + tail, defaultUdp)
         == PortOf(head, if Lower(proto) == "udp" then true else if Lower(proto) == "tcp" then false else defaultUdp)
  {
    SplitFields(head, ':', proto, tail);
    assert ':' in head + ":" + proto + tail;
  }

  /** Without ':', a spec holding "tcp" in any case takes the TCP branch. */
  lemma ParseTcpBranch(spec: string, defaultUdp: bool)
    requires ':' !in spec && Occurs("tcp", Lower(spec))
    ensures ParseSpec(spec, defaultUdp) == PortOf(Remove(Lower(spec), "tcp"), false)
  {
  }

  /** Without ':' or "tcp", a spec holding "udp" in any case takes the UDP branch. */
  lemma ParseUdpBranch(spec: string, defaultUdp: bool)
    requires ':' !in spec && !Occurs("tcp", Lower(spec)) && Occurs("udp", Lower(spec))
    ensures ParseSpec(spec, defaultUdp) == PortOf(Remove(Lower(spec), "udp"), true)
  {
  }

  /** A spec with neither ':' nor a protocol name takes the caller's default. */
  lemma ParseBareBranch(spec: string, defaultUdp: bool)
    requires ':' !in spec && !Occurs("tcp", Lower(spec)) && !Occurs("udp", Lower(spec))
    ensures ParseSpec(spec, defaultUdp) == PortOf(spec, defaultUdp)
  {
  }

  /** `N:udp`, `Nudp` and `NUDP` all knock N over UDP, whatever the default. */
  lemma ParseUdpForms(n: int, suffix: string, defaultUdp: bool)
    requires Lower(suffix) == "udp"
    ensures ParseSpec(ShowInt(n) + ":" + suffix, defaultUdp) == Some(PortSpec(n, true))
    ensures ParseSpec(ShowInt(n) + suffix, defaultUdp) == Some(PortSpec(n, true))
  {
    PortOfShowInt(n, true);
    ParseColonForm(ShowInt(n), suffix, [], defaultUdp);
    AppendEmpty(ShowInt(n) + ":" + suffix);
    ParseUdpSuffix(n, suffix, defaultUdp);
  }

  lemma ParseUdpSuffix(n: int, suffix: string, defaultUdp: bool)
    requires Lower(suffix) == "udp"
    ensures ParseSpec(ShowInt(n) + suffix, defaultUdp) == Some(PortSpec(n, true))
  {
    var d := ShowInt(n);
    PortOfShowInt(n, true);
    var s := d + suffix;
    assert ':' !in s by { assert ':' !in suffix by { assert |suffix| == 3; } }
    LowerAppend(d, suffix);
    assert Lower(s) == d + "udp";
    NotOccursWithoutHead("tcp", d + "udp");
    OccursSuffix(d, "udp");
    ParseUdpBranch(s, defaultUdp);
    RemoveSuffix(d, "udp");
  }

  /** `N:tcp` and `Ntcp` knock N over TCP, whatever the default. */
  lemma ParseTcpForms(n: int, suffix: string, defaultUdp: bool)
    requires Lower(suffix) == "tcp"
    ensures ParseSpec(ShowInt(n) + ":" + suffix, defaultUdp) == Some(PortSpec(n, false))
    ensures ParseSpec(ShowInt(n) + suffix, defaultUdp) == Some(PortSpec(n, false))
  {
    PortOfShowInt(n, false);
    ParseColonForm(ShowInt(n), suffix, [], defaultUdp);
    assert Lower(suffix)[0] == 't';
    AppendEmpty(ShowInt(n) + ":" + suffix);
    ParseTcpSuffix(n, suffix, defaultUdp);
  }

  lemma ParseTcpSuffix(n: int, suffix: string, defaultUdp: bool)
    requires Lower(suffix) == "tcp"
    ensures ParseSpec(ShowInt(n) + suffix, defaultUdp) == Some(PortSpec(n, false))
  {
    var d := ShowInt(n);
    PortOfShowInt(n, false);
    var s := d + suffix;
    assert ':' !in s by { assert ':' !in suffix by { assert |suffix| == 3; } }
    LowerAppend(d, suffix);
    assert Lower(s) == d + "tcp";
    OccursSuffix(d, "tcp");
    ParseTcpBranch(s, defaultUdp);
    RemoveSuffix(d, "tcp");
  }

  /** A bare `N` and an unknown protocol `N:x` both take the caller's default. */
  lemma ParseDefaultForms(n: int, proto: string, defaultUdp: bool)
    requires ':' !in proto && Lower(proto) != "udp" && Lower(proto) != "tcp"
    ensures ParseSpec(ShowInt(n), defaultUdp) == Some(PortSpec(n, defaultUdp))
    ensures ParseSpec(ShowInt(n) + ":" + proto, defaultUdp) == Some(PortSpec(n, defaultUdp))
  {
    var d := ShowInt(n);
    PortOfShowInt(n, defaultUdp);
    NotOccursWithoutHead("udp", d);
    NotOccursWithoutHead("tcp", d);
    ParseBareBranch(d, defaultUdp);
    ParseColonForm(d, proto, [], defaultUdp);
    AppendEmpty(d + ":" + proto);
  }

  /** The parser applied to every entry, with the caller's default protocol. */
  function ParseAll(specs: seq<string>, defaultUdp: bool): (parsed: seq<Option<PortSpec>>)
    ensures |parsed| == |specs|
    ensures forall j | 0 <= j < |specs| :: parsed[j] == ParseSpec(specs[j], defaultUdp)
  {
    seq(|specs|, j requires 0 <= j < |specs| => ParseSpec(specs[j], defaultUdp))
  }

  // ---------------------------------------------------------------- knock loop

  /**
   The knock loop of `perform_port_knock` from position `i` on. An unparsable
   entry is skipped with no sleep. A socket that cannot be created raises out
   of the loop: the call returns False and nothing after it happens. A failed
   send is caught and the loop goes on. The sleep follows only when the delay
   is positive and the position is not the last.
   */
  function KnockFrom(addr: Addr, parsed: seq<Option<PortSpec>>, delayMs: int, transport: seq<Transport>, i: nat): (r: KnockRun)
    requires |transport| >= |parsed| && i <= |parsed|
    ensures forall e | 0 <= e < |r.events| && r.events[e].Knock? ::
      && i <= r.events[e].at < |parsed|
      && parsed[r.events[e].at] == Some(r.events[e].spec)
      && r.events[e].outcome == Effective(transport[r.events[e].at], r.events[e].spec.port)
      && r.events[e].family == addr.family
    decreases |parsed| - i
  {
    if i == |parsed| then KnockRun([], true)
    else
      var rest := KnockFrom(addr, parsed, delayMs, transport, i + 1);
      match parsed[i]
      case None => rest
      case Some(ps) =>
        var k := Knock(i, ps, addr.family, Effective(transport[i], ps.port));
        if transport[i] == SocketError then
          KnockRun([k], false)
        else if delayMs > 0 && i < |parsed| - 1 then
          KnockRun([k, Sleep(delayMs)] + rest.events, rest.allSent)
        else
          KnockRun([k] + rest.events, rest.allSent)
  }

  /**
   The run from one list position in terms of the run from the next: nothing
   for an unparsed entry, the knock alone when its socket cannot be created,
   otherwise the knock, the sleep when one is due, and the later positions.
   */
  lemma KnockStep(addr: Addr, parsed: seq<Option<PortSpec>>, delayMs: int, transport: seq<Transport>, i: nat)
    requires |transport| >= |parsed| && i < |parsed|
    ensures var r := KnockFrom(addr, parsed, delayMs, transport, i);
      var rest := KnockFrom(addr, parsed, delayMs, transport, i + 1);
      && (parsed[i].None? ==> r == rest)
      && (parsed[i].Some? ==>
            var k := Knock(i, parsed[i].value, addr.family, Effective(transport[i], parsed[i].value.port));
            && (transport[i] == SocketError ==> r == KnockRun([k], false))
            && (transport[i] != SocketError ==>
                  r == KnockRun(StepEvents(k, delayMs > 0 && i < |parsed| - 1, delayMs) + rest.events, rest.allSent)))
  {
  }

  /**
   The knocks come at the parsed positions in list order, stopping early only
   when a socket cannot be created: a prefix of the parsed positions.
   */
  lemma {:induction false} KnockedPrefix(addr: Addr, parsed: seq<Option<PortSpec>>, delayMs: int, transport: seq<Transport>, i: nat)
    requires |transport| >= |parsed| && i <= |parsed|
    ensures KnockPositions(KnockFrom(addr, parsed, delayMs, transport, i).events) <= Positions(Flags(parsed), i)
    decreases |parsed| - i
  {
    if i < |parsed| {
      KnockedPrefix(addr, parsed, delayMs, transport, i + 1);
      KnockStep(addr, parsed, delayMs, transport, i);
      PositionsStep(Flags(parsed), i);
      if parsed[i].Some? {
        var k := Knock(i, parsed[i].value, addr.family, Effective(transport[i], parsed[i].value.port));
        var slept := transport[i] != SocketError && delayMs > 0 && i < |parsed| - 1;
        var tail := if transport[i] == SocketError then [] else KnockFrom(addr, parsed, delayMs, transport, i + 1).events;
        assert KnockFrom(addr, parsed, delayMs, transport, i).events == StepEvents(k, slept, delayMs) + tail;
        StepEventsPositions(k, slept, delayMs);
        KnockPrefixCons(StepEvents(k, slept, delayMs), tail, i, Positions(Flags(parsed), i + 1));
      }
    }
  }

  /** When the call succeeds, every parsed entry was knocked, in list order. */
  lemma {:induction false} KnockedAllWhenSent(addr: Addr, parsed: seq<Option<PortSpec>>, delayMs: int, transport: seq<Transport>, i: nat)
    requires |transport| >= |parsed| && i <= |parsed|
    ensures var r := KnockFrom(addr, parsed, delayMs, transport, i);
      r.allSent ==> KnockPositions(r.events) == Positions(Flags(parsed), i)
    decreases |parsed| - i
  {
    if i < |parsed| {
      KnockedAllWhenSent(addr, parsed, delayMs, transport, i + 1);
      KnockStep(addr, parsed, delayMs, transport, i);
      PositionsStep(Flags(parsed), i);
      if parsed[i].Some? && transport[i] != SocketError {
        var k := Knock(i, parsed[i].value, addr.family, Effective(transport[i], parsed[i].value.port));
        var slept := delayMs > 0 && i < |parsed| - 1;
        StepEventsPositions(k, slept, delayMs);
        KnockPositionsAppend(StepEvents(k, slept, delayMs), KnockFrom(addr, parsed, delayMs, transport, i + 1).events);
      }
    }
  }

  /** The call returns True iff no parsed entry failed to create its socket. */
  lemma {:induction false} KnockAllSent(addr: Addr, parsed: seq<Option<PortSpec>>, delayMs: int, transport: seq<Transport>, i: nat)
    requires |transport| >= |parsed| && i <= |parsed|
    ensures KnockFrom(addr, parsed, delayMs, transport, i).allSent <==>
      forall j | i <= j < |parsed| && parsed[j].Some? :: transport[j] != SocketError
    decreases |parsed| - i
  {
    if i < |parsed| {
      KnockAllSent(addr, parsed, delayMs, transport, i + 1);
      KnockStep(addr, parsed, delayMs, transport, i);
    }
  }

  /** A socket that cannot be created ends the sequence: its knock is the last event. */
  lemma {:induction false} SocketErrorIsLast(addr: Addr, parsed: seq<Option<PortSpec>>, delayMs: int, transport: seq<Transport>, i: nat)
    requires |transport| >= |parsed| && i <= |parsed|
    ensures var ev := KnockFrom(addr, parsed, delayMs, transport, i).events;
      forall e | 0 <= e < |ev| && ev[e].Knock? && ev[e].outcome == SocketError :: e == |ev| - 1
    decreases |parsed| - i
  {
    if i < |parsed| {
      SocketErrorIsLast(addr, parsed, delayMs, transport, i + 1);
      KnockStep(addr, parsed, delayMs, transport, i);
      var ev := KnockFrom(addr, parsed, delayMs, transport, i).events;
      var rest := KnockFrom(addr, parsed, delayMs, transport, i + 1).events;
      if parsed[i].Some? && transport[i] != SocketError {
        var k := Knock(i, parsed[i].value, addr.family, Effective(transport[i], parsed[i].value.port));
        var pre := StepEvents(k, delayMs > 0 && i < |parsed| - 1, delayMs);
        assert ev == pre + rest;
        forall e | 0 <= e < |ev| && ev[e].Knock? && ev[e].outcome == SocketError
          ensures e == |ev| - 1
        {
          if e >= |pre| {
            assert ev[e] == rest[e - |pre|];
          }
        }
      }
    }
  }

  /** A False result always comes from a knock whose socket could not be created, the last event. */
  lemma {:induction false} FailureEndsWithSocketError(addr: Addr, parsed: seq<Option<PortSpec>>, delayMs: int, transport: seq<Transport>, i: nat)
    requires |transport| >= |parsed| && i <= |parsed|
    ensures var r := KnockFrom(addr, parsed, delayMs, transport, i);
      !r.allSent ==>
        |r.events| > 0 && r.events[|r.events| - 1].Knock? && r.events[|r.events| - 1].outcome == SocketError
    decreases |parsed| - i
  {
    if i < |parsed| {
      FailureEndsWithSocketError(addr, parsed, delayMs, transport, i + 1);
      KnockStep(addr, parsed, delayMs, transport, i);
      var r := KnockFrom(addr, parsed, delayMs, transport, i);
      var rest := KnockFrom(addr, parsed, delayMs, transport, i + 1);
      if parsed[i].Some? && transport[i] != SocketError && !r.allSent {
        var k := Knock(i, parsed[i].value, addr.family, Effective(transport[i], parsed[i].value.port));
        var pre := StepEvents(k, delayMs > 0 && i < |parsed| - 1, delayMs);
        assert r.events == pre + rest.events;
        assert r.events[|r.events| - 1] == rest.events[|rest.events| - 1];
      }
    }
  }

  /**
   Every sleep sits right after a knock that was not at the last list position
   and whose socket was created, and lasts the delay.
   */
  lemma {:induction false} SleepFollowsKnock(addr: Addr, parsed: seq<Option<PortSpec>>, delayMs: int, transport: seq<Transport>, i: nat)
    requires |transport| >= |parsed| && i <= |parsed|
    ensures SleepsFollowKnocks(KnockFrom(addr, parsed, delayMs, transport, i).events, |parsed| - 1, delayMs)
    decreases |parsed| - i
  {
    if i < |parsed| {
      SleepFollowsKnock(addr, parsed, delayMs, transport, i + 1);
      KnockStep(addr, parsed, delayMs, transport, i);
      if parsed[i].Some? {
        var k := Knock(i, parsed[i].value, addr.family, Effective(transport[i], parsed[i].value.port));
        var rest := if transport[i] == SocketError then [] else KnockFrom(addr, parsed, delayMs, transport, i + 1).events;
        var slept := transport[i] != SocketError && delayMs > 0 && i < |parsed| - 1;
        assert KnockFrom(addr, parsed, delayMs, transport, i).events == StepEvents(k, slept, delayMs) + rest;
        SleepsFollowKnocksPrepend(k, slept, rest, |parsed| - 1, delayMs);
      }
    }
  }

  /** A delay that is not positive leaves no sleep at all: only knocks. */
  lemma {:induction false} NoSleepWithoutDelay(addr: Addr, parsed: seq<Option<PortSpec>>, delayMs: int, transport: seq<Transport>, i: nat)
    requires |transport| >= |parsed| && i <= |parsed|
    ensures delayMs <= 0 ==> KnocksOnly(KnockFrom(addr, parsed, delayMs, transport, i).events)
    decreases |parsed| - i
  {
    if i < |parsed| && delayMs <= 0 {
      NoSleepWithoutDelay(addr, parsed, delayMs, transport, i + 1);
      KnockStep(addr, parsed, delayMs, transport, i);
      if parsed[i].Some? && transport[i] != SocketError {
        var k := Knock(i, parsed[i].value, addr.family, Effective(transport[i], parsed[i].value.port));
        KnocksOnlyPrepend(k, KnockFrom(addr, parsed, delayMs, transport, i + 1).events, delayMs);
      }
    }
  }

  /**
   With a positive delay, a knock that is not at the last list position and
   whose socket was created is followed at once by the sleep.
   */
  lemma {:induction false} KnockThenSleep(addr: Addr, parsed: seq<Option<PortSpec>>, delayMs: int, transport: seq<Transport>, i: nat)
    requires |transport| >= |parsed| && i <= |parsed|
    ensures delayMs > 0 ==> KnocksFollowedBySleep(KnockFrom(addr, parsed, delayMs, transport, i).events, |parsed| - 1, delayMs)
    decreases |parsed| - i
  {
    if i < |parsed| {
      KnockThenSleep(addr, parsed, delayMs, transport, i + 1);
      KnockStep(addr, parsed, delayMs, transport, i);
      if parsed[i].Some? && delayMs > 0 {
        var k := Knock(i, parsed[i].value, addr.family, Effective(transport[i], parsed[i].value.port));
        var rest := if transport[i] == SocketError then [] else KnockFrom(addr, parsed, delayMs, transport, i + 1).events;
        var slept := transport[i] != SocketError && i < |parsed| - 1;
        assert KnockFrom(addr, parsed, delayMs, transport, i).events == StepEvents(k, slept, delayMs) + rest;
        KnocksFollowedBySleepPrepend(k, slept, rest, |parsed| - 1, delayMs);
      }
    }
  }

  // ---------------------------------------------------------------- perform_port_knock

  /**
   `perform_port_knock(host, ports, delay, default_udp)`: when `getaddrinfo`
   fails nothing is knocked and the call returns False; otherwise the loop runs
   over the parsed entries with the first address's family.
   */
  function PerformPortKnock(host: Option<string>, specs: seq<string>, delayMs: int, defaultUdp: bool,
                            dns: Dns, transport: seq<Transport>): (r: KnockRun)
    requires |transport| >= |specs|
    ensures GetAddrInfo(dns, host).None? ==> r == KnockRun([], false)
    ensures GetAddrInfo(dns, host).Some? ==>
      r == KnockFrom(GetAddrInfo(dns, host).value, ParseAll(specs, defaultUdp), delayMs, transport, 0)
    ensures r.allSent <==>
      && GetAddrInfo(dns, host).Some?
      && forall j | 0 <= j < |specs| && ParseSpec(specs[j], defaultUdp).Some? :: transport[j] != SocketError
  {
    match GetAddrInfo(dns, host)
    case None => KnockRun([], false)
    case Some(addr) =>
      var parsed := ParseAll(specs, defaultUdp);
      KnockAllSent(addr, parsed, delayMs, transport, 0);
      KnockFrom(addr, parsed, delayMs, transport, 0)
  }

  // ---------------------------------------------------------------- test_connection

  /** The connect timeouts of the two probes, in milliseconds. */
  const CHECK_TIMEOUT_MS: nat := 500
  const AFTER_KNOCK_TIMEOUT_MS: nat := 2000

  /** A probe made: the two halves of the test address and the timeout. */
  datatype Probe = Probe(host: string, port: string, timeoutMs: nat)

  /**
   `test_connection(hostname, port, timeout)`; `connectOk` is the network's
   answer. A failed lookup, a port text that is not an integer and a port out
   of range all raise inside its `try` and give False.
   */
  function TestConnection(dns: Dns, probe: Probe, connectOk: bool): (ok: bool)
    ensures ok <==>
      && dns.lookup(probe.host).Some?
      && ParseInt(probe.port).Some?
      && InPortRange(ParseInt(probe.port).value)
      && connectOk
  {
    match dns.lookup(probe.host)
    case None => false
    case Some(_) =>
      match ParseInt(probe.port)
      case None => false
      case Some(p) => InPortRange(p) && connectOk
  }

  /** The probe for a test address that splits on ':' into exactly two parts. */
  function ProbeOf(test: Option<string>, timeoutMs: nat): (r: Option<Probe>)
    ensures r.Some? <==> Truthy(test) && Count(test.value, ':') == 1
    ensures r.Some? ==> test.value == r.value.host + ":" + r.value.port && r.value.timeoutMs == timeoutMs
  {
    if !Truthy(test) then None
    else
      var parts := Split(test.value, ':');
      if |parts| != 2 then None
      else
        assert Join(parts, ':') == parts[0] + ":" + parts[1];
        Some(Probe(parts[0], parts[1], timeoutMs))
  }

  // ---------------------------------------------------------------- menu icons

  /** The icon of a service's menu item; `Plain` is the item as first created. */
  datatype Icon = Plain | Loading | Connected | Error | Closed

  /** The menu items after a check, and the probe it made, if any. */
  datatype Checked = Checked(items: map<string, Icon>, probe: Option<Probe>)

  /**
   `check_service(service, from_check_connections)`. Nothing happens without a
   test address or a menu item for the name, or when the address is not two
   parts; otherwise one 0.5 s probe sets the item to Connected on success and
   to Closed (from "Check Connections") or Error on failure.
   */
  function CheckService(svc: Service, fromCheckConnections: bool, items: map<string, Icon>, dns: Dns, connectOk: bool)
    : (r: Checked)
    ensures r.probe.None? ==> r.items == items
    ensures r.probe.Some? <==>
      && Truthy(svc.test) && svc.name.Some? && svc.name.value in items
      && Count(svc.test.value, ':') == 1
    ensures r.probe.Some? ==>
      && r.probe == ProbeOf(svc.test, CHECK_TIMEOUT_MS)
      && r.items.Keys == items.Keys
      && (r.items[svc.name.value] == Connected <==> TestConnection(dns, r.probe.value, connectOk))
      && (r.items[svc.name.value] == Closed <==> !TestConnection(dns, r.probe.value, connectOk) && fromCheckConnections)
      && (r.items[svc.name.value] == Error <==> !TestConnection(dns, r.probe.value, connectOk) && !fromCheckConnections)
      && forall n | n in items && n != svc.name.value :: r.items[n] == items[n]
  {
    if !Truthy(svc.test) || svc.name.None? || svc.name.value !in items then Checked(items, None)
    else
      match ProbeOf(svc.test, CHECK_TIMEOUT_MS)
      case None => Checked(items, None)
      case Some(probe) =>
        var icon :=
          if TestConnection(dns, probe, connectOk) then Connected
          else if fromCheckConnections then Closed
          else Error;
        Checked(items[svc.name.value := icon], Some(probe))
  }

  /** The icon after a knock, and the probe made, if any. */
  datatype AfterKnock = AfterKnock(icon: Icon, probe: Option<Probe>)

  /**
   The icon step of `check_service_after_knock`: a failed knock gives Error
   without probing; a missing test address or one that is not two parts leaves
   the icon as it was; otherwise one 2 s probe picks Connected or Error.
   */
  function IconAfterKnock(svc: Service, icon: Icon, knockOk: bool, dns: Dns, connectOk: bool): (r: AfterKnock)
    ensures !knockOk ==> r == AfterKnock(Error, None)
    ensures knockOk && ProbeOf(svc.test, AFTER_KNOCK_TIMEOUT_MS).None? ==> r == AfterKnock(icon, None)
    ensures r.probe.Some? <==> knockOk && ProbeOf(svc.test, AFTER_KNOCK_TIMEOUT_MS).Some?
    ensures r.probe.Some? ==>
      && knockOk
      && r.probe == ProbeOf(svc.test, AFTER_KNOCK_TIMEOUT_MS)
      && (r.icon == Connected <==> TestConnection(dns, r.probe.value, connectOk))
      && (r.icon == Error <==> !TestConnection(dns, r.probe.value, connectOk))
  {
    if !knockOk then AfterKnock(Error, None)
    else
      match ProbeOf(svc.test, AFTER_KNOCK_TIMEOUT_MS)
      case None => AfterKnock(icon, None)
      case Some(probe) =>
        AfterKnock(if TestConnection(dns, probe, connectOk) then Connected else Error, Some(probe))
  }

  /** What a click on a service's menu item leads to. */
  datatype Click = NotFound | Clicked(knock: KnockRun, after: AfterKnock)

  /**
   `on_service_click` followed by `check_service_after_knock`: the first service
   with the clicked title is knocked over TCP by default, the icon having been
   set to Loading, then probed. An unknown title does nothing.
   */
  function OnServiceClick(services: seq<Service>, title: string, dns: Dns, transport: seq<Transport>, connectOk: bool)
    : (r: Click)
    requires forall s | s in services :: |transport| >= |s.ports|
    ensures r.NotFound? <==> Find(services, title).None?
    ensures r.Clicked? ==>
      var svc := Find(services, title).value;
      && r.knock == PerformPortKnock(svc.target, svc.ports, DelayOf(svc), false, dns, transport)
      && r.after == IconAfterKnock(svc, Loading, r.knock.allSent, dns, connectOk)
  {
    match Find(services, title)
    case None => NotFound
    case Some(svc) =>
      var knock := PerformPortKnock(svc.target, svc.ports, DelayOf(svc), false, dns, transport);
      Clicked(knock, IconAfterKnock(svc, Loading, knock.allSent, dns, connectOk))
  }

  /**
   The final icon of a click: Error when the target does not resolve or a
   socket cannot be created; Loading (as set at the click) when the test address
   is missing or not two parts; otherwise Connected iff the 2 s probe succeeds.
   */
  lemma ClickIcon(services: seq<Service>, title: string, dns: Dns, transport: seq<Transport>, connectOk: bool)
    requires forall s | s in services :: |transport| >= |s.ports|
    requires Find(services, title).Some?
    ensures var svc := Find(services, title).value;
      var r := OnServiceClick(services, title, dns, transport, connectOk);
      var knocked := GetAddrInfo(dns, svc.target).Some? &&
        forall j | 0 <= j < |svc.ports| && ParseSpec(svc.ports[j], false).Some? :: transport[j] != SocketError;
      var probe := ProbeOf(svc.test, AFTER_KNOCK_TIMEOUT_MS);
      && r.Clicked?
      && (r.after.icon == Loading <==> knocked && probe.None?)
      && (r.after.icon == Connected <==> knocked && probe.Some? && TestConnection(dns, probe.value, connectOk))
      && (r.after.icon == Error <==>
            !knocked || (probe.Some? && !TestConnection(dns, probe.value, connectOk)))
  {
  }
}
