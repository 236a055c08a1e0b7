/**
 Types shared by both platform variants: a parsed port spec, the per-knock
 transport oracle, and the event trace a knock sequence produces.
 */
module Knocks {
  import opened Optional
  import opened PyStr

  /** A knock target: the integer the port text parsed to, and the protocol. */
  datatype PortSpec = PortSpec(port: int, udp: bool)

  /** Address family of a socket. */
  datatype Family = IPv4 | IPv6

  /**
   What the operating system does with one knock's socket: the send goes out,
   the send (`sendto` / `connect_ex`) raises, or creating the socket raises.
   */
  datatype Transport = Ok | SendError | SocketError

  datatype Event =
    | Knock(at: nat, spec: PortSpec, family: Family, outcome: Transport)
    | Sleep(ms: int)

  /** The events of a knock sequence and its overall flag. */
  datatype KnockRun = KnockRun(events: seq<Event>, allSent: bool)

  /** Port numbers a socket address accepts; others raise OverflowError. */
  predicate InPortRange(port: int) {
    0 <= port <= 65535
  }

  /**
   The outcome of a knock once the socket library has seen the port: an
   out-of-range port makes the send raise even when the network would not.
   */
  function Effective(t: Transport, port: int): (o: Transport)
    ensures o == Ok <==> t == Ok && InPortRange(port)
    ensures o == SocketError <==> t == SocketError
  {
    if t == Ok && !InPortRange(port) then SendError else t
  }

  /** `int(text)` paired with a protocol; None when `int()` raises ValueError. */
  function PortOf(text: string, udp: bool): (r: Option<PortSpec>)
    ensures r.Some? <==> IsIntLiteral(text)
    ensures r.Some? ==> ParseInt(text) == Some(r.value.port) && r.value.udp == udp
  {
    match ParseInt(text)
    case None => None
    case Some(p) => Some(PortSpec(p, udp))
  }

  /** A rendered integer is read back as that port, without ':', 'u' or 't' in it. */
  lemma PortOfShowInt(n: int, udp: bool)
    ensures PortOf(ShowInt(n), udp) == Some(PortSpec(n, udp))
    ensures ':' !in ShowInt(n) && 'u' !in ShowInt(n) && 't' !in ShowInt(n)
    ensures Lower(ShowInt(n)) == ShowInt(n)
  {
    ParseShowInt(n);
    ShowIntAvoids(n, ':');
    ShowIntAvoids(n, 'u');
    ShowIntAvoids(n, 't');
    LowerShowInt(n);
  }

  /** The list positions of the knock events, in trace order. */
  function KnockPositions(events: seq<Event>): seq<nat> {
    if |events| == 0 then []
    else (if events[0].Knock? then [events[0].at] else []) + KnockPositions(events[1..])
  }

  lemma {:induction false} KnockPositionsAppend(a: seq<Event>, b: seq<Event>)
    ensures KnockPositions(a + b) == KnockPositions(a) + KnockPositions(b)
    decreases |a|
  {
    if |a| > 0 {
      assert (a + b)[1..] == a[1..] + b;
      KnockPositionsAppend(a[1..], b);
    } else {
      assert a + b == b;
    }
  }

  /**
   Every sleep in `ev` comes right after a knock at a list position before
   `last` whose socket was created, and lasts `delayMs`.
   */
  predicate SleepsFollowKnocks(ev: seq<Event>, last: int, delayMs: int) {
    forall e | 0 <= e < |ev| && ev[e].Sleep? ::
      && 0 < e
      && ev[e - 1].Knock?
      && ev[e - 1].at < last
      && ev[e - 1].outcome != SocketError
      && ev[e] == Sleep(delayMs)
  }

  /**
   Every knock in `ev` at a list position before `last` whose socket was
   created is followed at once by a sleep of `delayMs`.
   */
  predicate KnocksFollowedBySleep(ev: seq<Event>, last: int, delayMs: int) {
    forall e | 0 <= e < |ev| && ev[e].Knock? ::
      ev[e].at < last && ev[e].outcome != SocketError ==> e + 1 < |ev| && ev[e + 1] == Sleep(delayMs)
  }

  /** A trace without any sleep. */
  predicate KnocksOnly(ev: seq<Event>) {
    forall e | 0 <= e < |ev| :: ev[e].Knock?
  }

  /**
   The events of one list position: its knock, then the sleep if `slept`.
   The three trace shapes above survive putting them in front of a later run.
   */
  function StepEvents(k: Event, slept: bool, delayMs: int): seq<Event> {
    if slept then [k, Sleep(delayMs)] else [k]
  }

  lemma StepEventsPositions(k: Event, slept: bool, delayMs: int)
    requires k.Knock?
    ensures KnockPositions(StepEvents(k, slept, delayMs)) == [k.at]
  {
    if slept {
      var s := [k, Sleep(delayMs)];
      assert s[1..] == [Sleep(delayMs)];
      assert KnockPositions([Sleep(delayMs)]) == [] by { assert [Sleep(delayMs)][1..] == []; }
      assert KnockPositions(s) == [k.at] + KnockPositions(s[1..]);
    } else {
      assert [k][1..] == [];
    }
  }

  lemma SleepsFollowKnocksPrepend(k: Event, slept: bool, rest: seq<Event>, last: int, delayMs: int)
    requires k.Knock? && SleepsFollowKnocks(rest, last, delayMs)
    requires slept ==> k.at < last && k.outcome != SocketError
    ensures SleepsFollowKnocks(StepEvents(k, slept, delayMs) + rest, last, delayMs)
  {
    var pre := StepEvents(k, slept, delayMs);
    var ev := pre + rest;
    assert forall e | |pre| <= e < |ev| :: ev[e] == rest[e - |pre|];
  }

  lemma KnocksFollowedBySleepPrepend(k: Event, slept: bool, rest: seq<Event>, last: int, delayMs: int)
    requires k.Knock? && KnocksFollowedBySleep(rest, last, delayMs)
    requires !slept ==> !(k.at < last && k.outcome != SocketError)
    ensures KnocksFollowedBySleep(StepEvents(k, slept, delayMs) + rest, last, delayMs)
  {
    var pre := StepEvents(k, slept, delayMs);
    var ev := pre + rest;
    assert forall e | |pre| <= e < |ev| :: ev[e] == rest[e - |pre|];
  }

  lemma KnocksOnlyPrepend(k: Event, rest: seq<Event>, delayMs: int)
    requires k.Knock? && KnocksOnly(rest)
    ensures KnocksOnly(StepEvents(k, false, delayMs) + rest)
  {
    var ev := [k] + rest;
    assert forall e | 1 <= e < |ev| :: ev[e] == rest[e - 1];
  }

  /** One flag per list position: did the entry parse? */
  function Flags(parsed: seq<Option<PortSpec>>): (flags: seq<bool>)
    ensures |flags| == |parsed|
    ensures forall j | 0 <= j < |parsed| :: flags[j] == parsed[j].Some?
  {
    seq(|parsed|, j requires 0 <= j < |parsed| => parsed[j].Some?)
  }

  /** The positions `j >= i` whose flag is set, ascending. */
  function Positions(flags: seq<bool>, i: nat): (r: seq<nat>)
    ensures forall k | 0 <= k < |r| :: i <= r[k] < |flags| && flags[r[k]]
    decreases |flags| - i
  {
    if i >= |flags| then []
    else (if flags[i] then [i] else []) + Positions(flags, i + 1)
  }

  /** Each element is smaller than every later one. */
  predicate StrictlyAscending(s: seq<nat>) {
    forall k, l | 0 <= k < l < |s| :: s[k] < s[l]
  }

  /** The listed positions are strictly ascending, so none is listed twice. */
  lemma {:induction false} PositionsAscending(flags: seq<bool>, i: nat)
    ensures StrictlyAscending(Positions(flags, i))
    decreases |flags| - i
  {
    if i < |flags| {
      PositionsAscending(flags, i + 1);
      PositionsStep(flags, i);
      if flags[i] {
        AscendingCons(i, Positions(flags, i + 1));
      }
    }
  }

  lemma AscendingCons(x: nat, s: seq<nat>)
    requires StrictlyAscending(s) && forall k | 0 <= k < |s| :: x < s[k]
    ensures StrictlyAscending([x] + s)
  {
    var r := [x] + s;
    forall k, l | 0 <= k < l < |r|
      ensures r[k] < r[l]
    {
      assert r[l] == s[l - 1];
      if k > 0 {
        assert r[k] == s[k - 1];
      }
    }
  }

  /** Every flagged position from `i` on is listed. */
  lemma {:induction false} PositionsComplete(flags: seq<bool>, i: nat)
    ensures forall j | i <= j < |flags| && flags[j] :: j in Positions(flags, i)
    decreases |flags| - i
  {
    if i < |flags| {
      PositionsComplete(flags, i + 1);
      PositionsStep(flags, i);
    }
  }

  lemma PositionsStep(flags: seq<bool>, i: nat)
    requires i < |flags|
    ensures flags[i] ==> Positions(flags, i) == [i] + Positions(flags, i + 1)
    ensures !flags[i] ==> Positions(flags, i) == Positions(flags, i + 1)
  {
  }

  /** A knock at `x` in front of a run whose positions are a prefix of `later`. */
  lemma KnockPrefixCons(pre: seq<Event>, rest: seq<Event>, x: nat, later: seq<nat>)
    requires KnockPositions(pre) == [x] && KnockPositions(rest) <= later
    ensures KnockPositions(pre + rest) <= [x] + later
  {
    KnockPositionsAppend(pre, rest);
    var a := KnockPositions(rest);
    assert ([x] + later)[..|a| + 1] == [x] + later[..|a|];
  }
}
