# KnockThatDoor — a Dafny model of the port-knocking core

KnockThatDoor is a tray utility. It sends "knocks" (a TCP connect attempt or
an empty UDP datagram) to a host's ports in a configured order. It then probes
a test `host:port` to see whether the firewall has opened. The repository
holds two variants that differ in small details: a Windows one
(`win64/main.py`) and a macOS one (`main.py`). This project models the
decision logic of both, each as written, with DNS, sockets and the network
replaced by oracles.

- `optional.dfy` (`Optional`): `Option`, standing for Python's `None` or a value.
- `pystr.dfy` (`PyStr`): the Python string built-ins the parsers rely on.
  These are `lower()`, `in`, `split(':')`, `replace(t, "")` and `int()`.
- `knocks.dfy` (`Knocks`): the shared trace vocabulary. A `Knock` event carries
  the list position, the parsed port spec, the address family and the oracle's
  `Transport` answer (`Ok | SendError | SocketError`). A `Sleep` event carries
  the delay in milliseconds.
- `config.dfy` (`Config`): service records and the first-match lookup by name.
- `win_knock.dfy` (`WinKnocker`): `resolve_address`, the parser and knock loop
  of `perform_knock`, its probe ladder and status-map write, `test_connection`,
  `check_service` and `knock_service`.
- `mac_knock.dfy` (`MacKnocker`): `perform_port_knock` with its parser,
  `test_connection`, `check_service`, the icon update of
  `check_service_after_knock` and `on_service_click`.
- `parsers.dfy` (`ParserAgreement`): the two parsers compared.
- `supervisor.dfy` (`Supervisor`): `run_app_with_restart`.

Oracles and parameters:
- the Windows name service: `Resolver`, which holds the two `inet_pton`
  literal checks and `gethostbyname`;
- the macOS name service: `Dns`, which is `getaddrinfo(...)[0]`;
- one `Transport` answer per list position for the knock sockets;
- one boolean per probe for the probe connects;
- one `Run` per launch for the supervised app.

Times are integer milliseconds; the supervisor's waits are whole seconds.

The model follows the code in these details:
- ports are unbounded integers, not 16-bit values;
- a malformed entry or a failed socket creation suppresses that entry's sleep,
  so the delay is not always slept `count - 1` times;
- on macOS a socket-creation failure aborts the whole sequence;
- the Windows status map holds booleans. An unresolved target leaves it
  untouched; it does not record a failure;
- macOS probes once (0.5 s for a check, 2 s after a knock), with no ladder;
- the two variants keep their different protocol defaults.

## Model

| member | source | states |
|---|---|---|
| PyStr.Split | win64/main.py:687 | `split(':')` yields one more part than there are colons. No part contains a colon, joining the parts with ':' restores the text, and the first part is the text before the first colon |
| PyStr.SplitFields | win64/main.py:686-689 | `head:field[:...]` splits with `head` first and `field` second |
| PyStr.ParseInt | win64/main.py:703-707 | the model's `int()` succeeds exactly on the grammar "optional sign, then one or more ASCII digits" |
| PyStr.ParseShowInt | win64/main.py:704 | `int(str(n)) == n` for every integer, negatives included |
| PyStr.Digits | main.py:426 | a digit run has a value exactly when it is non-empty and all ASCII digits |
| PyStr.DigitsLeadingZero | win64/main.py:704 | a leading zero does not change the value: `int("080") == int("80")` |
| PyStr.ParseSigned | win64/main.py:704 | a '+' sign is ignored and a '-' sign negates the digit run's value, so `int("+80") == 80` and `int("-0") == 0`; with the leading-zero rule and `int(str(n)) == n` this fixes the value of every accepted literal |
| PyStr.Lower | win64/main.py:692 | `lower()` keeps the length and maps each character on its own: an ASCII capital to its small letter, anything else unchanged |
| PyStr.Remove | win64/main.py:693 | `replace(t, "")` only deletes: the result is no longer than the text and every character of it comes from the text |
| PyStr.RemoveFirst | win64/main.py:693 | the first occurrence of `t` is deleted, the text before it is kept, and the pass continues after it, so every later occurrence goes too: `"80udpudp"` becomes `"80"` |
| PyStr.RemoveAbsent | win64/main.py:693 | text that does not contain `t` comes back unchanged |
| PyStr.RemoveSuffix | win64/main.py:693 | `replace(t, "")` on text followed by `t` deletes exactly that trailing `t` when the text holds no `t[0]` |
| PyStr.RemoveIsSinglePass | win64/main.py:693 | `replace` makes one pass: `"uudpdp"` loses one `udp` and keeps the `udp` that appears only afterwards |
| PyStr.RemoveKeeps | main.py:417 | a character that is not in the deleted word survives `replace(word, "")` |
| PyStr.LetterNotInt | main.py:425-430 | text holding a letter other than a sign makes `int()` fail |
| Config.DelayOf | win64/main.py:657 | the knock delay is the service's `delay_in_milliseconds` when present, and 300 ms when absent |
| Config.Find | win64/main.py:633-637 | the lookup is None iff no entry has that `service_name`; otherwise it is the first entry that has it |
| Knocks.PortOf | win64/main.py:703-707 | `int(port_num)` succeeds exactly on an integer literal, and then the spec carries that integer and the chosen protocol; a failure skips the entry |
| Knocks.Effective | win64/main.py:719-730 | a knock counts as sent only if the network accepts it and the port is 0..65535; an out-of-range port raises inside the caught send |
| Knocks.Positions | win64/main.py:680 | the reference order of `enumerate`: every listed position lies from the start index to the end of the list, and its entry is flagged |
| Knocks.PositionsAscending | win64/main.py:680 | the listed positions are strictly ascending, so none is listed twice and none out of order |
| Knocks.PositionsComplete | win64/main.py:680 | every flagged position from the start index on is listed, so none is skipped |
| WinKnocker.Resolve | win64/main.py:814-834 | a missing host gives None; a v4 or v6 literal is returned unchanged; any other name gives the lookup's answer, with None for an error |
| WinKnocker.ResolveLiteralSkipsLookup | win64/main.py:817-826 | for a literal, the result does not depend on what the name lookup would answer, so no lookup happens |
| WinKnocker.FamilyOf | win64/main.py:715 | the socket family is IPv6 exactly when the target IP text contains ':', and IPv4 otherwise |
| WinKnocker.ParseSpec | win64/main.py:686-707 | without a colon, a spec that parses is UDP exactly when its lower-cased text mentions "udp"; the colon form and each suffix form are pinned down by the lemma rows that follow |
| WinKnocker.ParseColonForm | win64/main.py:686-690 | with a colon, the port is `int` of the text before the first colon. UDP iff the second field, lower-cased, is "udp"; fields after a second colon are ignored |
| WinKnocker.ParseUdpForms | win64/main.py:686-694 | `N:udp`, `Nudp` and any-case `NUDP` all give `(N, UDP)` |
| WinKnocker.ParseTcpForms | win64/main.py:686-701 | `N:tcp`, `Ntcp` and a bare `N` all give `(N, TCP)` |
| WinKnocker.ParseTcpSuffix | win64/main.py:695-697 | `Ntcp` gives `(N, TCP)`; the "udp" test runs first and fails |
| WinKnocker.ParseBare | win64/main.py:698-701 | a bare `N` gives `(N, TCP)` |
| WinKnocker.KnockFrom | win64/main.py:678-738 | every knock event is at a list position whose entry parsed, carries that parsed spec and its oracle outcome (a send error for a port outside 0..65535), and has the family chosen by ':' in the IP |
| WinKnocker.KnockedPositions | win64/main.py:680-707 | the knocks' list positions are exactly the positions whose entry parses, in list order: a malformed entry is skipped and the loop goes on, even after a socket failure |
| WinKnocker.SleepFollowsKnock | win64/main.py:715-734 | every sleep lasts the delay and comes right after a knock that created its socket and was not at the last list position |
| WinKnocker.NoSleepWithNegativeDelay | win64/main.py:732-738 | with a negative delay the trace holds knocks only: `time.sleep` raises before any pause |
| WinKnocker.KnockThenSleep | win64/main.py:732-734 | when the delay is not negative, every knock that created its socket and was not at the last list position is immediately followed by the sleep |
| WinKnocker.KnockAllSent | win64/main.py:678-738 | `knock_successful` stays true iff no parsed entry failed to create its socket and no negative delay was slept |
| WinKnocker.TrailingSkipKeepsSleep | win64/main.py:703-734 | with `["80","x"]` the trace ends with the sleep after 80; with `["x","80"]` there is no sleep |
| WinKnocker.TestConnection | win64/main.py:836-866 | a probe succeeds iff the host resolves, the port is in range and the connect succeeds. The socket family, chosen by ':' in the IP, is determined iff the host resolved |
| WinKnocker.LadderFrom | win64/main.py:749-756 | rungs are tried in order with timeouts 500, 1000, 2000, 5000 ms. Every rung but the last tried fails, and the ladder stops at the first success |
| WinKnocker.TestTarget | win64/main.py:747-752 | a test address is usable only if it is non-empty, has exactly one colon and the text after it is an integer; it is then `host + ":" + portText` |
| WinKnocker.TestTargetOf | win64/main.py:747 | `host:N` with a colon-free host is read back as `(host, N)` |
| WinKnocker.TestTargetOfLiteral | win64/main.py:747-752 | any integer literal after the one colon is usable, with the value `int()` gives it: `h:080` and `h:+80` are probed at port 80 |
| WinKnocker.ProbeLadder | win64/main.py:744-758 | an unusable test address means no probe and false. Otherwise the attempts are exactly the ladder run on the address's host and port, and `accessible` is true iff some attempt succeeded, iff the target is reachable and some rung's connect succeeds |
| WinKnocker.PerformKnock | win64/main.py:649-764 | an unresolved target means no knock, no probe and an unchanged status map. Otherwise the knock run and the ladder's verdict are both recorded, and only `status[name]` changes, to the verdict |
| WinKnocker.CheckService | win64/main.py:784-807 | no knocking; a usable test address gets exactly one probe, with the 2 s timeout, whose outcome is the verdict. The verdict is false, with no probe, for a missing or malformed test address; only `status[name]` changes |
| WinKnocker.LadderAgreesWithCheck | win64/main.py:750-753 | if the network answers every rung the same way, the ladder and the single check give the same verdict |
| WinKnocker.NameOf | win64/main.py:651 | the status key is the service's `service_name` when present, and "Unknown Service" when absent |
| WinKnocker.KnockService | win64/main.py:628-647 | an unknown name does nothing; otherwise the first service with that name goes through the knock cycle |
| MacKnocker.GetAddrInfo | main.py:386-392 | a missing host raises, giving no address; a present host gets exactly the lookup's first answer, an address whenever the lookup succeeds |
| MacKnocker.ParseSpec | main.py:402-430 | without a colon, a spec that parses is UDP exactly when its lower-cased text does not mention "tcp" and either mentions "udp" or the default is UDP; the colon form and each suffix form are pinned down by the lemma rows that follow |
| MacKnocker.ParseColonForm | main.py:405-413 | with a colon, the port is `int` of the text before the first colon. "udp" gives UDP, "tcp" gives TCP (any case), any other field keeps the default |
| MacKnocker.ParseUdpForms | main.py:405-421 | `N:udp`, `Nudp` and `NUDP` give `(N, UDP)` whatever the default |
| MacKnocker.ParseUdpSuffix | main.py:419-421 | `Nudp` gives `(N, UDP)` after the "tcp" test fails |
| MacKnocker.ParseTcpForms | main.py:405-418 | `N:tcp` and `Ntcp` give `(N, TCP)` whatever the default |
| MacKnocker.ParseTcpSuffix | main.py:416-418 | `Ntcp` gives `(N, TCP)` |
| MacKnocker.ParseDefaultForms | main.py:402-423 | a bare `N` and `N:x` with an unknown protocol both take the caller's default |
| MacKnocker.KnockFrom | main.py:400-459 | every knock event is at a list position whose entry parsed, carries that parsed spec and its oracle outcome (a send error for a port outside 0..65535), and has the family from `getaddrinfo` |
| MacKnocker.KnockedPrefix | main.py:400-459 | the knocks' list positions are a prefix of the positions whose entry parses, in list order: malformed entries are skipped, and the run may stop early |
| MacKnocker.KnockedAllWhenSent | main.py:400-461 | when the loop returns True, every entry that parses was knocked, in list order |
| MacKnocker.KnockAllSent | main.py:437-465 | the loop returns True iff no parsed entry failed to create its socket |
| MacKnocker.SocketErrorIsLast | main.py:436-465 | a knock whose socket could not be created is the last event; no further knock is sent |
| MacKnocker.FailureEndsWithSocketError | main.py:462-465 | a False result from the loop always ends with such a knock |
| MacKnocker.SleepFollowsKnock | main.py:436-459 | every sleep lasts the delay and comes right after a knock that created its socket and was not at the last list position |
| MacKnocker.NoSleepWithoutDelay | main.py:457-459 | a delay that is not positive leaves a trace of knocks only |
| MacKnocker.KnockThenSleep | main.py:457-459 | with a positive delay, every knock that created its socket and was not at the last list position is immediately followed by the sleep |
| MacKnocker.PerformPortKnock | main.py:372-465 | a lookup failure sends nothing and returns False. Otherwise the loop runs with the address's family, and the call returns True iff the lookup succeeded and no parsed entry's socket failed |
| MacKnocker.TestConnection | main.py:286-319 | a probe succeeds iff the host resolves, the port text is an integer in range and the connect succeeds |
| MacKnocker.ProbeOf | main.py:337-341 | a probe is made iff the test address is non-empty with exactly one colon; its halves rejoin with ':' into the address |
| MacKnocker.CheckService | main.py:321-370 | nothing changes without a test address, without a menu item for the name, or when the address is not two parts. Otherwise only that item changes: Connected on success, else Closed or Error by the flag, after one 0.5 s probe |
| MacKnocker.IconAfterKnock | main.py:513-555 | a failed knock gives Error with no probe. A test address that is missing, empty, or not exactly two ':'-separated parts leaves the icon as it was, with no probe. A probe is made exactly when the knock succeeded and the address is usable: one 2 s probe, giving Connected iff it succeeds, else Error |
| MacKnocker.OnServiceClick | main.py:467-511 | an unknown title does nothing; otherwise the first matching service is knocked with the TCP default and its icon updated from Loading |
| MacKnocker.ClickIcon | main.py:476-548 | after a click the icon is Loading iff the knock succeeded and the test address is unusable. It is Connected iff the knock succeeded and the probe succeeded, and Error otherwise |
| ParserAgreement.BothProtocolsRejected | main.py:416-421 | a colon-free spec mentioning both "udp" and "tcp" is rejected by both parsers, so their opposite test order is never visible |
| ParserAgreement.ParsersAgreeWithTcpDefault | main.py:402-423 | with the TCP default, the macOS parser and the Windows parser give the same result on every spec |
| ParserAgreement.ParsersDifferWithUdpDefault | main.py:402-423 | with the UDP default, a bare `N` or `N:x` is TCP on Windows and UDP on macOS |
| Supervisor.RunWithRestart | main.py:623-680 | at most 5 launches, stopping at the first normal return. After crash k the wait is `min(3·2^k, 30)` s, giving 3, 6, 12, 24, 30; the final notice comes iff the first five launches all crashed |

## Left out

- Sockets, `select`, `inet_pton`, `gethostbyname` and `getaddrinfo` are
  operating-system calls. They become oracles (`Resolver`, `Dns`, `Transport`
  answers, connect booleans). A name resolves the same way at every probe.
- Threads (`daemon=True` fan-out in `check_all_services`, `initial_check`,
  `on_check_connections`, `knock_service`) are left out: the model is
  sequential, so races on the status map do not arise.
- Float seconds are replaced by integer milliseconds. Three pauses are left
  out entirely, as they decide nothing: the 0.5 s settle pause before the
  ladder, the 0.2 s pause after each failed rung (the code pauses after every
  failed rung, the last one too), and the 0.2 s `select` wait
  after a macOS TCP knock.
- The tkinter, pystray and rumps UI is left out: popup indicators and buttons,
  notifications, and the Loading icons set by "Check Connections".
- Logging, `load_config` file I/O, resource paths, `edit_config`, `view_logs`,
  the auto-check timer, `main()` and the setup scripts are left out. They
  have no decision logic.
- PyStr.ParseInt: accepts only an optional sign followed by ASCII digits.
  Python's `int()` also accepts surrounding whitespace, underscores between
  digits and non-ASCII digits.
- PyStr.Lower: maps ASCII letters only. Python lowers every Unicode letter.
- PyStr.Split: handles a one-character separator only, the only kind used.
- Config entries are taken to hold strings and integers where the code
  expects them. A `ports_to_knock` key that is missing reads as the empty list.
- MacKnocker.CheckService: the `except` branch that sets Error is not
  modelled. `test_connection` catches every exception itself, so no exception
  reaches that branch. The same holds for `check_service_after_knock`.
- WinKnocker.KnockFrom: exceptions from `setblocking` or `close` fall into the
  same handler as a failed socket creation. They are folded into `SocketError`.
- MacKnocker.KnockFrom: an exception from `setblocking` or from `close` in the
  `finally` also leaves the loop and makes the call return False, as a failed
  socket creation does. Both are folded into `SocketError`.
