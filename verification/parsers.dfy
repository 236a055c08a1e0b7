/**
 The two platform parsers side by side. They test "udp" and "tcp" in opposite
 orders and treat an unknown protocol field differently, yet with the TCP
 default that `check_service_after_knock` passes they agree on every spec.
 */
module ParserAgreement {
  import opened Optional
  import opened PyStr
  import opened Knocks
  import WinKnocker
  import MacKnocker

  /**
   A spec without ':' that mentions both protocols is rejected by both
   parsers: deleting one name leaves a letter of the other behind.
   */
  lemma BothProtocolsRejected(spec: string, defaultUdp: bool)
    requires ':' !in spec
    requires Occurs("udp", Lower(spec)) && Occurs("tcp", Lower(spec))
    ensures WinKnocker.ParseSpec(spec) == None
    ensures MacKnocker.ParseSpec(spec, defaultUdp) == None
  {
    var l := Lower(spec);
    var i: nat :| OccursAt("udp", l, i);
    var j: nat :| OccursAt("tcp", l, j);
    assert |"udp"| == 3 && |"tcp"| == 3;
    assert OccursAt("udp", l, i) && OccursAt("tcp", l, j);
    assert i + 3 <= |l| && l[i..i + 3] == "udp";
    assert j + 3 <= |l| && l[j..j + 3] == "tcp";
    assert l[i] == l[i..i + 3][0] == 'u';
    assert l[j] == l[j..j + 3][0] == 't';
    RemoveKeeps(l, "udp", 't');
    LetterNotInt(Remove(l, "udp"), 't');
    RemoveKeeps(l, "tcp", 'u');
    LetterNotInt(Remove(l, "tcp"), 'u');
  }

  /** With the TCP default, both variants parse every spec the same way. */
  lemma ParsersAgreeWithTcpDefault(spec: string)
    ensures WinKnocker.ParseSpec(spec) == MacKnocker.ParseSpec(spec, false)
  {
    if ':' !in spec && Occurs("udp", Lower(spec)) && Occurs("tcp", Lower(spec)) {
      BothProtocolsRejected(spec, false);
    }
  }

  /**
   With the UDP default they part ways: a bare number and an unknown protocol
   knock over TCP on Windows and over UDP on macOS.
   */
  lemma ParsersDifferWithUdpDefault(n: int)
    ensures WinKnocker.ParseSpec(ShowInt(n)) == Some(PortSpec(n, false))
    ensures MacKnocker.ParseSpec(ShowInt(n), true) == Some(PortSpec(n, true))
    ensures WinKnocker.ParseSpec(ShowInt(n) + ":" + "x") == Some(PortSpec(n, false))
    ensures MacKnocker.ParseSpec(ShowInt(n) + ":" + "x", true) == Some(PortSpec(n, true))
  {
    WinKnocker.ParseBare(n);
    assert Lower("x")[0] == 'x';
    MacKnocker.ParseDefaultForms(n, "x", true);
    PortOfShowInt(n, false);
    WinKnocker.ParseColonForm(ShowInt(n), "x", []);
    AppendEmpty(ShowInt(n) + ":" + "x");
  }
}
