/**
 * `ciscoRouter.facts`: the fixed sequence of show commands sent to the
 * router, the parse of each reply, and the facts dictionary built from
 * them. A reply the parsers cannot walk (the source raises there) ends the
 * run at once: no later command is sent, not even `end`, and the session
 * is left open.
 */
module GatherFacts {
  import opened Wrappers
  import opened PyStr
  import opened Blocks
  import opened InterfaceReport
  import opened BgpReport
  import opened VrfReport
  import opened SystemReport
  import opened Transport

  const TerminalLength := "terminal length 0"
  const ShowBgpSummary := "show ip bgp summary"
  const ShowRouteDistinguishers := "show ip bgp vpnv4 all | inc Route Distinguisher"
  const ShowVersion := "show version"
  const ShowInterfaces := "show interfaces"
  const ShowVrf := "show ip vrf"
  const ShowHostname := "show run | inc hostname"
  const End := "end"

  /** The commands, in the order they are sent. */
  const Script := [TerminalLength, ShowBgpSummary, ShowRouteDistinguishers, ShowVersion,
                   ShowInterfaces, ShowVrf, ShowHostname]

  /** The BGP facts: the summary and the route distinguishers. */
  datatype Bgp = Bgp(summary: Summary, rd: seq<string>)

  /** The facts dictionary returned to Ansible. */
  datatype Facts = Facts(
    version: Option<string>,
    hostname: string,
    interfaces: map<string, Interface>,
    bgp: Bgp,
    vrf: map<string, Vrf>)

  /** The result of a run (the facts, or the command whose reply could not
      be parsed), the commands sent and whether the session was closed. */
  datatype Run = Run(result: Result<Facts, string>, sent: seq<string>, closed: bool)

  /** The reply to command k of the script, the ones before it having been sent. */
  function Reply(respond: seq<string> -> string, k: nat): string
    requires k < |Script|
  {
    respond(Script[..k + 1])
  }

  /** The commands whose replies can end the run: the BGP summary, the
      route distinguishers, the interfaces, the VRFs and the hostname. */
  const StopPoints: set<nat> := {1, 2, 4, 5, 6}

  /** A run stopped by the reply to command k. */
  function Stopped(k: nat): (r: Run)
    requires k < |Script|
    ensures r.result.Failure? && r.result.error == Script[k] && r.sent == Script[..k + 1] && !r.closed
  {
    Run(Failure(Script[k]), Script[..k + 1], false)
  }

  /** What `ciscoRouter.facts` does against a router that answers `respond`:
      the run stops at the first reply that cannot be parsed; otherwise it
      sends every command, then `end`, closes the session and returns the
      facts. */
  function FactsRun(respond: seq<string> -> string): (r: Run)
    ensures r.result.Success? <==> r.closed
    ensures r.result.Success? ==> r.sent == Script + [End]
    ensures r.result.Failure? ==> exists k | k in StopPoints :: r == Stopped(k)
  {
    match ParseSummary(ReportLines(Reply(respond, 1)))
    case None => Stopped(1)
    case Some(summary) => AfterSummary(respond, summary)
  }

  /** The run once the BGP summary is parsed: the distinguisher loop, as
      written, stops it on a reply without a line break; the version never
      does; the interfaces may. */
  function AfterSummary(respond: seq<string> -> string, summary: Summary): (r: Run)
    ensures r.result.Success? <==> r.closed
    ensures r.result.Success? ==> r.sent == Script + [End]
    ensures r.result.Failure? ==> exists k | k in StopPoints :: r == Stopped(k)
  {
    match RdListAsWritten(Split(Reply(respond, 2), '\n'))
    case None => Stopped(2)
    case Some(rd) =>
      var image := VersionImage(Split(Reply(respond, 3), '\n'));
      match ParseInterfaces(ReportLines(Reply(respond, 4)))
      case None => Stopped(4)
      case Some(interfaces) => AfterInterfaces(respond, Bgp(summary, rd), image, interfaces)
  }

  /** The run once the interfaces are parsed: the VRFs and the hostname may
      still stop it. */
  function AfterInterfaces(respond: seq<string> -> string, bgp: Bgp, image: Option<string>,
                           interfaces: map<string, Interface>): (r: Run)
    ensures r.result.Success? <==> r.closed
    ensures r.result.Success? ==> r.sent == Script + [End]
    ensures r.result.Failure? ==> exists k | k in StopPoints :: r == Stopped(k)
  {
    match ParseVrfs(ReportLines(Reply(respond, 5)))
    case None => Stopped(5)
    case Some(vrf) =>
      match HostnameOf(Reply(respond, 6))
      case None => Stopped(6)
      case Some(hostname) =>
        Run(Success(Facts(image, hostname, interfaces, bgp, vrf)), Script + [End], true)
  }

  /** Send command k of the script after the ones before it. */
  method Ask(session: Session, k: nat) returns (out: string)
    requires k < |Script| && session.open && session.sent == Script[..k]
    modifies session
    ensures session.open && session.sent == Script[..k + 1]
    ensures out == Reply(session.respond, k)
  {
    out := session.Command(Script[k]);
    assert Script[..k] + [Script[k]] == Script[..k + 1];
  }

  /** `ciscoRouter.facts` over an open session on which nothing has been sent. */
  method CollectFacts(session: Session) returns (r: Result<Facts, string>)
    requires session.open && session.sent == []
    modifies session
    ensures r == FactsRun(session.respond).result
    ensures session.sent == FactsRun(session.respond).sent
    ensures session.open == !FactsRun(session.respond).closed
  {
    var out := Ask(session, 0);
    out := Ask(session, 1);
    var summary := ParseSummaryOutput(out);
    if summary.None? {
      return Failure(ShowBgpSummary);
    }
    r := CollectAfterSummary(session, summary.value);
  }

  /** The distinguisher, version and interface steps. */
  method CollectAfterSummary(session: Session, summary: Summary) returns (r: Result<Facts, string>)
    requires session.open && session.sent == Script[..2]
    modifies session
    ensures r == AfterSummary(session.respond, summary).result
    ensures session.sent == AfterSummary(session.respond, summary).sent
    ensures session.open == !AfterSummary(session.respond, summary).closed
  {
    var out := Ask(session, 2);
    var rd := CollectRdAsWritten(Split(out, '\n'));
    if rd.None? {
      return Failure(ShowRouteDistinguishers);
    }
    out := Ask(session, 3);
    var image := ParseVersionReport(out);
    out := Ask(session, 4);
    var interfaces := ParseInterfaceReport(out);
    if interfaces.None? {
      return Failure(ShowInterfaces);
    }
    r := CollectAfterInterfaces(session, Bgp(summary, rd.value), image, interfaces.value);
  }

  /** The VRF and hostname steps, then `end` and the close. */
  method CollectAfterInterfaces(session: Session, bgp: Bgp, image: Option<string>,
                                interfaces: map<string, Interface>) returns (r: Result<Facts, string>)
    requires session.open && session.sent == Script[..5]
    modifies session
    ensures r == AfterInterfaces(session.respond, bgp, image, interfaces).result
    ensures session.sent == AfterInterfaces(session.respond, bgp, image, interfaces).sent
    ensures session.open == !AfterInterfaces(session.respond, bgp, image, interfaces).closed
  {
    var out := Ask(session, 5);
    var vrf := ParseVrfReport(out);
    if vrf.None? {
      return Failure(ShowVrf);
    }
    out := Ask(session, 6);
    var hostname := HostnameOf(out);
    if hostname.None? {
      return Failure(ShowHostname);
    }
    assert Script[..7] == Script;
    out := session.Command(End);
    session.Close();
    r := Success(Facts(image, hostname.value, interfaces, bgp, vrf.value));
  }

  /** The run succeeds exactly when every reply it parses can be walked. */
  lemma FactsRunSucceeds(respond: seq<string> -> string)
    ensures FactsRun(respond).result.Success?
      <==> (&& ParseSummary(ReportLines(Reply(respond, 1))).Some?
            && '\n' in Reply(respond, 2)
            && ParseInterfaces(ReportLines(Reply(respond, 4))).Some?
            && ParseVrfs(ReportLines(Reply(respond, 5))).Some?
            && '\n' in Reply(respond, 6))
  {
    SplitOnePiece(Reply(respond, 2), '\n');
  }

  /** Each fact is the parse of the reply to its command. */
  lemma FactsRunFields(respond: seq<string> -> string)
    requires FactsRun(respond).result.Success?
    ensures var facts := FactsRun(respond).result.value;
      && Some(facts.bgp.summary) == ParseSummary(ReportLines(Reply(respond, 1)))
      && Some(facts.bgp.rd) == RdListAsWritten(Split(Reply(respond, 2), '\n'))
      && facts.version == VersionImage(Split(Reply(respond, 3), '\n'))
      && Some(facts.interfaces) == ParseInterfaces(ReportLines(Reply(respond, 4)))
      && Some(facts.vrf) == ParseVrfs(ReportLines(Reply(respond, 5)))
      && Some(facts.hostname) == HostnameOf(Reply(respond, 6))
  {
  }

  /** A failed run never sends `end`: it stops right after the command whose
      reply it could not parse (`FactsRun` ends at one of the stop points),
      which is one of the five that can end it. */
  lemma StoppedRun(k: nat)
    requires k in StopPoints
    ensures End !in Stopped(k).sent
    ensures Stopped(k).result.error in {ShowBgpSummary, ShowRouteDistinguishers, ShowInterfaces, ShowVrf, ShowHostname}
  {
    assert End !in Script;
    assert forall c | c in Script[..k + 1] :: c in Script;
    assert k == 1 || k == 2 || k == 4 || k == 5 || k == 6;
  }
}
