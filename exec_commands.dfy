/**
 * `cisco_exec_commands`: send the commands of a file one by one over an
 * SSH session, stop at the first one the router rejects, then leave
 * configuration mode and close the session. A reply is rejected when one
 * of its lines starts with the IOS error marker `% `; the module-level
 * `errmsg` keeps a line of the reply for the failure message.
 */
module ExecCommands {
  import opened PyStr
  import opened Transport

  // ---------------------------------------------------------------------
  // Classifying one reply

  /** A reply line that starts with the IOS error marker. */
  predicate IsMarker(line: string)
  {
    Slice(line, 0, 2) == "% "
  }

  /** The marker test looks at the first two characters only, so a line
      shorter than two characters is never a marker. */
  lemma MarkerIsPrefix(line: string)
    ensures IsMarker(line) <==> |line| >= 2 && line[0] == '%' && line[1] == ' '
  {
    if |line| >= 2 {
      assert Slice(line, 0, 2) == [line[0], line[1]];
    }
  }

  /** A reply the router accepted: no line carries the marker. */
  predicate Accepts(lines: seq<string>)
  {
    forall j | 0 <= j < |lines| :: !IsMarker(lines[j])
  }

  /** The index of the first marker line at or after i, or |lines| when there is none. */
  function FirstMarkerFrom(lines: seq<string>, i: nat): (k: nat)
    requires i <= |lines|
    ensures i <= k <= |lines|
    ensures forall j | i <= j < k :: !IsMarker(lines[j])
    ensures k < |lines| ==> IsMarker(lines[k])
    decreases |lines| - i
  {
    if i == |lines| || IsMarker(lines[i]) then i else FirstMarkerFrom(lines, i + 1)
  }

  /** The index of the first marker line, or |lines| when there is none. */
  function FirstMarker(lines: seq<string>): (k: nat)
    ensures k <= |lines|
    ensures k == |lines| <==> Accepts(lines)
    ensures forall j | 0 <= j < k :: !IsMarker(lines[j])
    ensures k < |lines| ==> IsMarker(lines[k])
  {
    FirstMarkerFrom(lines, 0)
  }

  /** What `errmsg` holds after the scan of a reply, `prev` being what it held
      before. The scan stores the previous line before advancing, so it
      trails two lines behind: after k lines have been looked at without a
      marker it holds line k - 2, or "" when k is 1, and is untouched when
      k is 0 (the very first line is a marker). The scan stops at the first
      marker, or runs over every line when there is none. */
  function ErrmsgAfter(prev: string, lines: seq<string>): string
  {
    var k := FirstMarker(lines);
    if k == 0 then prev else if k == 1 then "" else lines[k - 2]
  }

  /** The lines of the reply to the last command of a log. */
  function ReplyLines(respond: seq<string> -> string, log: seq<string>): (lines: seq<string>)
    ensures |lines| >= 1
  {
    Split(respond(log), '\n')
  }

  /** A rejected reply whose marker is at index k >= 2 leaves line k - 2 in
      `errmsg`: the line two before the marker, not the one just before it. */
  lemma ErrmsgTrailsByTwo(prev: string, lines: seq<string>, k: nat)
    requires 2 <= k < |lines| && IsMarker(lines[k])
    requires forall j | 0 <= j < k :: !IsMarker(lines[j])
    ensures ErrmsgAfter(prev, lines) == lines[k - 2]
  {
    assert FirstMarker(lines) == k;
  }

  /** An accepted reply of at least two lines leaves its next-to-last line. */
  lemma ErrmsgAccepted(prev: string, lines: seq<string>)
    requires |lines| >= 2 && Accepts(lines)
    ensures ErrmsgAfter(prev, lines) == lines[|lines| - 2]
  {
  }

  /** The reply IOS gives to an unknown command: the failure message names
      the echoed command, not the caret line just above the marker. */
  lemma ErrmsgOnInvalidInput(prev: string)
    ensures ErrmsgAfter(prev, ["show foo\r", "        ^\r", "% Invalid input detected at '^' marker.\r", "\r", "R1#"])
      == "show foo\r"
  {
    var lines := ["show foo\r", "        ^\r", "% Invalid input detected at '^' marker.\r", "\r", "R1#"];
    MarkerIsPrefix(lines[0]);
    MarkerIsPrefix(lines[1]);
    MarkerIsPrefix(lines[2]);
    ErrmsgTrailsByTwo(prev, lines, 2);
  }

  // ---------------------------------------------------------------------
  // A list of commands

  /** How far a run over a list of commands got: whether every command was
      accepted, the session's log and the value of `errmsg`. */
  datatype ListRun = ListRun(ok: bool, sent: seq<string>, errmsg: string)

  /** `executeCommandList` from a log `sent` and an `errmsg` of `errmsg`:
      each command is sent in turn and the run stops at the first rejected one. */
  function RunList(respond: seq<string> -> string, sent: seq<string>, errmsg: string,
                   commands: seq<string>): ListRun
    decreases |commands|
  {
    if commands == [] then ListRun(true, sent, errmsg)
    else
      var log := sent + [commands[0]];
      var lines := ReplyLines(respond, log);
      var e := ErrmsgAfter(errmsg, lines);
      if !Accepts(lines) then ListRun(false, log, e)
      else RunList(respond, log, e, commands[1..])
  }

  /** The reply to command m of the list, sent after the log `sent` and the
      commands before it, is accepted. */
  predicate AcceptedAt(respond: seq<string> -> string, sent: seq<string>, commands: seq<string>, m: nat)
    requires m < |commands|
  {
    Accepts(ReplyLines(respond, sent + commands[..m + 1]))
  }

  /** Command m + 1 of a list is command m of its tail, sent after the first. */
  lemma AcceptedAtTail(respond: seq<string> -> string, sent: seq<string>, commands: seq<string>, m: nat)
    requires m + 1 < |commands|
    ensures AcceptedAt(respond, sent, commands, m + 1)
      == AcceptedAt(respond, sent + [commands[0]], commands[1..], m)
  {
    assert commands[..m + 2] == [commands[0]] + commands[1..][..m + 1];
    assert sent + commands[..m + 2] == sent + [commands[0]] + commands[1..][..m + 1];
  }

  /** The first command of a list is sent right after the log. */
  lemma AcceptedAtHead(respond: seq<string> -> string, sent: seq<string>, commands: seq<string>)
    requires commands != []
    ensures AcceptedAt(respond, sent, commands, 0) == Accepts(ReplyLines(respond, sent + [commands[0]]))
  {
    assert commands[..1] == [commands[0]];
  }

  /** Every command of a list is accepted exactly when the first one is and
      every command of the tail, sent after it, is. */
  lemma AllAcceptedTail(respond: seq<string> -> string, sent: seq<string>, commands: seq<string>)
    requires commands != []
    ensures (forall m | 0 <= m < |commands| :: AcceptedAt(respond, sent, commands, m))
      <==> (&& Accepts(ReplyLines(respond, sent + [commands[0]]))
            && forall m | 0 <= m < |commands| - 1 :: AcceptedAt(respond, sent + [commands[0]], commands[1..], m))
  {
    AcceptedAtHead(respond, sent, commands);
    forall m | 0 <= m < |commands| - 1
      ensures AcceptedAt(respond, sent, commands, m + 1)
        == AcceptedAt(respond, sent + [commands[0]], commands[1..], m)
    {
      AcceptedAtTail(respond, sent, commands, m);
    }
    if forall m | 0 <= m < |commands| - 1 :: AcceptedAt(respond, sent + [commands[0]], commands[1..], m) {
      forall m | 1 <= m < |commands|
        ensures AcceptedAt(respond, sent, commands, m)
      {
        assert AcceptedAt(respond, sent + [commands[0]], commands[1..], m - 1);
      }
    }
  }

  /** The run succeeds exactly when the reply to every command is accepted. */
  lemma {:induction false} RunListAllAccepted(respond: seq<string> -> string, sent: seq<string>,
                                              errmsg: string, commands: seq<string>)
    ensures RunList(respond, sent, errmsg, commands).ok
      <==> forall m | 0 <= m < |commands| :: AcceptedAt(respond, sent, commands, m)
    decreases |commands|
  {
    if commands != [] {
      var log := sent + [commands[0]];
      var e := ErrmsgAfter(errmsg, ReplyLines(respond, log));
      RunListAllAccepted(respond, log, e, commands[1..]);
      AllAcceptedTail(respond, sent, commands);
    }
  }

  /** A successful run has sent every command, in order. */
  lemma {:induction false} RunListSendsAll(respond: seq<string> -> string, sent: seq<string>,
                                           errmsg: string, commands: seq<string>)
    ensures RunList(respond, sent, errmsg, commands).ok ==> RunList(respond, sent, errmsg, commands).sent == sent + commands
    decreases |commands|
  {
    if commands != [] {
      var log := sent + [commands[0]];
      var e := ErrmsgAfter(errmsg, ReplyLines(respond, log));
      RunListSendsAll(respond, log, e, commands[1..]);
      assert log + commands[1..] == sent + commands;
    }
  }

  /** The log of a run that fails at command n + 1 of a list, seen from its tail. */
  lemma FailsInTail(respond: seq<string> -> string, sent: seq<string>, commands: seq<string>, n: nat)
    requires n + 1 < |commands|
    requires Accepts(ReplyLines(respond, sent + [commands[0]]))
    requires forall m | 0 <= m < n :: AcceptedAt(respond, sent + [commands[0]], commands[1..], m)
    ensures sent + [commands[0]] + commands[1..][..n + 1] == sent + commands[..n + 2]
    ensures forall m | 0 <= m < n + 1 :: AcceptedAt(respond, sent, commands, m)
  {
    assert commands[..n + 2] == [commands[0]] + commands[1..][..n + 1];
    AcceptedAtHead(respond, sent, commands);
    forall m | 1 <= m < n + 1
      ensures AcceptedAt(respond, sent, commands, m)
    {
      AcceptedAtTail(respond, sent, commands, m - 1);
    }
  }

  /** A failed run stops right after the first rejected command: the
      commands before it were accepted, and no later command was sent. */
  lemma {:induction false} RunListFailFast(respond: seq<string> -> string, sent: seq<string>,
                                           errmsg: string, commands: seq<string>)
    requires !RunList(respond, sent, errmsg, commands).ok
    ensures exists n | 0 <= n < |commands| ::
      && RunList(respond, sent, errmsg, commands).sent == sent + commands[..n + 1]
      && !AcceptedAt(respond, sent, commands, n)
      && forall m | 0 <= m < n :: AcceptedAt(respond, sent, commands, m)
    decreases |commands|
  {
    var log := sent + [commands[0]];
    var lines := ReplyLines(respond, log);
    AcceptedAtHead(respond, sent, commands);
    if Accepts(lines) {
      var e := ErrmsgAfter(errmsg, lines);
      RunListFailFast(respond, log, e, commands[1..]);
      var n :| 0 <= n < |commands[1..]|
        && RunList(respond, log, e, commands[1..]).sent == log + commands[1..][..n + 1]
        && !AcceptedAt(respond, log, commands[1..], n)
        && forall m | 0 <= m < n :: AcceptedAt(respond, log, commands[1..], m);
      FailsInTail(respond, sent, commands, n);
      AcceptedAtTail(respond, sent, commands, n);
      assert RunList(respond, sent, errmsg, commands).sent == sent + commands[..n + 1 + 1];
    } else {
      assert sent + commands[..0 + 1] == log;
    }
  }

  // ---------------------------------------------------------------------
  // The module

  /** The message the module fails with. */
  function FailureMessage(errmsg: string): (msg: string)
    ensures |msg| == |errmsg| + 17
  {
    "Command error: \"" + errmsg + "\""
  }

  /** The message quotes `errmsg` whole: it can be read back from between
      the quotes, so different values give different messages. */
  lemma FailureMessageQuotes(errmsg: string)
    ensures FailureMessage(errmsg)[..16] == "Command error: \""
    ensures FailureMessage(errmsg)[16..|errmsg| + 16] == errmsg
    ensures FailureMessage(errmsg)[|errmsg| + 16] == '"'
  {
  }

  /** The module's state: the session and the global `errmsg`. */
  class CommandRunner {
    var errmsg: string
    const session: Session

    constructor(session: Session)
      ensures errmsg == "" && this.session == session
    {
      this.session := session;
      errmsg := "";
    }

    /** `executeCommand`: send one command and scan its reply line by line,
        `errmsg` taking the previous line before the previous line advances. */
    method ExecuteCommand(command: string) returns (accepted: bool)
      requires session.open
      modifies this, session
      ensures session.open && session.sent == old(session.sent) + [command]
      ensures accepted == Accepts(ReplyLines(session.respond, session.sent))
      ensures errmsg == ErrmsgAfter(old(errmsg), ReplyLines(session.respond, session.sent))
    {
      var reply := session.Command(command);
      var returnValue := Split(reply, '\n');
      var prevLine := "";
      for i := 0 to |returnValue|
        invariant session.open && session.sent == old(session.sent) + [command]
        invariant forall j | 0 <= j < i :: !IsMarker(returnValue[j])
        invariant prevLine == if i == 0 then "" else returnValue[i - 1]
        invariant errmsg == if i == 0 then old(errmsg) else if i == 1 then "" else returnValue[i - 2]
      {
        var singleLine := returnValue[i];
        if Slice(singleLine, 0, 2) == "% " {
          assert FirstMarker(returnValue) == i;
          return false;
        }
        errmsg := prevLine;
        prevLine := singleLine;
      }
      return true;
    }

    /** `executeCommandList`: the commands in file order, stopping at the
        first rejected one. */
    method ExecuteCommandList(commands: seq<string>) returns (ok: bool)
      requires session.open
      modifies this, session
      ensures session.open
      ensures ListRun(ok, session.sent, errmsg) == RunList(session.respond, old(session.sent), old(errmsg), commands)
    {
      for i := 0 to |commands|
        invariant session.open
        invariant RunList(session.respond, old(session.sent), old(errmsg), commands)
          == RunList(session.respond, session.sent, errmsg, commands[i..])
      {
        var accepted := ExecuteCommand(commands[i]);
        assert commands[i..][1..] == commands[i + 1..];
        if !accepted {
          return false;
        }
      }
      return true;
    }

    /** The body of `main` once connected: run the command list, then send
        `end` and close the session whatever the outcome, and fail with the
        message quoting `errmsg` if a command was rejected. */
    method RunCommandFile(commands: seq<string>) returns (outcome: Outcome)
      requires session.open
      modifies this, session
      ensures var run := RunList(session.respond, old(session.sent), old(errmsg), commands);
        && session.sent == run.sent + ["end"] && !session.open && errmsg == run.errmsg
        && outcome == if run.ok then Changed else Failed(FailureMessage(run.errmsg))
    {
      var commandResult := ExecuteCommandList(commands);
      var ignored := session.Command("end");
      session.Close();
      if !commandResult {
        outcome := Failed("Command error: \"" + errmsg + "\"");
      } else {
        outcome := Changed;
      }
    }
  }
}
