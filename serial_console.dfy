/**
 * `cisco-serial`: drive a router's console over a serial port. The options
 * fall back to their defaults, the console is woken up and put in enable
 * mode with paging off, then the commands of a file are written one by one;
 * the first reply that reports invalid input fails the module. Unlike the
 * SSH module, a reply is rejected when `% Invalid` occurs anywhere in it.
 */
module SerialConsole {
  import opened Wrappers
  import opened PyStr
  import opened Transport
  import opened ExecCommands

  // ---------------------------------------------------------------------
  // Options

  /** A resolved port setting: the option's text when it was given, or a
      default, which is text or a number. */
  datatype Setting = Text(text: string) | Number(number: int)

  /** Python truthiness of a setting. */
  predicate Truthy(s: Setting)
  {
    match s
    case Text(t) => t != []
    case Number(n) => n != 0
  }

  /** `if param: value = param else: value = default`: an option that is
      absent or empty takes the default. */
  function Resolve(param: Option<string>, default: Setting): (r: Setting)
    ensures r == default || (param.Some? && r == Text(param.value))
    ensures Truthy(default) ==> Truthy(r)
  {
    if param.Some? && param.value != [] then Text(param.value) else default
  }

  /** The optional module parameters, as given to the module. */
  datatype Options = Options(
    port: Option<string>,
    baudrate: Option<string>,
    parity: Option<string>,
    stopbits: Option<string>,
    bytesize: Option<string>,
    timeout: Option<string>)

  /** The settings the port is opened with. */
  datatype Settings = Settings(
    port: Setting,
    baudrate: Setting,
    parity: Setting,
    stopbits: Setting,
    bytesize: Setting,
    timeout: Setting)

  const Defaults := Settings(Text("/dev/ttyS0"), Number(9600), Text("N"), Number(1), Number(8), Number(8))

  predicate AllTruthy(s: Settings)
  {
    Truthy(s.port) && Truthy(s.baudrate) && Truthy(s.parity)
    && Truthy(s.stopbits) && Truthy(s.bytesize) && Truthy(s.timeout)
  }

  /** The default resolution of `main`, option by option. */
  function ResolveOptions(o: Options): (s: Settings)
    ensures AllTruthy(s)
  {
    Settings(Resolve(o.port, Defaults.port), Resolve(o.baudrate, Defaults.baudrate),
             Resolve(o.parity, Defaults.parity), Resolve(o.stopbits, Defaults.stopbits),
             Resolve(o.bytesize, Defaults.bytesize), Resolve(o.timeout, Defaults.timeout))
  }

  /** An option given with a non-empty value is kept as given. */
  lemma GivenOptionKept(param: Option<string>, default: Setting)
    requires param.Some? && param.value != []
    ensures Resolve(param, default) == Text(param.value)
  {
  }

  /** With no option given, the port is opened with the documented defaults;
      an empty option counts as absent. */
  lemma DefaultsWhenAbsent()
    ensures ResolveOptions(Options(None, None, None, None, None, None))
      == Settings(Text("/dev/ttyS0"), Number(9600), Text("N"), Number(1), Number(8), Number(8))
    ensures ResolveOptions(Options(Some(""), Some(""), Some(""), Some(""), Some(""), Some("")))
      == ResolveOptions(Options(None, None, None, None, None, None))
  {
  }

  /** Resolving the textual settings once more changes nothing. */
  lemma ResolveIdempotent(param: Option<string>, default: Setting)
    requires Truthy(default)
    ensures var r := Resolve(param, default);
      r.Text? ==> Resolve(Some(r.text), default) == r
  {
  }

  // ---------------------------------------------------------------------
  // Classifying one reply

  const InvalidMarker := "% Invalid"

  /** `execute_command`'s verdict on what the console printed: rejected, with
      the whole output as message, exactly when `% Invalid` occurs in it;
      otherwise accepted with an empty message. */
  function Classify(output: string): (r: (bool, string))
    ensures r.0 <==> !Contains(output, InvalidMarker)
    ensures r.1 == if r.0 then "" else output
  {
    if Contains(output, InvalidMarker) then (false, output) else (true, "")
  }

  /** A reply of two lines splits back into them. */
  lemma TwoLines(first: string, second: string)
    requires '\n' !in first && '\n' !in second
    ensures Split(Join([first, second], '\n'), '\n') == [first, second]
  {
    SplitJoin([first, second], '\n');
  }

  /** Text without a capital I cannot report invalid input. */
  lemma NoInvalidWithoutI(output: string)
    requires 'I' !in output
    ensures !Contains(output, InvalidMarker)
  {
    if Contains(output, InvalidMarker) {
      ContainsChar(output, InvalidMarker, 2);
    }
  }

  /** The line IOS prints for an ambiguous abbreviation. */
  function AmbiguousLine(command: string): string
  {
    "% Ambiguous command:  \"" + command + "\"\r"
  }

  lemma AmbiguousLineShape(command: string)
    requires 'I' !in command && '\n' !in command
    ensures 'I' !in AmbiguousLine(command) && '\n' !in AmbiguousLine(command)
    ensures IsMarker(AmbiguousLine(command))
  {
    var head := "% Ambiguous command:  \"";
    assert forall k | 0 <= k < |head| :: head[k] != 'I' && head[k] != '\n';
    MarkerIsPrefix(AmbiguousLine(command));
  }

  /** The SSH rule rejects the ambiguous-command reply. */
  lemma AmbiguousRejectedBySsh(command: string, prompt: string)
    requires 'I' !in command && '\n' !in command && '\n' !in prompt
    ensures !Accepts(Split(Join([AmbiguousLine(command), prompt], '\n'), '\n'))
  {
    AmbiguousLineShape(command);
    TwoLines(AmbiguousLine(command), prompt);
  }

  /** The serial rule accepts the ambiguous-command reply. */
  lemma AmbiguousAcceptedBySerial(command: string, prompt: string)
    requires 'I' !in command && '\n' !in command && 'I' !in prompt
    ensures Classify(Join([AmbiguousLine(command), prompt], '\n')).0
  {
    AmbiguousLineShape(command);
    var first := AmbiguousLine(command);
    assert Join([first, prompt], '\n') == first + "\n" + prompt;
    NoInvalidWithoutI(first + "\n" + prompt);
  }

  /** The serial rule accepts an IOS complaint the SSH rule rejects: an
      ambiguous command is reported with `% ` but not with `% Invalid`. */
  lemma AmbiguousCommandDiffers(command: string, prompt: string)
    requires 'I' !in command && '\n' !in command && 'I' !in prompt && '\n' !in prompt
    ensures var output := Join([AmbiguousLine(command), prompt], '\n');
      && !Accepts(Split(output, '\n'))
      && Classify(output).0
  {
    AmbiguousRejectedBySsh(command, prompt);
    AmbiguousAcceptedBySerial(command, prompt);
  }

  /** The SSH rule accepts a reply whose lines do not start with `%`. */
  lemma MidLineAcceptedBySsh(first: string, prompt: string)
    requires '\n' !in first && '\n' !in prompt
    requires (|first| >= 1 ==> first[0] != '%') && (|prompt| >= 1 ==> prompt[0] != '%')
    ensures Accepts(Split(Join([first, prompt], '\n'), '\n'))
  {
    TwoLines(first, prompt);
    MarkerIsPrefix(first);
    MarkerIsPrefix(prompt);
  }

  /** The serial rule rejects a reply with `% Invalid` anywhere in its first line. */
  lemma MidLineRejectedBySerial(before: string, after: string, prompt: string)
    ensures !Classify(Join([before + InvalidMarker + after, prompt], '\n')).0
  {
    ContainsInside(before, InvalidMarker, after);
    ContainsInJoin([before + InvalidMarker + after, prompt], '\n', 0, InvalidMarker);
  }

  /** The serial rule rejects a reply the SSH rule accepts: `% Invalid` in the
      middle of a line, such as in an interface description, is no marker. */
  lemma InvalidMidLineDiffers(before: string, after: string, prompt: string)
    requires before != [] && before[0] != '%' && '\n' !in before && '\n' !in after
    requires '\n' !in prompt && (|prompt| >= 1 ==> prompt[0] != '%')
    ensures var output := Join([before + InvalidMarker + after, prompt], '\n');
      && Accepts(Split(output, '\n'))
      && !Classify(output).0
  {
    var first := before + InvalidMarker + after;
    assert '\n' !in first && first[0] != '%';
    MidLineAcceptedBySsh(first, prompt);
    MidLineRejectedBySerial(before, after, prompt);
  }

  /** A reply with a line that starts with `% Invalid` is rejected by both rules. */
  lemma InvalidInputRejectedByBoth(output: string, i: nat)
    requires i < |Split(output, '\n')|
    requires |Split(output, '\n')[i]| >= 9 && Split(output, '\n')[i][..9] == InvalidMarker
    ensures !Accepts(Split(output, '\n'))
    ensures !Classify(output).0
  {
    var lines := Split(output, '\n');
    var line := lines[i];
    MarkerIsPrefix(line);
    assert line[0] == '%' && line[1] == ' ';
    assert OccursAt(line, InvalidMarker, 0);
    ContainsAt(line, InvalidMarker, 0);
    ContainsInJoin(lines, '\n', i, InvalidMarker);
    JoinSplit(output, '\n');
  }

  // ---------------------------------------------------------------------
  // The command loop

  /** What is written for a command: the command and a carriage return. */
  function Terminated(commands: seq<string>): (r: seq<string>)
    ensures |r| == |commands| && forall i | 0 <= i < |r| :: r[i] == commands[i] + "\r"
  {
    seq(|commands|, i requires 0 <= i < |commands| => commands[i] + "\r")
  }

  /** The loop over the file's commands from a written log `written`: each
      command is written in turn; the output of the first rejected one ends
      the run (`fail_json` exits), otherwise every command is written. The
      result is the rejected output, if any, and the written log. */
  function CommandLoop(respond: seq<string> -> string, written: seq<string>,
                       commands: seq<string>): (Option<string>, seq<string>)
    decreases |commands|
  {
    if commands == [] then (None, written)
    else
      var log := written + [commands[0] + "\r"];
      var verdict := Classify(respond(log));
      if !verdict.0 then (Some(verdict.1), log)
      else CommandLoop(respond, log, commands[1..])
  }

  /** The console's output after command m of the list, written after the
      log `written` and the commands before it, reports no invalid input. */
  predicate PassedAt(respond: seq<string> -> string, written: seq<string>, commands: seq<string>, m: nat)
    requires m < |commands|
  {
    !Contains(respond(written + Terminated(commands[..m + 1])), InvalidMarker)
  }

  /** Command m + 1 of a list is command m of its tail, written after the first. */
  lemma PassedAtTail(respond: seq<string> -> string, written: seq<string>, commands: seq<string>, m: nat)
    requires m + 1 < |commands|
    ensures PassedAt(respond, written, commands, m + 1)
      == PassedAt(respond, written + [commands[0] + "\r"], commands[1..], m)
  {
    assert Terminated(commands[..m + 2]) == [commands[0] + "\r"] + Terminated(commands[1..][..m + 1]);
    assert written + Terminated(commands[..m + 2])
      == written + [commands[0] + "\r"] + Terminated(commands[1..][..m + 1]);
  }

  /** The first command of a list is written right after the log. */
  lemma PassedAtHead(respond: seq<string> -> string, written: seq<string>, commands: seq<string>)
    requires commands != []
    ensures PassedAt(respond, written, commands, 0)
      == !Contains(respond(written + [commands[0] + "\r"]), InvalidMarker)
  {
    assert Terminated(commands[..1]) == [commands[0] + "\r"];
  }

  /** Every command passes exactly when the first does and every command of
      the tail, written after it, does. */
  lemma AllPassedTail(respond: seq<string> -> string, written: seq<string>, commands: seq<string>)
    requires commands != []
    ensures (forall m | 0 <= m < |commands| :: PassedAt(respond, written, commands, m))
      <==> (&& !Contains(respond(written + [commands[0] + "\r"]), InvalidMarker)
            && forall m | 0 <= m < |commands| - 1 :: PassedAt(respond, written + [commands[0] + "\r"], commands[1..], m))
  {
    PassedAtHead(respond, written, commands);
    forall m | 0 <= m < |commands| - 1
      ensures PassedAt(respond, written, commands, m + 1)
        == PassedAt(respond, written + [commands[0] + "\r"], commands[1..], m)
    {
      PassedAtTail(respond, written, commands, m);
    }
    if forall m | 0 <= m < |commands| - 1 :: PassedAt(respond, written + [commands[0] + "\r"], commands[1..], m) {
      forall m | 1 <= m < |commands|
        ensures PassedAt(respond, written, commands, m)
      {
        assert PassedAt(respond, written + [commands[0] + "\r"], commands[1..], m - 1);
      }
    }
  }

  lemma TerminatedCons(commands: seq<string>)
    requires commands != []
    ensures Terminated(commands) == [commands[0] + "\r"] + Terminated(commands[1..])
  {
  }

  /** The loop gets through exactly when no command's output reports invalid
      input. */
  lemma {:induction false} CommandLoopAllPassed(respond: seq<string> -> string, written: seq<string>,
                                                commands: seq<string>)
    ensures CommandLoop(respond, written, commands).0.None?
      <==> forall m | 0 <= m < |commands| :: PassedAt(respond, written, commands, m)
    decreases |commands|
  {
    if commands != [] {
      CommandLoopAllPassed(respond, written + [commands[0] + "\r"], commands[1..]);
      AllPassedTail(respond, written, commands);
    }
  }

  /** A loop that gets through has written every command, in order. */
  lemma {:induction false} CommandLoopWritesAll(respond: seq<string> -> string, written: seq<string>,
                                                commands: seq<string>)
    requires CommandLoop(respond, written, commands).0.None?
    ensures CommandLoop(respond, written, commands).1 == written + Terminated(commands)
    decreases |commands|
  {
    if commands != [] {
      var log := written + [commands[0] + "\r"];
      CommandLoopWritesAll(respond, log, commands[1..]);
      TerminatedCons(commands);
      assert log + Terminated(commands[1..]) == written + Terminated(commands);
    }
  }

  /** The log of a loop that stops at command n + 1, seen from its tail. */
  lemma StopsInTail(respond: seq<string> -> string, written: seq<string>, commands: seq<string>, n: nat)
    requires n + 1 < |commands|
    requires !Contains(respond(written + [commands[0] + "\r"]), InvalidMarker)
    requires forall m | 0 <= m < n :: PassedAt(respond, written + [commands[0] + "\r"], commands[1..], m)
    ensures written + [commands[0] + "\r"] + Terminated(commands[1..][..n + 1])
      == written + Terminated(commands[..n + 2])
    ensures forall m | 0 <= m < n + 1 :: PassedAt(respond, written, commands, m)
  {
    assert Terminated(commands[..n + 2]) == [commands[0] + "\r"] + Terminated(commands[1..][..n + 1]);
    PassedAtHead(respond, written, commands);
    forall m | 1 <= m < n + 1
      ensures PassedAt(respond, written, commands, m)
    {
      PassedAtTail(respond, written, commands, m - 1);
    }
  }

  /** A rejected command ends the loop at once: the commands before it
      passed, nothing after it is written, and its whole output is the
      failure message. */
  lemma {:induction false} CommandLoopFailFast(respond: seq<string> -> string, written: seq<string>,
                                               commands: seq<string>)
    requires CommandLoop(respond, written, commands).0.Some?
    ensures exists n | 0 <= n < |commands| ::
      && CommandLoop(respond, written, commands).1 == written + Terminated(commands[..n + 1])
      && !PassedAt(respond, written, commands, n)
      && (forall m | 0 <= m < n :: PassedAt(respond, written, commands, m))
      && CommandLoop(respond, written, commands).0.value == respond(written + Terminated(commands[..n + 1]))
    decreases |commands|
  {
    var log := written + [commands[0] + "\r"];
    PassedAtHead(respond, written, commands);
    if !Contains(respond(log), InvalidMarker) {
      CommandLoopFailFast(respond, log, commands[1..]);
      var n :| 0 <= n < |commands[1..]|
        && CommandLoop(respond, log, commands[1..]).1 == log + Terminated(commands[1..][..n + 1])
        && !PassedAt(respond, log, commands[1..], n)
        && (forall m | 0 <= m < n :: PassedAt(respond, log, commands[1..], m))
        && CommandLoop(respond, log, commands[1..]).0.value == respond(log + Terminated(commands[1..][..n + 1]));
      StopsInTail(respond, written, commands, n);
      PassedAtTail(respond, written, commands, n);
      assert CommandLoop(respond, written, commands).1 == written + Terminated(commands[..n + 1 + 1]);
    } else {
      assert written + Terminated(commands[..0 + 1]) == log;
    }
  }

  // ---------------------------------------------------------------------
  // The module

  /** What is written to wake the console, enter enable mode and turn paging off. */
  const Setup := ["\r", "enable\r", "terminal length 0\r"]

  /** The outcome of `main`, what was written to the port and whether the
      port is open at the end. */
  datatype ConsoleRun = ConsoleRun(outcome: Outcome, written: seq<string>, portOpen: bool)

  /** What `main` does with a port that opens when `opens` holds and a
      console that answers `respond`: a port that does not open fails the
      module before anything is written; otherwise the setup commands are
      written with their replies ignored, then the file's commands; the
      first rejection fails the module with the port left open, and when
      every command passes `exit` is written and the port closed. */
  function Console(opens: bool, respond: seq<string> -> string, commands: seq<string>): (r: ConsoleRun)
    ensures !opens ==> r == ConsoleRun(Failed("Serial port cannot be opened"), [], false)
    ensures r.outcome == Changed <==> !r.portOpen && opens
    ensures opens ==> |r.written| > |Setup| && r.written[..|Setup|] == Setup
  {
    if !opens then ConsoleRun(Failed("Serial port cannot be opened"), [], false)
    else
      var (rejected, log) := CommandLoop(respond, Setup, commands);
      CommandLoopPrefix(respond, Setup, commands);
      match rejected
      case Some(output) => ConsoleRun(Failed(output), log, true)
      case None => ConsoleRun(Changed, log + ["exit\r"], false)
  }

  /** The loop only ever adds to the log it starts from; once it rejects, it
      has written at least one command. */
  lemma {:induction false} CommandLoopPrefix(respond: seq<string> -> string, written: seq<string>,
                                             commands: seq<string>)
    ensures |CommandLoop(respond, written, commands).1| >= |written|
    ensures CommandLoop(respond, written, commands).1[..|written|] == written
    ensures CommandLoop(respond, written, commands).0.Some? ==> |CommandLoop(respond, written, commands).1| > |written|
    decreases |commands|
  {
    if commands != [] {
      var log := written + [commands[0] + "\r"];
      CommandLoopPrefix(respond, log, commands[1..]);
      assert log[..|written|] == written;
      var out := CommandLoop(respond, log, commands[1..]).1;
      assert out[..|written|] == out[..|log|][..|written|];
    }
  }

  /** The serial port: the settings it was opened with, whether it is open,
      everything written to it, and the console's answer to the last write. */
  class SerialPort {
    const settings: Settings
    var isOpen: bool
    var written: seq<string>
    const respond: seq<string> -> string

    /** `serial.Serial(...)`: whether the device opens is outside the model. */
    constructor(settings: Settings, opens: bool, respond: seq<string> -> string)
      ensures this.settings == settings && isOpen == opens && written == []
      ensures this.respond == respond
    {
      this.settings := settings;
      this.respond := respond;
      isOpen := opens;
      written := [];
    }

    method Write(data: string)
      requires isOpen
      modifies this
      ensures isOpen && written == old(written) + [data]
    {
      written := written + [data];
    }

    /** `read_output`: everything the console printed after the last write. */
    method ReadOutput() returns (output: string)
      ensures output == respond(written)
    {
      output := respond(written);
    }

    method Close()
      modifies this
      ensures !isOpen && written == old(written)
    {
      isOpen := false;
    }
  }

  /** `execute_command`: write the command and a carriage return, read the
      console's output and classify it. */
  method ExecuteCommand(port: SerialPort, command: string) returns (result: (bool, string))
    requires port.isOpen
    modifies port
    ensures port.isOpen && port.written == old(port.written) + [command + "\r"]
    ensures result == Classify(port.respond(port.written))
  {
    result := (true, "");
    port.Write(command + "\r");
    var output := port.ReadOutput();
    if Contains(output, "% Invalid") {
      result := (false, output);
    }
  }

  /** `main` once the options are read: open the port with the resolved
      settings, set the console up, run the file's commands and finish. */
  method RunConsole(options: Options, commands: seq<string>, opens: bool, respond: seq<string> -> string)
    returns (outcome: Outcome, port: SerialPort)
    ensures port.settings == ResolveOptions(options)
    ensures Console(opens, respond, commands) == ConsoleRun(outcome, port.written, port.isOpen)
  {
    var settings := ResolveOptions(options);
    port := new SerialPort(settings, opens, respond);
    if !port.isOpen {
      return Failed("Serial port cannot be opened"), port;
    }
    var ignored := ExecuteCommand(port, "");
    ignored := ExecuteCommand(port, "enable");
    ignored := ExecuteCommand(port, "terminal length 0");
    assert "" + "\r" == "\r" && "enable" + "\r" == "enable\r";
    assert "terminal length 0" + "\r" == "terminal length 0\r";
    assert port.written == Setup;

    for i := 0 to |commands|
      invariant port.isOpen && port.respond == respond
      invariant CommandLoop(respond, Setup, commands) == CommandLoop(respond, port.written, commands[i..])
    {
      var output := ExecuteCommand(port, commands[i]);
      assert commands[i..][1..] == commands[i + 1..];
      if !output.0 {
        return Failed(output.1), port;
      }
    }
    assert commands[|commands|..] == [];
    ignored := ExecuteCommand(port, "exit");
    assert "exit" + "\r" == "exit\r";
    port.Close();
    return Changed, port;
  }
}
