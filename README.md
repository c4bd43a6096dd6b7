# Cisco IOS modules for Ansible, modelled in Dafny

The repository has three Ansible modules that drive a Cisco IOS router.
This project models their core:

- **`cisco_gather_facts`** logs in over SSH and sends a fixed script of show
  commands:
  - `terminal length 0`
  - `show ip bgp summary`
  - `show ip bgp vpnv4 all | inc Route Distinguisher`
  - `show version`
  - `show interfaces`
  - `show ip vrf`
  - `show run | inc hostname`

  It cuts each reply into lines and reads fixed columns and marker
  substrings out of them. It builds a facts dictionary: the BGP identifier,
  AS number, neighbours and route distinguishers; the system image; one
  record per interface; one record per VRF; and the hostname. Finally it
  sends `end` and closes the session.
- **`cisco_exec_commands`** sends the commands of a file over SSH and stops
  at the first reply with a line starting with `% `. It then sends `end`,
  closes the session and fails with `Command error: "<errmsg>"` when a
  command was rejected.
- **`cisco-serial`** resolves the serial-port options against their
  defaults and fails when the port does not open. It writes an empty line,
  `enable` and `terminal length 0`, ignoring their replies. It then writes
  the file's commands and fails with the console output of the first one
  whose output contains `% Invalid`. Otherwise it writes `exit` and closes
  the port.

Python's string operations are modelled with Python's semantics in
`PyStr`:
- negative and clamped slice bounds
- `find` answering -1
- `strip`
- `split`

The small part of `netaddr` that the interface parser uses is modelled in
`Ipv4`. It reads a canonical `a.b.c.d/n` and prints the address and the
netmask of the prefix. The mask rule is that of section 3.1 of RFC 4632.

`Blocks` holds the shapes the report parsers share:
- cutting a report into blocks (a start line and the lines that continue it)
- finding the last line carrying a marker
- filing records into a dictionary where a later record replaces an earlier
  one with the same key

Each imperative loop of the source is a Dafny `method` with the same
branches. Each method is proved equal to a specification function. The
one loop with a bug (see "## Findings") has a second method beside it,
`BgpReport.CollectRd`, for the evidently intended behaviour; the run of
`ciscoRouter.facts` uses the loop as written. The
properties are proved about those functions:
- round trips from the device's line formats back to the fields
- which key survives in a dictionary
- when a parse fails
- the fail-fast behaviour of the command loops
- what is sent or written, and whether the session or port is left open

A report the source would crash on (an index out of range, a missing key,
an address `netaddr` rejects) is `None` in the model. A run of
`ciscoRouter.facts` that meets one stops there. The model has no hidden
recovery.

Where the documented behaviour and the code differ, the model follows the
code:
- **The `errmsg` line.** The failure message of `cisco_exec_commands` is
  documented as the line just before the marker. The code assigns the
  previous line before advancing it, so the message is the line two before
  the marker. It is `""` when the marker is the second line. When the
  marker is the first line of the reply, the message is left from the
  previous command (`ExecCommands.ErrmsgAfter`, `ExecCommands.ErrmsgOnInvalidInput`).
- **Interface report lines.** The documented examples lack the two-space
  indentation and the trailing carriage return that the code's column
  offsets assume. The model uses the code's offsets.
- **The route distinguishers.** The documented list may be empty. The code
  takes the prompt as a distinguisher when none is listed, giving `[""]`,
  and raises when the reply has no line break. The run of
  `ciscoRouter.facts` does both (`GatherFacts.FactsRunFields`,
  `GatherFacts.StoppedRun`).

## Model

| member | source | states |
|---|---|---|
| PyStr.Slice | roles/cisco/library/cisco_gather_facts.py:296 | `s[i:j]` with Python's bounds: the result starts at the normalised start, its length is the distance to the normalised end (none when the end does not lie after the start), and it is `s[i..j]` when both are in range |
| PyStr.SliceDropLast | roles/cisco/library/cisco_gather_facts.py:389 | `s[i:-k]` is everything from i up to the k last characters, or empty when they overlap |
| PyStr.Find | roles/cisco/library/cisco_gather_facts.py:298 | `s.find(sub, start)` is the lowest occurrence at or after the start, and -1 exactly when there is none |
| PyStr.ContainsIffFound | roles/cisco/library/cisco_gather_facts.py:295 | `sub in s` holds exactly when `s.find(sub)` is not -1 |
| PyStr.StripSpec | roles/cisco/library/cisco_gather_facts.py:299 | `string.strip` keeps the middle of the text, removing only whitespace, and leaves no whitespace at either end |
| PyStr.StripIdempotent | roles/cisco/library/cisco_gather_facts.py:299 | stripping twice is stripping once |
| PyStr.StripIdentity | roles/cisco/library/cisco_gather_facts.py:299 | a text without whitespace at either end is its own strip |
| PyStr.Split | roles/cisco/library/cisco_gather_facts.py:342 | `string.split` on one character yields at least one piece, none holding the separator |
| PyStr.SplitOnePiece | roles/cisco/library/cisco_gather_facts.py:455 | the text splits into one piece exactly when it holds no separator |
| PyStr.JoinSplit | roles/cisco/library/cisco_gather_facts.py:342 | joining the pieces of a split gives back the text |
| PyStr.SplitJoin | roles/cisco/library/cisco_gather_facts.py:342 | splitting joined pieces without the separator gives back the pieces |
| Blocks.ReportLines | roles/cisco/library/cisco_gather_facts.py:342-343 | the report lines are the split output with its last piece (the prompt) popped, and none of them holds a newline |
| Blocks.ReportLinesJoin | roles/cisco/library/cisco_gather_facts.py:342-343 | the output is its report lines, each ended by a newline, followed by the popped prompt |
| Blocks.ReportLinesRoundTrip | roles/cisco/library/cisco_gather_facts.py:342-343 | lines printed one per line before a prompt are exactly the report lines of that output |
| Blocks.RunEnd | roles/cisco/library/cisco_gather_facts.py:408-416 | the first index at or after i whose line does not continue the block |
| Blocks.BlocksFromStep | roles/cisco/library/cisco_gather_facts.py:402-420 | the first block runs from its start line up to the first line that does not continue it; the rest are the blocks from there |
| Blocks.BlocksPartition | roles/cisco/library/cisco_gather_facts.py:434-449 | read in order, the blocks give back every line from the start on |
| Blocks.BlocksShape | roles/cisco/library/cisco_gather_facts.py:434-449 | every block is non-empty, its later lines continue it and its first line (after the first block) does not |
| Blocks.LastMatch | roles/cisco/library/cisco_gather_facts.py:387-389 | the last line carrying a marker: none exactly when no line carries it, and no later line carries it |
| Blocks.LastMatchAppend | roles/cisco/library/cisco_gather_facts.py:387-389 | a line added at the end is the last match when it carries the marker, and otherwise the last match is unchanged |
| Blocks.IndexIntoKeys | roles/cisco/library/cisco_gather_facts.py:365 | filing records by key gives the keys already present plus the key of every record |
| Blocks.IndexIntoLastWins | roles/cisco/library/cisco_gather_facts.py:365 | a record whose key no later record shares is what that key maps to |
| Blocks.IndexIntoKeeps | roles/cisco/library/cisco_gather_facts.py:365 | a key that no record carries keeps the value it had |
| Ipv4.DecimalRoundTrip | roles/cisco/library/cisco_gather_facts.py:304 | reading back a printed number gives the number |
| Ipv4.DecimalCanonical | roles/cisco/library/cisco_gather_facts.py:304 | printing the value of a canonical numeral gives the numeral back |
| Ipv4.ValueOfOctets | roles/cisco/library/cisco_gather_facts.py:304 | a 32-bit value is the number its four octets spell |
| Ipv4.OctetsOfValue | roles/cisco/library/cisco_gather_facts.py:304 | four octets below 256 are the octets of the value they spell |
| Ipv4.AddressRoundTrip | roles/cisco/library/cisco_gather_facts.py:303-304 | reading a printed dotted-quad address gives the address back |
| Ipv4.AddressCanonical | roles/cisco/library/cisco_gather_facts.py:303-304 | an address that was read prints as the text it was read from |
| Ipv4.Mask | roles/cisco/library/cisco_gather_facts.py:305 | the mask of a prefix fits in its width |
| Ipv4.MaskBits | roles/cisco/library/cisco_gather_facts.py:305 | the bits of the mask are `prefix` ones followed by zeros |
| Ipv4.NetmaskLeadingOnes | roles/cisco/library/cisco_gather_facts.py:305 | the netmask of a prefix length n has exactly n leading one bits in 32 |
| Ipv4.NetmaskDeterminesPrefix | roles/cisco/library/cisco_gather_facts.py:305 | different prefix lengths give different netmasks |
| Ipv4.Netmask24Text | roles/cisco/library/cisco_gather_facts.py:305 | the netmask of a /24 prints as `255.255.255.0` |
| Ipv4.Netmask32Text | roles/cisco/library/cisco_gather_facts.py:305 | the netmask of a /32 prints as `255.255.255.255` |
| Ipv4.Netmask0Text | roles/cisco/library/cisco_gather_facts.py:305 | the netmask of a /0 prints as `0.0.0.0` |
| Ipv4.ParseNetwork | roles/cisco/library/cisco_gather_facts.py:303 | a network that is read has an address below 2^32 and a prefix length of at most 32 |
| Ipv4.NetworkRoundTrip | roles/cisco/library/cisco_gather_facts.py:303 | reading a printed `a.b.c.d/n` gives the network back |
| Ipv4.NetworkCanonical | roles/cisco/library/cisco_gather_facts.py:303 | a network that was read prints as the text it was read from |
| InterfaceReport.InterfaceBlockManipulate | roles/cisco/library/cisco_gather_facts.py:292-318 | the record built line by line, each marker an independent test, is the fold of the block; an unreadable address fails the block |
| InterfaceReport.FoldBlockFails | roles/cisco/library/cisco_gather_facts.py:302-305 | a block fails exactly when one of its lines carries the address marker with no well-formed `a.b.c.d/n` |
| InterfaceReport.FoldBlockFields | roles/cisco/library/cisco_gather_facts.py:294-315 | every key holds the extraction of the last line of the block carrying its marker, and is absent when no line carries it |
| InterfaceReport.ApplyLineFields | roles/cisco/library/cisco_gather_facts.py:295-315 | one line sets each key whose marker it carries and leaves every other key alone |
| InterfaceReport.AddressLineFields | roles/cisco/library/cisco_gather_facts.py:302-305 | a good address line gives the printed address and a mask with as many leading ones as the prefix length |
| InterfaceReport.HeaderRoundTrip | roles/cisco/library/cisco_gather_facts.py:295-299 | `<name> is <state>, line protocol is <protocol>` gives the name and `<state>/<protocol>` |
| InterfaceReport.HardwareRoundTrip | roles/cisco/library/cisco_gather_facts.py:300-301 | `  Hardware is <kind> ...` gives the kind |
| InterfaceReport.AddressRoundTrip | roles/cisco/library/cisco_gather_facts.py:302-305 | `  Internet address is a.b.c.d/n` gives the address and the netmask of n |
| InterfaceReport.AddressFieldOf | roles/cisco/library/cisco_gather_facts.py:303 | the address field is the text between the marker and the final character |
| InterfaceReport.MtuRoundTrip | roles/cisco/library/cisco_gather_facts.py:306-307 | `  MTU <bytes> ...` gives the number |
| InterfaceReport.MacOf | roles/cisco/library/cisco_gather_facts.py:308-310 | the MAC is at most 14 characters |
| InterfaceReport.MacRoundTrip | roles/cisco/library/cisco_gather_facts.py:308-310 | the 14 characters after the first `address is ` are the MAC |
| InterfaceReport.EncapsulationRoundTrip | roles/cisco/library/cisco_gather_facts.py:311-312 | `  Encapsulation <kind>, ...` gives the kind |
| InterfaceReport.VlanRoundTrip | roles/cisco/library/cisco_gather_facts.py:313-315 | `Vlan ID  <id>.` gives the id when that is the first `Vlan ID` of the line |
| InterfaceReport.Records | roles/cisco/library/cisco_gather_facts.py:417-418 | every block has a record exactly when every block parses and is named, and record j is that of block j |
| InterfaceReport.ReadInterfaceBlock | roles/cisco/library/cisco_gather_facts.py:403-416 | the header and the indented lines after it form the block; an empty line, or a header that is the last line, makes the walk fail |
| InterfaceReport.WalkInterfaces | roles/cisco/library/cisco_gather_facts.py:399-420 | the block walk gives the dictionary the report specifies, or fails where the source raises |
| InterfaceReport.ParseInterfaceReport | roles/cisco/library/cisco_gather_facts.py:396-420 | the interface dictionary of the output, its last line popped |
| InterfaceReport.CollectIsIndex | roles/cisco/library/cisco_gather_facts.py:417-418 | the walk files every block's record under its name, a later record replacing an earlier one |
| InterfaceReport.InterfacesByName | roles/cisco/library/cisco_gather_facts.py:399-420 | a walkable report parses exactly when every block parses and is named; the keys are the block names and a name maps to the last block with it |
| BgpReport.RowsStart | roles/cisco/library/cisco_gather_facts.py:351-357 | the rows start just after the first `Neighbor` header at or after the echo, or at the end when there is none |
| BgpReport.Rows | roles/cisco/library/cisco_gather_facts.py:360-364 | one neighbour record per row, in order |
| BgpReport.SkipToNeighbors | roles/cisco/library/cisco_gather_facts.py:351-357 | the first loop stops just after the column header |
| BgpReport.FileNeighbors | roles/cisco/library/cisco_gather_facts.py:359-366 | the second loop files every row's record under its address |
| BgpReport.ParseSummaryReport | roles/cisco/library/cisco_gather_facts.py:345-366 | identifier, AS and the neighbour dictionary of the report, and none with fewer than two lines |
| BgpReport.ParseSummaryOutput | roles/cisco/library/cisco_gather_facts.py:342-366 | the summary of the output with its last line popped |
| BgpReport.SummaryNeighborKeys | roles/cisco/library/cisco_gather_facts.py:359-366 | the neighbour keys are exactly the addresses of the rows after the column header |
| BgpReport.NoHeaderNoNeighbors | roles/cisco/library/cisco_gather_facts.py:351-359 | a summary without a column header line has no neighbours |
| BgpReport.SummaryNeighborLastWins | roles/cisco/library/cisco_gather_facts.py:365 | a row's record is what its address maps to unless a later row has the same address |
| BgpReport.SummaryHeaderRoundTrip | roles/cisco/library/cisco_gather_facts.py:345-347 | `BGP router identifier <id>, local AS number <as>` gives both back |
| BgpReport.RowRoundTrip | roles/cisco/library/cisco_gather_facts.py:362-364 | a neighbour row gives its address, version and AS number |
| BgpReport.RdListAsWritten | roles/cisco/library/cisco_gather_facts.py:368-377 | the do-while as written takes line 1 always and lines 1 .. numLines-2 otherwise; it fails below two lines |
| BgpReport.CollectRdAsWritten | roles/cisco/library/cisco_gather_facts.py:368-377 | the loop as written computes that list |
| BgpReport.RdAsWrittenWithoutEntries | roles/cisco/library/cisco_gather_facts.py:372-377 | with no distinguisher line, the loop as written takes the prompt as a distinguisher |
| BgpReport.RdList | roles/cisco/library/cisco_gather_facts.py:368-377 | one distinguisher per line between the echo and the prompt, and none when there is no such line |
| BgpReport.CollectRd | roles/cisco/library/cisco_gather_facts.py:368-377 | the loop with its bound tested first computes the intended list |
| BgpReport.RdListsAgree | roles/cisco/library/cisco_gather_facts.py:368-377 | the two lists agree whenever at least one distinguisher is listed |
| BgpReport.RdRoundTrip | roles/cisco/library/cisco_gather_facts.py:374 | `Route Distinguisher: <rd> ...` gives the distinguisher |
| BgpReport.RdReportRoundTrip | roles/cisco/library/cisco_gather_facts.py:368-377 | a report of distinguisher lines gives back exactly those distinguishers, in order |
| VrfReport.InterfaceColumns | roles/cisco/library/cisco_gather_facts.py:325-327 | one interface per line of the block, in order |
| VrfReport.VrfBlockManipulate | roles/cisco/library/cisco_gather_facts.py:321-329 | name and distinguisher from the first line, and one interface per line |
| VrfReport.Vrfs | roles/cisco/library/cisco_gather_facts.py:448 | one record per block |
| VrfReport.VrfsAt | roles/cisco/library/cisco_gather_facts.py:448 | record j is that of block j |
| VrfReport.VrfStep | roles/cisco/library/cisco_gather_facts.py:435-449 | filing the block at the counter, then the blocks after it, is filing all blocks from the counter |
| VrfReport.ReadVrfBlock | roles/cisco/library/cisco_gather_facts.py:435-447 | the start line and every later line with a space in column 3; a line shorter than 4 makes the walk fail |
| VrfReport.FileVrfBlock | roles/cisco/library/cisco_gather_facts.py:435-449 | one pass of the outer loop files the block's record under its name |
| VrfReport.WalkVrfs | roles/cisco/library/cisco_gather_facts.py:429-449 | the walk gives the dictionary the report specifies, or fails where the source raises |
| VrfReport.ParseVrfReport | roles/cisco/library/cisco_gather_facts.py:426-449 | the VRF dictionary of the output, its last line popped |
| VrfReport.VrfsFail | roles/cisco/library/cisco_gather_facts.py:441 | a report fails exactly when a line from index 3 on is shorter than four characters |
| VrfReport.VrfKeys | roles/cisco/library/cisco_gather_facts.py:449 | the keys are the block names |
| VrfReport.VrfLastWins | roles/cisco/library/cisco_gather_facts.py:449 | a name maps to the last block with that name |
| VrfReport.VrfBlocksCover | roles/cisco/library/cisco_gather_facts.py:434-447 | every line after the column titles belongs to one block, in report order |
| VrfReport.VrfLineRoundTrip | roles/cisco/library/cisco_gather_facts.py:323-327 | a start line with the distinguisher at column 35 and the interface at column 55 gives all three back |
| VrfReport.VrfContinuationRoundTrip | roles/cisco/library/cisco_gather_facts.py:327 | a continuation line continues the block and gives its interface |
| SystemReport.VersionImage | roles/cisco/library/cisco_gather_facts.py:387-389 | the image of the last line with `System image`, and none when no line has it |
| SystemReport.ParseVersionReport | roles/cisco/library/cisco_gather_facts.py:385-389 | the loop over every line computes that image |
| SystemReport.VersionLastWins | roles/cisco/library/cisco_gather_facts.py:388-389 | a later image line overrides the image; another line leaves it |
| SystemReport.ImageRoundTrip | roles/cisco/library/cisco_gather_facts.py:389 | the 28 leading columns and the closing quote and carriage return are cut off |
| SystemReport.VersionReportRoundTrip | roles/cisco/library/cisco_gather_facts.py:387-389 | `System image file is "disk0:<image>"` as the last image line names that image |
| SystemReport.HostnameOf | roles/cisco/library/cisco_gather_facts.py:455 | there is a hostname exactly when the output has a second line |
| SystemReport.HostnameRoundTrip | roles/cisco/library/cisco_gather_facts.py:455 | `hostname <name>` after the echo gives the name back |
| Transport.Session.Command | roles/cisco/library/cisco_gather_facts.py:337 | a command is appended to the log and answered by the router |
| Transport.Session.Close | roles/cisco/library/cisco_gather_facts.py:459 | closing keeps the log and leaves the session closed |
| GatherFacts.Stopped | roles/cisco/library/cisco_gather_facts.py:332-467 | a run stopped at command k failed at that command, sent the script up to it and left the session open |
| GatherFacts.FactsRun | roles/cisco/library/cisco_gather_facts.py:332-467 | a run succeeds exactly when it closed the session, and it then sent the whole script and `end`; a failed run stopped right after the summary, distinguisher, interface, VRF or hostname command, with the session open |
| GatherFacts.Ask | roles/cisco/library/cisco_gather_facts.py:337 | sending command k of the script after those before it gives the router's reply |
| GatherFacts.CollectFacts | roles/cisco/library/cisco_gather_facts.py:332-467 | `facts()` returns the run's result, including the failure at the distinguisher command, sends its commands and closes exactly when it succeeds |
| GatherFacts.CollectAfterSummary | roles/cisco/library/cisco_gather_facts.py:368-420 | the distinguisher loop as written (failing on a reply without a line break), then the version and interface steps |
| GatherFacts.CollectAfterInterfaces | roles/cisco/library/cisco_gather_facts.py:424-467 | the VRF and hostname steps, `end` and the close |
| GatherFacts.FactsRunSucceeds | roles/cisco/library/cisco_gather_facts.py:332-467 | the run succeeds exactly when the summary can be read, the distinguisher reply has a line break, the interfaces and VRFs can be walked and the hostname output has a second line |
| GatherFacts.FactsRunFields | roles/cisco/library/cisco_gather_facts.py:461-467 | each fact is the parse of the reply to its own command; the distinguishers are those of the loop as written, `[""]` for an empty listing |
| GatherFacts.StoppedRun | roles/cisco/library/cisco_gather_facts.py:455-459 | a failed run never sends `end`, and failed at the summary, distinguisher, interface, VRF or hostname command |
| ExecCommands.MarkerIsPrefix | roles/cisco/library/cisco_exec_commands.py:68 | a marker line is one whose first two characters are `%` and a space |
| ExecCommands.FirstMarker | roles/cisco/library/cisco_exec_commands.py:67-69 | the first marker line, and the end exactly when the reply is accepted |
| ExecCommands.ErrmsgTrailsByTwo | roles/cisco/library/cisco_exec_commands.py:65-71 | a marker at index k of at least 2 leaves `errmsg` at line k-2 |
| ExecCommands.ErrmsgAccepted | roles/cisco/library/cisco_exec_commands.py:65-73 | an accepted reply leaves `errmsg` at its next-to-last line |
| ExecCommands.ErrmsgOnInvalidInput | roles/cisco/library/cisco_exec_commands.py:65-71 | for the IOS invalid-input reply, `errmsg` is the echoed command, not the caret line |
| ExecCommands.RunListAllAccepted | roles/cisco/library/cisco_exec_commands.py:80-84 | the list succeeds exactly when every command's reply is accepted |
| ExecCommands.RunListSendsAll | roles/cisco/library/cisco_exec_commands.py:80-84 | a successful list has sent every command, in order |
| ExecCommands.RunListFailFast | roles/cisco/library/cisco_exec_commands.py:80-82 | a failed list stops right after the first rejected command, all earlier ones accepted |
| ExecCommands.FailureMessage | roles/cisco/library/cisco_exec_commands.py:120 | the message is 17 characters longer than `errmsg` |
| ExecCommands.FailureMessageQuotes | roles/cisco/library/cisco_exec_commands.py:120 | the message is `Command error: "`, `errmsg` whole, and a closing quote |
| ExecCommands.CommandRunner.constructor | roles/cisco/library/cisco_exec_commands.py:61 | `errmsg` starts empty |
| ExecCommands.CommandRunner.ExecuteCommand | roles/cisco/library/cisco_exec_commands.py:63-73 | sends the command; accepted exactly when no reply line is a marker; `errmsg` as the scan leaves it |
| ExecCommands.CommandRunner.ExecuteCommandList | roles/cisco/library/cisco_exec_commands.py:76-84 | the commands in order, stopping at the first rejected one |
| ExecCommands.CommandRunner.RunCommandFile | roles/cisco/library/cisco_exec_commands.py:113-123 | runs the list, then sends `end` and closes whatever happened; fails quoting `errmsg` exactly when a command was rejected |
| SerialConsole.Resolve | roles/serialConnectedCisco/library/cisco-serial.py:117-140 | an option is kept when given and non-empty, else the default; a truthy default gives a truthy setting |
| SerialConsole.ResolveOptions | roles/serialConnectedCisco/library/cisco-serial.py:117-140 | every resolved setting is truthy |
| SerialConsole.GivenOptionKept | roles/serialConnectedCisco/library/cisco-serial.py:117-118 | a non-empty option is kept as given |
| SerialConsole.DefaultsWhenAbsent | roles/serialConnectedCisco/library/cisco-serial.py:117-140 | with no options the port is `/dev/ttyS0`, 9600 baud, parity N, 1 stop bit, 8 data bits, timeout 8; an empty option counts as absent |
| SerialConsole.ResolveIdempotent | roles/serialConnectedCisco/library/cisco-serial.py:117-140 | resolving a resolved setting again changes nothing |
| SerialConsole.Classify | roles/serialConnectedCisco/library/cisco-serial.py:94-99 | rejected exactly when the output contains `% Invalid`, carrying the whole output; otherwise an empty message |
| SerialConsole.AmbiguousCommandDiffers | roles/serialConnectedCisco/library/cisco-serial.py:97 | an ambiguous-command complaint is rejected by the SSH rule and accepted by the serial rule |
| SerialConsole.InvalidMidLineDiffers | roles/serialConnectedCisco/library/cisco-serial.py:97 | `% Invalid` in the middle of a line is accepted by the SSH rule and rejected by the serial rule |
| SerialConsole.InvalidInputRejectedByBoth | roles/serialConnectedCisco/library/cisco-serial.py:97 | a line starting with `% Invalid` is rejected by both rules |
| SerialConsole.Terminated | roles/serialConnectedCisco/library/cisco-serial.py:95 | every command is written with a carriage return |
| SerialConsole.CommandLoopAllPassed | roles/serialConnectedCisco/library/cisco-serial.py:157-160 | the loop gets through exactly when no command's output reports invalid input |
| SerialConsole.CommandLoopWritesAll | roles/serialConnectedCisco/library/cisco-serial.py:157-160 | a loop that gets through has written every command, in order |
| SerialConsole.CommandLoopFailFast | roles/serialConnectedCisco/library/cisco-serial.py:157-160 | a rejection ends the loop at once: earlier commands passed, nothing later is written, and the failure message is that output |
| SerialConsole.CommandLoopPrefix | roles/serialConnectedCisco/library/cisco-serial.py:157-160 | the loop only adds to the log, and a rejection writes at least one command |
| SerialConsole.Console | roles/serialConnectedCisco/library/cisco-serial.py:142-165 | an unopened port fails with `Serial port cannot be opened` and nothing written; otherwise the setup is written first; success exactly when the port ends closed |
| SerialConsole.SerialPort.constructor | roles/serialConnectedCisco/library/cisco-serial.py:142 | the port has the resolved settings and nothing written |
| SerialConsole.SerialPort.Write | roles/serialConnectedCisco/library/cisco-serial.py:95 | the data is appended to what was written |
| SerialConsole.SerialPort.ReadOutput | roles/serialConnectedCisco/library/cisco-serial.py:79-90 | the output is the console's answer to what was written |
| SerialConsole.SerialPort.Close | roles/serialConnectedCisco/library/cisco-serial.py:164 | the port is closed and the log kept |
| SerialConsole.ExecuteCommand | roles/serialConnectedCisco/library/cisco-serial.py:93-99 | writes the command and a carriage return, then classifies the output |
| SerialConsole.RunConsole | roles/serialConnectedCisco/library/cisco-serial.py:116-165 | opens the port with the resolved options and does what `Console` specifies: the outcome, what was written, whether the port is open |

## Left out

- The SSH connection, login and `set_enable` (`netlib`) are not part of this model. A session is a log of sent commands and a router's fixed reply function of that log, so a router whose answers depend on earlier commands is covered.
- `read_output` polls `inWaiting` with one-second sleeps. The model reads the console's whole answer to what was written at once; the timing is not modelled.
- Reading the command file is left out. The commands are a parameter. The trailing newline `readlines` keeps is part of each command's text.
- Ansible glue is left out: `AnsibleModule`, argument parsing, `exit_json` and `fail_json` as process exits. The outcome is a value. `exit_json` in `cisco_exec_commands` also returns the username and the passwords; those fields are not modelled.
- `netaddr.IPNetwork` is modelled only for canonical `a.b.c.d/n` with octets below 256 and a prefix of at most 32. Every other spelling it accepts (a bare address, leading zeros, a netmask after the slash, IPv6) is treated as an error.
- Python exceptions are not distinguished from one another. Each becomes `None` for the report, or a failed run naming the command whose reply raised.
- Option values keep their text: `baudrate=19200` is the text `19200`, not a number, as the source passes it unconverted to `serial.Serial`.
- Whether the serial device opens is a parameter of the port's constructor.

## Findings

| source | as written | input that shows it | evidently intended | confidence | as-written member | corrected member |
|---|---|---|---|---|---|---|
| roles/cisco/library/cisco_gather_facts.py:372-377 | the route-distinguisher loop is a do-while from index 1 that tests `counter > numLines - 2` only after taking a line | a reply with no distinguisher, `["<echo>", "R1#"]`, gives `[""]`: the prompt is taken as a distinguisher | one distinguisher per line between the echo and the prompt, none for an empty listing (`BgpReport.RdList`, computed by `BgpReport.CollectRd`); the run of `ciscoRouter.facts` keeps the loop as written | not executed | BgpReport.RdAsWrittenWithoutEntries | BgpReport.RdReportRoundTrip |
