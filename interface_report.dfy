/**
 * The `show interfaces` report: cutting it into one block per interface and
 * turning each block into a sparse record of fields (`interfaceBlockManipulate`
 * and the segmentation loop of `ciscoRouter.facts`).
 *
 * A report line looks like `  Hardware is Gigabit Ethernet, address is ...\r`:
 * continuation lines are indented and every line still carries the '\r' of
 * the device's line ending, which is why the fields are cut with `[..:-1]`.
 */
module InterfaceReport {
  import opened Wrappers
  import opened PyStr
  import opened Ipv4
  import opened Blocks

  /** The dictionary built for one interface: a key is present only when
      some line of the block carries its marker. */
  datatype Interface = Interface(
    name: Option<string>,
    status: Option<string>,
    hardware: Option<string>,
    ip: Option<string>,
    mask: Option<string>,
    mtu: Option<string>,
    mac: Option<string>,
    encapsulation: Option<string>,
    vlanid: Option<string>)

  const NoFields := Interface(None, None, None, None, None, None, None, None, None)

  const ProtocolMarker := "line protocol is"
  const HardwareMarker := "Hardware is "
  const AddressMarker := "Internet address is"
  const MtuMarker := "MTU"
  const MacMarker := "Internal MAC"
  const EncapsulationMarker := "Encapsulation"
  const VlanMarker := "Vlan ID "

  // ---------------------------------------------------------------------
  // Field extraction, one line at a time

  /** The interface name: the header line up to its first space. */
  function HeaderName(line: string): string
  {
    Slice(line, 0, Find(line, " ", 0))
  }

  /** `<state>/<protocol>`: the text between the name's ` is ` and the first
      comma, a slash, and the text after `, line protocol is ` without the
      final character, with surrounding whitespace removed. */
  function HeaderStatus(line: string): string
  {
    var first := |HeaderName(line)| + 4;
    var comma := Find(line, ",", 0);
    Strip(Slice(line, first, comma) + "/" + Slice(line, comma + 19, -1))
  }

  function HardwareOf(line: string): string
  {
    Slice(line, 14, Find(line, " ", 14))
  }

  /** The network written after `Internet address is`, without the final character. */
  function AddressField(line: string): Option<Network>
  {
    ParseNetwork(Slice(line, 22, -1))
  }

  /** A line that carries the address marker but no well-formed `a.b.c.d/n`
      (netaddr raises on it). */
  predicate BadAddressLine(line: string)
  {
    Contains(line, AddressMarker) && AddressField(line).None?
  }

  function IpOf(line: string): string
  {
    match AddressField(line)
    case Some(n) => AddressText(n.address)
    case None => ""
  }

  function MaskOf(line: string): string
  {
    match AddressField(line)
    case Some(n) => AddressText(Netmask(n.prefix))
    case None => ""
  }

  function MtuOf(line: string): string
  {
    Slice(line, 6, Find(line, " ", 6))
  }

  /** At most 14 characters, starting 11 after the first `address is`. */
  function MacOf(line: string): (r: string)
    ensures |r| <= 14
  {
    var b := Find(line, "address is", 0) + 11;
    Slice(line, b, b + 14)
  }

  function EncapsulationOf(line: string): string
  {
    Slice(line, 16, Find(line, ",", 0))
  }

  function VlanOf(line: string): string
  {
    var b := Find(line, "Vlan ID", 0) + 9;
    Slice(line, b, Find(line, ".", b))
  }

  /** Which markers a line carries. */
  datatype Markers = Markers(protocol: bool, hardware: bool, address: bool, mtu: bool,
                             mac: bool, encapsulation: bool, vlan: bool)

  function MarkersOf(line: string): Markers
  {
    Markers(Contains(line, ProtocolMarker), Contains(line, HardwareMarker), Contains(line, AddressMarker),
            Contains(line, MtuMarker), Contains(line, MacMarker), Contains(line, EncapsulationMarker),
            Contains(line, VlanMarker))
  }

  /** The marker tests of the loop body, in order: each is an independent
      `if`, so one line may set several keys. */
  function Update(acc: Interface, m: Markers, line: string): Interface
  {
    var a1 := if m.protocol then acc.(name := Some(HeaderName(line)), status := Some(HeaderStatus(line))) else acc;
    var a2 := if m.hardware then a1.(hardware := Some(HardwareOf(line))) else a1;
    var a3 := if m.address then a2.(ip := Some(IpOf(line)), mask := Some(MaskOf(line))) else a2;
    var a4 := if m.mtu then a3.(mtu := Some(MtuOf(line))) else a3;
    var a5 := if m.mac then a4.(mac := Some(MacOf(line))) else a4;
    var a6 := if m.encapsulation then a5.(encapsulation := Some(EncapsulationOf(line))) else a5;
    if m.vlan then a6.(vlanid := Some(VlanOf(line))) else a6
  }

  /** One pass of the loop body over a line; a bad address makes the whole
      block fail. */
  function ApplyLine(acc: Interface, line: string): Option<Interface>
  {
    if BadAddressLine(line) then None else Some(Update(acc, MarkersOf(line), line))
  }

  /** The record built from a whole block, line after line. */
  function FoldBlock(block: seq<string>): Option<Interface>
  {
    if block == [] then Some(NoFields)
    else
      match FoldBlock(block[..|block| - 1])
      case None => None
      case Some(acc) => ApplyLine(acc, block[|block| - 1])
  }

  /** The value a key ends with: the extraction applied to the last line of
      the block that carries the marker, or no key at all. */
  function FieldOf(block: seq<string>, marker: string, extract: string -> string): Option<string>
  {
    match LastMatch(block, marker)
    case None => None
    case Some(k) => Some(extract(block[k]))
  }

  /** `interfaceBlockManipulate`. */
  method InterfaceBlockManipulate(block: seq<string>) returns (r: Option<Interface>)
    ensures r == FoldBlock(block)
  {
    var interface := NoFields;
    for i := 0 to |block|
      invariant FoldBlock(block[..i]) == Some(interface)
    {
      var line := block[i];
      assert block[..i + 1][..i] == block[..i];
      ghost var before := interface;
      if Contains(line, ProtocolMarker) {
        var name := HeaderName(line);
        interface := interface.(name := Some(name), status := Some(HeaderStatus(line)));
      }
      if Contains(line, HardwareMarker) {
        interface := interface.(hardware := Some(HardwareOf(line)));
      }
      if Contains(line, AddressMarker) {
        var ip := AddressField(line);
        if ip.None? {
          FoldBlockFails(block);
          return None;
        }
        interface := interface.(ip := Some(AddressText(ip.value.address)),
                                mask := Some(AddressText(Netmask(ip.value.prefix))));
      }
      if Contains(line, MtuMarker) {
        interface := interface.(mtu := Some(MtuOf(line)));
      }
      if Contains(line, MacMarker) {
        interface := interface.(mac := Some(MacOf(line)));
      }
      if Contains(line, EncapsulationMarker) {
        interface := interface.(encapsulation := Some(EncapsulationOf(line)));
      }
      if Contains(line, VlanMarker) {
        interface := interface.(vlanid := Some(VlanOf(line)));
      }
      assert ApplyLine(before, line) == Some(interface);
    }
    assert block[..|block|] == block;
    return Some(interface);
  }

  /** A block fails exactly when one of its lines has an address that is not
      a well-formed `a.b.c.d/n`. */
  lemma {:induction false} FoldBlockFails(block: seq<string>)
    ensures FoldBlock(block).None? <==> exists k | 0 <= k < |block| :: BadAddressLine(block[k])
  {
    if block != [] {
      var init := block[..|block| - 1];
      FoldBlockFails(init);
      assert forall k | 0 <= k < |init| :: init[k] == block[k];
    }
  }

  /** Every key holds the extraction of the last line carrying its marker, and
      is absent when no line carries it. */
  lemma {:induction false} FoldBlockFields(block: seq<string>)
    requires FoldBlock(block).Some?
    ensures var i := FoldBlock(block).value;
      && i.name == FieldOf(block, ProtocolMarker, HeaderName)
      && i.status == FieldOf(block, ProtocolMarker, HeaderStatus)
      && i.hardware == FieldOf(block, HardwareMarker, HardwareOf)
      && i.ip == FieldOf(block, AddressMarker, IpOf)
      && i.mask == FieldOf(block, AddressMarker, MaskOf)
      && i.mtu == FieldOf(block, MtuMarker, MtuOf)
      && i.mac == FieldOf(block, MacMarker, MacOf)
      && i.encapsulation == FieldOf(block, EncapsulationMarker, EncapsulationOf)
      && i.vlanid == FieldOf(block, VlanMarker, VlanOf)
  {
    if block != [] {
      var init, line := block[..|block| - 1], block[|block| - 1];
      assert block == init + [line];
      FoldBlockFields(init);
      ApplyLineFields(FoldBlock(init).value, line);
      FieldOfAppend(init, line, ProtocolMarker, HeaderName);
      FieldOfAppend(init, line, ProtocolMarker, HeaderStatus);
      FieldOfAppend(init, line, HardwareMarker, HardwareOf);
      FieldOfAppend(init, line, AddressMarker, IpOf);
      FieldOfAppend(init, line, AddressMarker, MaskOf);
      FieldOfAppend(init, line, MtuMarker, MtuOf);
      FieldOfAppend(init, line, MacMarker, MacOf);
      FieldOfAppend(init, line, EncapsulationMarker, EncapsulationOf);
      FieldOfAppend(init, line, VlanMarker, VlanOf);
    }
  }

  /** What one line does to each key: set it when the line carries the
      marker, leave it alone otherwise. */
  lemma ApplyLineFields(acc: Interface, line: string)
    requires ApplyLine(acc, line).Some?
    ensures var i := ApplyLine(acc, line).value;
      && i.name == (if Contains(line, ProtocolMarker) then Some(HeaderName(line)) else acc.name)
      && i.status == (if Contains(line, ProtocolMarker) then Some(HeaderStatus(line)) else acc.status)
      && i.hardware == (if Contains(line, HardwareMarker) then Some(HardwareOf(line)) else acc.hardware)
      && i.ip == (if Contains(line, AddressMarker) then Some(IpOf(line)) else acc.ip)
      && i.mask == (if Contains(line, AddressMarker) then Some(MaskOf(line)) else acc.mask)
      && i.mtu == (if Contains(line, MtuMarker) then Some(MtuOf(line)) else acc.mtu)
      && i.mac == (if Contains(line, MacMarker) then Some(MacOf(line)) else acc.mac)
      && i.encapsulation == (if Contains(line, EncapsulationMarker) then Some(EncapsulationOf(line)) else acc.encapsulation)
      && i.vlanid == (if Contains(line, VlanMarker) then Some(VlanOf(line)) else acc.vlanid)
  {
    UpdateFields(acc, MarkersOf(line), line);
  }

  lemma UpdateFields(acc: Interface, m: Markers, line: string)
    ensures var i := Update(acc, m, line);
      && i.name == (if m.protocol then Some(HeaderName(line)) else acc.name)
      && i.status == (if m.protocol then Some(HeaderStatus(line)) else acc.status)
      && i.hardware == (if m.hardware then Some(HardwareOf(line)) else acc.hardware)
      && i.ip == (if m.address then Some(IpOf(line)) else acc.ip)
      && i.mask == (if m.address then Some(MaskOf(line)) else acc.mask)
      && i.mtu == (if m.mtu then Some(MtuOf(line)) else acc.mtu)
      && i.mac == (if m.mac then Some(MacOf(line)) else acc.mac)
      && i.encapsulation == (if m.encapsulation then Some(EncapsulationOf(line)) else acc.encapsulation)
      && i.vlanid == (if m.vlan then Some(VlanOf(line)) else acc.vlanid)
  {
  }

  lemma FieldOfAppend(init: seq<string>, line: string, marker: string, extract: string -> string)
    ensures FieldOf(init + [line], marker, extract)
      == if Contains(line, marker) then Some(extract(line)) else FieldOf(init, marker, extract)
  {
    LastMatchAppend(init, line, marker);
    if !Contains(line, marker) && LastMatch(init, marker).Some? {
      assert (init + [line])[LastMatch(init, marker).value] == init[LastMatch(init, marker).value];
    }
  }

  /** The address field of a good block: the IP text and the mask with as many
      leading one bits as the prefix length (section 3.1 of RFC 4632). */
  lemma AddressLineFields(line: string)
    requires Contains(line, AddressMarker) && !BadAddressLine(line)
    ensures var n := AddressField(line).value;
      && IpOf(line) == AddressText(n.address)
      && MaskOf(line) == AddressText(Netmask(n.prefix))
      && Bits(Netmask(n.prefix), 32) == LeadingOnes(32, n.prefix)
      && NetworkText(n) == Slice(line, 22, -1)
  {
    var n := AddressField(line).value;
    NetmaskLeadingOnes(n.prefix);
    NetworkCanonical(Slice(line, 22, -1));
  }

  // ---------------------------------------------------------------------
  // Each field read back from the line the device prints for it

  /** `<name> is <state>, line protocol is <protocol>\r` gives the name and
      `<state>/<protocol>`. */
  lemma HeaderRoundTrip(name: string, state: string, proto: string)
    requires ' ' !in name && ',' !in name && ',' !in state
    requires state != [] && !IsSpace(state[0])
    requires proto != [] && !IsSpace(proto[|proto| - 1])
    ensures var line := name + " is " + state + ", line protocol is " + proto + "\r";
      && Contains(line, ProtocolMarker)
      && HeaderName(line) == name
      && HeaderStatus(line) == state + "/" + proto
  {
    HeaderMarker(name, state, proto);
    HeaderNameRoundTrip(name, state, proto);
    HeaderStatusRoundTrip(name, state, proto);
  }

  lemma HeaderStatusRoundTrip(name: string, state: string, proto: string)
    requires ' ' !in name && ',' !in name && ',' !in state
    requires state != [] && !IsSpace(state[0])
    requires proto != [] && !IsSpace(proto[|proto| - 1])
    ensures HeaderStatus(name + " is " + state + ", line protocol is " + proto + "\r") == state + "/" + proto
  {
    var line := name + " is " + state + ", line protocol is " + proto + "\r";
    HeaderNameRoundTrip(name, state, proto);
    HeaderComma(name, state, proto);
    var comma := |name| + 4 + |state|;
    assert line == (name + " is ") + state + ", line protocol is " + proto + "\r";
    StatusSlices(name + " is ", state, ", line protocol is ", proto);
    assert Slice(line, |name| + 4, comma) == state;
    assert Slice(line, comma + 19, -1) == proto;
    StatusOfParts(line, name, comma);
    var status := state + "/" + proto;
    assert status[0] == state[0] && status[|status| - 1] == proto[|proto| - 1];
    StripIdentity(status);
  }

  /** The state sits between the head and the 19 columns before the
      protocol, and the protocol runs up to the final character. */
  lemma StatusSlices(head: string, state: string, middle: string, proto: string)
    requires |middle| == 19
    ensures var line := head + state + middle + proto + "\r";
      && Slice(line, |head|, |head| + |state|) == state
      && Slice(line, |head| + |state| + 19, -1) == proto
  {
    var line := head + state + middle + proto + "\r";
    var p := |head| + |state| + 19;
    assert line[|head|..|head| + |state|] == state;
    SliceDropLast(line, p, 1);
    assert line[p..|line| - 1] == proto;
  }

  /** The first comma of a header line is the one after the state. */
  lemma HeaderComma(name: string, state: string, proto: string)
    requires ',' !in name && ',' !in state
    ensures Find(name + " is " + state + ", line protocol is " + proto + "\r", ",", 0) == |name| + 4 + |state|
  {
    var head := name + " is " + state;
    var tail := " line protocol is " + proto + "\r";
    assert name + " is " + state + ", line protocol is " + proto + "\r" == head + [','] + tail;
    assert forall k | 0 <= k < |name| :: head[k] == name[k];
    assert forall k | |name| + 4 <= k < |head| :: head[k] == state[k - |name| - 4];
    FindCharAfter(head, ',', tail, 0);
  }

  lemma HeaderNameRoundTrip(name: string, state: string, proto: string)
    requires ' ' !in name
    ensures HeaderName(name + " is " + state + ", line protocol is " + proto + "\r") == name
  {
    var tail := "is " + state + ", line protocol is " + proto + "\r";
    assert name + " is " + state + ", line protocol is " + proto + "\r" == "" + name + [' '] + tail;
    FieldUpTo("", name, ' ', tail, 0);
  }

  lemma HeaderMarker(name: string, state: string, proto: string)
    ensures Contains(name + " is " + state + ", line protocol is " + proto + "\r", ProtocolMarker)
  {
    var line := name + " is " + state + ", line protocol is " + proto + "\r";
    assert line == (name + " is " + state + ", ") + ProtocolMarker + (" " + proto + "\r");
    ContainsInside(name + " is " + state + ", ", ProtocolMarker, " " + proto + "\r");
  }

  /** The status is cut at the name's end and at the first comma. */
  lemma StatusOfParts(line: string, name: string, comma: int)
    requires HeaderName(line) == name && Find(line, ",", 0) == comma
    ensures HeaderStatus(line) == Strip(Slice(line, |name| + 4, comma) + "/" + Slice(line, comma + 19, -1))
  {
  }

  /** `  Hardware is <kind> ...` gives the kind, up to its first space. */
  lemma HardwareRoundTrip(kind: string, rest: string)
    requires ' ' !in kind
    ensures var line := "  Hardware is " + kind + " " + rest;
      Contains(line, HardwareMarker) && HardwareOf(line) == kind
  {
    var line := "  Hardware is " + kind + " " + rest;
    assert line == "  " + HardwareMarker + (kind + " " + rest);
    ContainsInside("  ", HardwareMarker, kind + " " + rest);
    assert line == "  Hardware is " + kind + [' '] + rest;
    FieldUpTo("  Hardware is ", kind, ' ', rest, 14);
  }

  /** `  Internet address is a.b.c.d/n\r` gives the address and the mask of
      the prefix length. */
  lemma AddressRoundTrip(n: Network)
    requires ValidNetwork(n)
    ensures var line := "  Internet address is " + NetworkText(n) + "\r";
      && Contains(line, AddressMarker) && !BadAddressLine(line)
      && IpOf(line) == AddressText(n.address)
      && MaskOf(line) == AddressText(Netmask(n.prefix))
  {
    var text := NetworkText(n);
    var line := "  Internet address is " + text + "\r";
    AddressFieldOf(text);
    NetworkRoundTrip(n);
    assert AddressField(line) == Some(n);
  }

  /** The address field is the text between the marker and the final character. */
  lemma AddressFieldOf(text: string)
    ensures var line := "  Internet address is " + text + "\r";
      Contains(line, AddressMarker) && AddressField(line) == ParseNetwork(text)
  {
    var line := "  Internet address is " + text + "\r";
    assert line == "  " + AddressMarker + (" " + text + "\r");
    ContainsInside("  ", AddressMarker, " " + text + "\r");
    SliceDropLast(line, 22, 1);
    assert line[22..|line| - 1] == text;
  }

  /** `  MTU <bytes> ...` gives the number, up to its first space. */
  lemma MtuRoundTrip(bytes: string, rest: string)
    requires ' ' !in bytes
    ensures var line := "  MTU " + bytes + " " + rest;
      Contains(line, MtuMarker) && MtuOf(line) == bytes
  {
    var line := "  MTU " + bytes + " " + rest;
    assert line == "  " + MtuMarker + (" " + bytes + " " + rest);
    ContainsInside("  ", MtuMarker, " " + bytes + " " + rest);
    assert line == "  MTU " + bytes + [' '] + rest;
    FieldUpTo("  MTU ", bytes, ' ', rest, 6);
  }

  /** `  Encapsulation <kind>, ...` gives the kind, up to the first comma. */
  lemma EncapsulationRoundTrip(kind: string, rest: string)
    requires ',' !in kind
    ensures var line := "  Encapsulation " + kind + "," + rest;
      Contains(line, EncapsulationMarker) && EncapsulationOf(line) == kind
  {
    var line := "  Encapsulation " + kind + "," + rest;
    assert line == "  " + EncapsulationMarker + (" " + kind + "," + rest);
    ContainsInside("  ", EncapsulationMarker, " " + kind + "," + rest);
    var head := "  Encapsulation ";
    assert line == head + kind + [','] + rest;
    assert forall k | 0 <= k < |head| :: head[k] != ',' by {
      assert ',' !in head;
    }
    FieldUpTo(head, kind, ',', rest, 0);
  }

  /** `...Vlan ID  <id>.` gives the id, up to the next full stop, when the
      first `Vlan ID` of the line is that one. */
  lemma VlanRoundTrip(before: string, id: string, rest: string)
    requires '.' !in id
    requires forall j | 0 <= j < |before| :: !OccursAt(before + "Vlan ID  " + id + "." + rest, "Vlan ID", j)
    ensures var line := before + "Vlan ID  " + id + "." + rest;
      Contains(line, VlanMarker) && VlanOf(line) == id
  {
    VlanCarried(before, id, rest);
    VlanField(before, id, rest);
  }

  lemma VlanCarried(before: string, id: string, rest: string)
    ensures Contains(before + "Vlan ID  " + id + "." + rest, VlanMarker)
  {
    assert before + "Vlan ID  " + id + "." + rest == before + VlanMarker + (" " + id + "." + rest);
    ContainsInside(before, VlanMarker, " " + id + "." + rest);
  }

  lemma VlanField(before: string, id: string, rest: string)
    requires '.' !in id
    requires forall j | 0 <= j < |before| :: !OccursAt(before + "Vlan ID  " + id + "." + rest, "Vlan ID", j)
    ensures VlanOf(before + "Vlan ID  " + id + "." + rest) == id
  {
    var line := before + "Vlan ID  " + id + "." + rest;
    assert line == before + "Vlan ID" + ("  " + id + "." + rest);
    FindFirstAt(before, "Vlan ID", "  " + id + "." + rest);
    assert line == (before + "Vlan ID  ") + id + ['.'] + rest;
    FieldUpTo(before + "Vlan ID  ", id, '.', rest, |before| + 9);
  }

  /** `...address is <mac>...` gives the 14 characters of the MAC address
      when the first `address is` of the line is that one. */
  lemma MacRoundTrip(before: string, mac: string, rest: string)
    requires |mac| == 14
    requires forall j | 0 <= j < |before| :: !OccursAt(before + "address is " + mac + rest, "address is", j)
    ensures MacOf(before + "address is " + mac + rest) == mac
  {
    var line := before + "address is " + mac + rest;
    assert line == before + "address is" + (" " + mac + rest);
    FindFirstAt(before, "address is", " " + mac + rest);
    var b := |before| + 11;
    assert line[b..b + 14] == mac;
  }

  // ---------------------------------------------------------------------
  // The whole report

  /** The shape the loop can walk without raising: a line after the command
      echo that starts a block (an indented one would be filed under a block
      that does not exist yet), no empty line, and an indented last line (a
      block header with nothing after it makes the inner loop read past the
      end). */
  predicate Walkable(lines: seq<string>)
  {
    && |lines| >= 2
    && (forall k | 1 <= k < |lines| :: lines[k] != [])
    && lines[1][0] != ' '
    && lines[|lines| - 1][0] == ' '
  }

  /** The dictionary key of a record. */
  function KeyOf(i: Interface): string
  {
    if i.name.Some? then i.name.value else ""
  }

  /** The record of every block, when every block parses and is named. */
  function Records(blocks: seq<seq<string>>): (r: Option<seq<Interface>>)
    ensures r.Some? <==> forall j | 0 <= j < |blocks| ::
      FoldBlock(blocks[j]).Some? && FoldBlock(blocks[j]).value.name.Some?
    ensures r.Some? ==> |r.value| == |blocks|
    ensures r.Some? ==> forall j | 0 <= j < |blocks| :: r.value[j] == FoldBlock(blocks[j]).value
  {
    if blocks == [] then Some([])
    else
      var first := FoldBlock(blocks[0]);
      var rest := Records(blocks[1..]);
      if first.Some? && first.value.name.Some? && rest.Some? then Some([first.value] + rest.value)
      else
        assert !(first.Some? && first.value.name.Some?) ==> !(FoldBlock(blocks[0]).Some? && FoldBlock(blocks[0]).value.name.Some?);
        None
  }

  /** The loop's accumulation: each block's record is filed under its name. */
  function Collect(blocks: seq<seq<string>>, acc: map<string, Interface>): Option<map<string, Interface>>
  {
    if blocks == [] then Some(acc)
    else
      match FoldBlock(blocks[0])
      case None => None
      case Some(i) => if i.name.None? then None else Collect(blocks[1..], acc[i.name.value := i])
  }

  /** The dictionary of interfaces the source builds, or nothing when it raises. */
  function ParseInterfaces(lines: seq<string>): Option<map<string, Interface>>
  {
    if !Walkable(lines) then None else Collect(BlocksFrom(lines, 1, 0), map[])
  }

  /** Processing the block at `start`, which ends at e. */
  lemma CollectStep(lines: seq<string>, start: nat, e: nat, acc: map<string, Interface>)
    requires start < e <= |lines|
    requires forall k | start < k < e :: Continues(lines[k], 0)
    requires e < |lines| ==> !Continues(lines[e], 0)
    ensures Collect(BlocksFrom(lines, start, 0), acc)
      == match FoldBlock(lines[start..e])
         case None => None
         case Some(i) => if i.name.None? then None else Collect(BlocksFrom(lines, e, 0), acc[i.name.value := i])
  {
    BlocksFromStep(lines, start, 0, e);
    var rest := BlocksFrom(lines, e, 0);
    assert ([lines[start..e]] + rest)[0] == lines[start..e] && ([lines[start..e]] + rest)[1..] == rest;
  }

  /** One pass of the outer loop: the header line at `start` and every
      following indented line; no block when a line it tests is empty or
      when the header is the last line (the inner loop reads past the end). */
  method ReadInterfaceBlock(lines: seq<string>, start: nat) returns (interfaceBlock: seq<string>, counter: nat, ok: bool)
    requires 1 <= start < |lines|
    requires forall k | 1 <= k < start :: lines[k] != []
    requires lines[1] != [] && lines[1][0] != ' '
    requires lines[start] != [] && lines[start][0] != ' '
    ensures ok ==> start < counter <= |lines| && interfaceBlock == lines[start..counter]
    ensures ok ==> forall k | start < k < counter :: lines[k] != [] && lines[k][0] == ' '
    ensures ok && counter < |lines| ==> lines[counter] != [] && lines[counter][0] != ' '
    ensures ok && counter == |lines| ==> counter > start + 1
    ensures !ok ==> !Walkable(lines)
  {
    var numLines := |lines|;
    interfaceBlock := [lines[start]];
    counter := start + 1;
    ok := true;
    while true
      invariant start < counter <= numLines
      invariant counter < numLines || counter == start + 1
      invariant interfaceBlock == lines[start..counter]
      invariant forall k | start < k < counter :: lines[k] != [] && lines[k][0] == ' '
      decreases numLines - counter
    {
      if counter >= numLines {
        ok := false;
        return;
      }
      var line := lines[counter];
      if line == [] {
        ok := false;
        return;
      }
      if line[0] == ' ' {
        interfaceBlock := interfaceBlock + [line];
        counter := counter + 1;
        assert interfaceBlock == lines[start..counter];
      } else {
        break;
      }
      if counter > numLines - 1 {
        assert counter > start + 1;
        break;
      }
    }
  }

  /** The interface part of `ciscoRouter.facts`. */
  method ParseInterfaceReport(output: string) returns (r: Option<map<string, Interface>>)
    ensures r == ParseInterfaces(ReportLines(output))
  {
    var report := Split(output, '\n');
    r := WalkInterfaces(report[..|report| - 1]);
  }

  /** The block walk over the popped report lines. */
  method WalkInterfaces(lines: seq<string>) returns (r: Option<map<string, Interface>>)
    ensures r == ParseInterfaces(lines)
  {
    var numLines := |lines|;
    var counter := 1;
    if numLines <= counter || lines[counter] == [] || lines[counter][0] == ' ' {
      return None;
    }
    var interfaces: map<string, Interface> := map[];
    while counter < numLines
      invariant 1 <= counter <= numLines
      invariant forall k | 1 <= k < counter :: lines[k] != []
      invariant lines[1] != [] && lines[1][0] != ' '
      invariant counter < numLines ==> lines[counter] != [] && lines[counter][0] != ' '
      invariant counter == numLines ==> lines[numLines - 1] != [] && lines[numLines - 1][0] == ' '
      invariant Walkable(lines) ==> ParseInterfaces(lines) == Collect(BlocksFrom(lines, counter, 0), interfaces)
      decreases numLines - counter
    {
      var start := counter;
      var interfaceBlock, ok;
      interfaceBlock, counter, ok := ReadInterfaceBlock(lines, start);
      if !ok {
        return None;
      }
      var interface := InterfaceBlockManipulate(interfaceBlock);
      CollectStep(lines, start, counter, interfaces);
      if interface.None? || interface.value.name.None? {
        return None;
      }
      interfaces := interfaces[interface.value.name.value := interface.value];
    }
    return Some(interfaces);
  }

  /** The accumulation files each block's record under its name, a later
      record replacing an earlier one with the same name. */
  lemma {:induction false} CollectIsIndex(blocks: seq<seq<string>>, acc: map<string, Interface>)
    ensures Collect(blocks, acc)
      == match Records(blocks)
         case None => None
         case Some(records) => Some(IndexInto(acc, records, KeyOf))
  {
    if blocks != [] {
      var first := FoldBlock(blocks[0]);
      if first.Some? && first.value.name.Some? {
        CollectIsIndex(blocks[1..], acc[first.value.name.value := first.value]);
        var rest := Records(blocks[1..]);
        if rest.Some? {
          var records := [first.value] + rest.value;
          assert records[1..] == rest.value;
        }
      }
    }
  }

  /** A report parses exactly when it is walkable and every block parses and
      is named; the dictionary then has one key per block name, and the
      record under a name is that of the last block with that name. */
  lemma InterfacesByName(lines: seq<string>, j: nat)
    requires Walkable(lines)
    ensures ParseInterfaces(lines).Some? <==> Records(BlocksFrom(lines, 1, 0)).Some?
    ensures ParseInterfaces(lines).Some? ==>
      var blocks := BlocksFrom(lines, 1, 0);
      var records := Records(blocks).value;
      && ParseInterfaces(lines).value.Keys == (set r | r in records :: KeyOf(r))
      && (j < |blocks| && (forall k | j < k < |blocks| :: KeyOf(records[k]) != KeyOf(records[j]))
          ==> ParseInterfaces(lines).value[KeyOf(records[j])] == FoldBlock(blocks[j]).value)
  {
    var blocks := BlocksFrom(lines, 1, 0);
    CollectIsIndex(blocks, map[]);
    if Records(blocks).Some? {
      var records := Records(blocks).value;
      IndexIntoKeys(map[], records, KeyOf);
      if j < |blocks| && (forall k | j < k < |blocks| :: KeyOf(records[k]) != KeyOf(records[j])) {
        IndexIntoLastWins(map[], records, KeyOf, j);
      }
    }
  }
}
