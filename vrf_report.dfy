/**
 * The `show ip vrf` report: one block per VRF, a start line giving the name
 * and default route distinguisher and one interface per line of the block
 * (`vrfBlockManipulate` and the VRF loop of `ciscoRouter.facts`).
 */
module VrfReport {
  import opened Wrappers
  import opened PyStr
  import opened Blocks

  datatype Vrf = Vrf(name: string, rd: string, interfaces: seq<string>)

  /** The interface column of a line: from column 55 up to the final character. */
  function InterfaceColumn(line: string): string
  {
    Slice(line, 55, -1)
  }

  /** The VRF name: from column 2 up to the first space after column 3. */
  function VrfNameOf(line: string): string
  {
    Slice(line, 2, Find(line, " ", 3))
  }

  /** The default distinguisher: from column 35 up to the next space. */
  function VrfRdOf(line: string): string
  {
    Slice(line, 35, Find(line, " ", 35))
  }

  /** One interface per line of the block, in order. */
  function InterfaceColumns(block: seq<string>): (r: seq<string>)
    ensures |r| == |block|
    ensures forall i | 0 <= i < |block| :: r[i] == InterfaceColumn(block[i])
  {
    seq(|block|, i requires 0 <= i < |block| => InterfaceColumn(block[i]))
  }

  /** The record of one block: name and distinguisher from its first line,
      one interface per line. */
  function VrfOf(block: seq<string>): Vrf
    requires |block| >= 1
  {
    Vrf(VrfNameOf(block[0]), VrfRdOf(block[0]), InterfaceColumns(block))
  }

  /** `vrfBlockManipulate`. */
  method VrfBlockManipulate(block: seq<string>) returns (v: Vrf)
    requires |block| >= 1
    ensures v == VrfOf(block)
    ensures |v.interfaces| == |block|
  {
    var name := Slice(block[0], 2, Find(block[0], " ", 3));
    var rd := Slice(block[0], 35, Find(block[0], " ", 35));
    var interfaces: seq<string> := [];
    for i := 0 to |block|
      invariant |interfaces| == i
      invariant forall k | 0 <= k < i :: interfaces[k] == InterfaceColumn(block[k])
    {
      interfaces := interfaces + [Slice(block[i], 55, -1)];
    }
    v := Vrf(name, rd, interfaces);
    assert interfaces == InterfaceColumns(block);
  }

  function VrfKey(v: Vrf): string
  {
    v.name
  }

  /** The records of a sequence of blocks. */
  function Vrfs(blocks: seq<seq<string>>): (r: seq<Vrf>)
    requires forall i | 0 <= i < |blocks| :: |blocks[i]| >= 1
    ensures |r| == |blocks|
  {
    if blocks == [] then [] else [VrfOf(blocks[0])] + Vrfs(blocks[1..])
  }

  lemma {:induction false} VrfsAt(blocks: seq<seq<string>>, j: nat)
    requires forall i | 0 <= i < |blocks| :: |blocks[i]| >= 1
    requires j < |blocks|
    ensures Vrfs(blocks)[j] == VrfOf(blocks[j])
  {
    if j > 0 {
      VrfsAt(blocks[1..], j - 1);
    }
  }

  /** The blocks of a report: from line 2 on (line 0 is the command echo,
      line 1 the column titles), a block continues with every line that has
      a space in column 3. */
  function VrfBlocks(lines: seq<string>): seq<seq<string>>
    requires |lines| >= 2
  {
    BlocksFrom(lines, 2, 3)
  }

  /** Every line the loop tests for a continuation is long enough to have a
      column 3 (a shorter one makes `line[3]` raise): every line from 3 on. */
  predicate VrfWalkable(lines: seq<string>)
  {
    forall k | 3 <= k < |lines| :: |lines[k]| >= 4
  }

  /** The dictionary of VRFs the source builds from the popped report lines,
      or nothing when it raises. */
  function ParseVrfs(lines: seq<string>): Option<map<string, Vrf>>
  {
    if |lines| <= 2 then Some(map[])
    else if !VrfWalkable(lines) then None
    else Some(IndexInto(map[], Vrfs(VrfBlocks(lines)), VrfKey))
  }

  /** Filing the block at `start`, which ends at e. */
  lemma VrfStep(lines: seq<string>, start: nat, e: nat, acc: map<string, Vrf>)
    requires start < e <= |lines|
    requires forall k | start < k < e :: Continues(lines[k], 3)
    requires e < |lines| ==> !Continues(lines[e], 3)
    ensures var v := VrfOf(lines[start..e]);
      IndexInto(acc, Vrfs(BlocksFrom(lines, start, 3)), VrfKey)
        == IndexInto(acc[v.name := v], Vrfs(BlocksFrom(lines, e, 3)), VrfKey)
  {
    BlocksFromStep(lines, start, 3, e);
    var block := lines[start..e];
    var rest := BlocksFrom(lines, e, 3);
    assert ([block] + rest)[1..] == rest;
    assert Vrfs([block] + rest) == [VrfOf(block)] + Vrfs(rest);
    IndexIntoCons(acc, VrfOf(block), Vrfs(rest), VrfKey);
  }

  /** One pass of the outer loop: the block that starts at `start` and every
      following line with a space in column 3; no block when a line it tests
      is too short to have a column 3. */
  method ReadVrfBlock(lines: seq<string>, start: nat) returns (vrfBlock: seq<string>, counter: nat, ok: bool)
    requires 2 <= start < |lines|
    ensures ok ==> start < counter <= |lines| && vrfBlock == lines[start..counter]
    ensures ok ==> forall k | start < k < counter :: Continues(lines[k], 3)
    ensures ok && counter < |lines| ==> |lines[counter]| >= 4 && !Continues(lines[counter], 3)
    ensures !ok ==> !VrfWalkable(lines)
  {
    var numLines := |lines|;
    vrfBlock := [lines[start]];
    counter := start + 1;
    ok := true;
    if counter < numLines {
      var line := lines[counter];
      while true
        invariant start < counter < numLines
        invariant vrfBlock == lines[start..counter]
        invariant line == lines[counter]
        invariant forall k | start < k < counter :: Continues(lines[k], 3)
        decreases numLines - counter
      {
        if |line| < 4 {
          ok := false;
          return;
        }
        if line[3] != ' ' {
          break;
        }
        vrfBlock := vrfBlock + [line];
        counter := counter + 1;
        assert vrfBlock == lines[start..counter];
        if counter < numLines {
          line := lines[counter];
        } else {
          break;
        }
      }
    }
  }

  /** The VRF part of `ciscoRouter.facts`. */
  method ParseVrfReport(output: string) returns (r: Option<map<string, Vrf>>)
    ensures r == ParseVrfs(ReportLines(output))
  {
    var report := Split(output, '\n');
    r := WalkVrfs(report[..|report| - 1]);
  }

  /** The block walk over the popped report lines. */
  method WalkVrfs(lines: seq<string>) returns (r: Option<map<string, Vrf>>)
    ensures r == ParseVrfs(lines)
  {
    var vrf: map<string, Vrf> := map[];
    var counter := 2;
    var numLines := |lines|;
    if numLines <= 2 {
      return Some(vrf);
    }
    ghost var all := IndexInto(map[], Vrfs(VrfBlocks(lines)), VrfKey);
    while counter < numLines
      invariant 2 <= counter <= numLines
      invariant forall k | 3 <= k < counter :: |lines[k]| >= 4
      invariant 2 < counter < numLines ==> |lines[counter]| >= 4
      invariant IndexInto(vrf, Vrfs(BlocksFrom(lines, counter, 3)), VrfKey) == all
      decreases numLines - counter
    {
      var ok;
      vrf, counter, ok := FileVrfBlock(lines, counter, vrf);
      if !ok {
        return None;
      }
    }
    assert BlocksFrom(lines, counter, 3) == [];
    assert VrfWalkable(lines) by { assert counter == numLines; }
    return Some(vrf);
  }

  /** One pass of the outer loop: read the block at `start` and file its
      record under its name. */
  method FileVrfBlock(lines: seq<string>, start: nat, vrf: map<string, Vrf>)
    returns (filed: map<string, Vrf>, counter: nat, ok: bool)
    requires 2 <= start < |lines|
    requires forall k | 3 <= k < start :: |lines[k]| >= 4
    requires start > 2 ==> |lines[start]| >= 4
    ensures ok ==> start < counter <= |lines|
    ensures ok ==> IndexInto(filed, Vrfs(BlocksFrom(lines, counter, 3)), VrfKey)
                   == IndexInto(vrf, Vrfs(BlocksFrom(lines, start, 3)), VrfKey)
    ensures ok ==> forall k | 3 <= k < counter :: |lines[k]| >= 4
    ensures ok && counter < |lines| ==> |lines[counter]| >= 4
    ensures !ok ==> !VrfWalkable(lines)
  {
    var vrfBlock;
    vrfBlock, counter, ok := ReadVrfBlock(lines, start);
    if !ok {
      return vrf, counter, ok;
    }
    var singleVrf := VrfBlockManipulate(vrfBlock);
    VrfStep(lines, start, counter, vrf);
    filed := vrf[singleVrf.name := singleVrf];
  }

  /** A report parses unless a line from 3 on is shorter than four characters. */
  lemma VrfsFail(lines: seq<string>)
    ensures ParseVrfs(lines).None? <==> exists k | 3 <= k < |lines| :: |lines[k]| < 4
  {
  }

  /** The dictionary has one key per block name. */
  lemma VrfKeys(lines: seq<string>)
    requires |lines| > 2 && VrfWalkable(lines)
    ensures ParseVrfs(lines).value.Keys == (set v | v in Vrfs(VrfBlocks(lines)) :: VrfKey(v))
  {
    IndexIntoKeys(map[], Vrfs(VrfBlocks(lines)), VrfKey);
  }

  /** The record under a name is that of the last block with that name. */
  lemma VrfLastWins(lines: seq<string>, j: nat)
    requires |lines| > 2 && VrfWalkable(lines)
    requires var vrfs := Vrfs(VrfBlocks(lines));
      j < |vrfs| && forall k | j < k < |vrfs| :: vrfs[k].name != vrfs[j].name
    ensures var v := VrfOf(VrfBlocks(lines)[j]);
      v.name in ParseVrfs(lines).value && ParseVrfs(lines).value[v.name] == v
  {
    VrfsAt(VrfBlocks(lines), j);
    IndexIntoLastWins(map[], Vrfs(VrfBlocks(lines)), VrfKey, j);
  }

  /** Every line after the column titles belongs to exactly one VRF, in
      report order, so the interface lists together have one entry per line. */
  lemma VrfBlocksCover(lines: seq<string>)
    requires |lines| >= 2
    ensures Flatten(VrfBlocks(lines)) == lines[2..]
  {
    BlocksPartition(lines, 2, 3);
  }

  /** A start line `  <name><spaces><rd><spaces><interface>\r` with the
      distinguisher at column 35 and the interface at column 55 gives all
      three back. */
  lemma VrfLineRoundTrip(name: string, pad1: string, rd: string, pad2: string, interface: string)
    requires name != [] && ' ' !in name && ' ' !in rd
    requires 2 + |name| + |pad1| == 35 && pad1 != [] && forall c <- pad1 :: c == ' '
    requires 35 + |rd| + |pad2| == 55 && pad2 != [] && forall c <- pad2 :: c == ' '
    ensures VrfOf(["  " + name + pad1 + rd + pad2 + interface + "\r"]) == Vrf(name, rd, [interface])
  {
    var line := "  " + name + pad1 + rd + pad2 + interface + "\r";
    assert pad1[0] in pad1 && pad2[0] in pad2;
    assert line == "  " + name + pad1 + (rd + pad2 + interface + "\r");
    VrfNameAt(name, pad1, rd + pad2 + interface + "\r");
    assert VrfNameOf(line) == name;
    assert line == ("  " + name + pad1) + rd + pad2 + (interface + "\r");
    VrfRdAt("  " + name + pad1, rd, pad2, interface + "\r");
    assert VrfRdOf(line) == rd;
    assert line == ("  " + name + pad1 + rd + pad2) + interface + "\r";
    VrfContinuationRoundTrip("  " + name + pad1 + rd + pad2, interface);
    assert InterfaceColumns([line]) == [interface];
  }

  lemma VrfNameAt(name: string, pad: string, rest: string)
    requires name != [] && ' ' !in name && pad != [] && pad[0] == ' '
    ensures Slice("  " + name + pad + rest, 2, Find("  " + name + pad + rest, " ", 3)) == name
  {
    var line := "  " + name + pad + rest;
    assert line == ("  " + name) + [' '] + (pad[1..] + rest);
    assert forall k | 3 <= k < 2 + |name| :: line[k] == name[k - 2];
    FindCharAfter("  " + name, ' ', pad[1..] + rest, 3);
    assert line[2..2 + |name|] == name;
  }

  lemma VrfRdAt(head: string, rd: string, pad: string, rest: string)
    requires |head| == 35 && ' ' !in rd && pad != [] && pad[0] == ' '
    ensures Slice(head + rd + pad + rest, 35, Find(head + rd + pad + rest, " ", 35)) == rd
  {
    var line := head + rd + pad + rest;
    assert line == (head + rd) + [' '] + (pad[1..] + rest);
    assert forall k | 35 <= k < 35 + |rd| :: line[k] == rd[k - 35];
    FindCharAfter(head + rd, ' ', pad[1..] + rest, 35);
    assert line[35..35 + |rd|] == rd;
  }

  /** A continuation line `<55 spaces><interface>\r` continues the block and
      gives the interface back. */
  lemma VrfContinuationRoundTrip(pad: string, interface: string)
    requires |pad| == 55
    ensures (forall c <- pad :: c == ' ') ==> Continues(pad + interface + "\r", 3)
    ensures InterfaceColumn(pad + interface + "\r") == interface
  {
    var line := pad + interface + "\r";
    assert pad[3] in pad;
    SliceDropLast(line, 55, 1);
    assert line[55..|line| - 1] == interface;
  }
}
