/**
 * The BGP part of `ciscoRouter.facts`: the `show ip bgp summary` report
 * (router identifier, local AS number and one record per neighbour row) and
 * the route distinguishers listed by `show ip bgp vpnv4 all | inc Route
 * Distinguisher`.
 */
module BgpReport {
  import opened Wrappers
  import opened PyStr
  import opened Blocks

  /** One neighbour row: its address (the dictionary key), the BGP version
      and the remote AS number, as text. */
  datatype Neighbor = Neighbor(neighbor: string, version: string, remoteAs: string)

  /** The summary: `identifier`, `AS` and the neighbour dictionary. */
  datatype Summary = Summary(identifier: string, localAs: string, neighbors: map<string, Neighbor>)

  // ---------------------------------------------------------------------
  // Field extraction

  /** The router identifier: from column 22 up to the first comma. */
  function IdentifierOf(line: string): string
  {
    Slice(line, 22, Find(line, ",", 0))
  }

  /** The local AS number: from 18 characters after the first comma up to
      the final character. */
  function LocalAsOf(line: string): string
  {
    Slice(line, Find(line, ",", 0) + 18, -1)
  }

  /** The column header line that precedes the neighbour rows. */
  predicate IsNeighborHeader(line: string)
  {
    Slice(line, 0, 8) == "Neighbor"
  }

  function RowOf(row: string): Neighbor
  {
    Neighbor(Slice(row, 0, Find(row, " ", 0)), Slice(row, 16, Find(row, " ", 16)), Slice(row, 18, Find(row, " ", 18)))
  }

  function NeighborKey(n: Neighbor): string
  {
    n.neighbor
  }

  // ---------------------------------------------------------------------
  // The summary report

  /** Where the neighbour rows start: just after the first column header
      line at index i or later, or the end of the report when there is none. */
  function RowsStart(lines: seq<string>, i: nat): (s: nat)
    requires i <= |lines|
    ensures i <= s <= |lines|
    ensures s == |lines| || (i < s && IsNeighborHeader(lines[s - 1]))
    ensures (s == |lines| && forall k | i <= k < |lines| :: !IsNeighborHeader(lines[k]))
            || (i < s && IsNeighborHeader(lines[s - 1]) && forall k | i <= k < s - 1 :: !IsNeighborHeader(lines[k]))
    decreases |lines| - i
  {
    if i == |lines| then i
    else if IsNeighborHeader(lines[i]) then i + 1
    else RowsStart(lines, i + 1)
  }

  /** The neighbour records of the rows lines[s..]. */
  function Rows(rows: seq<string>): (r: seq<Neighbor>)
    ensures |r| == |rows| && forall i | 0 <= i < |rows| :: r[i] == RowOf(rows[i])
  {
    MapSeq(RowOf, rows)
  }

  /** The summary the source builds from the popped report lines, or nothing
      when there is no line after the command echo (indexing raises). */
  function ParseSummary(lines: seq<string>): Option<Summary>
  {
    if |lines| < 2 then None
    else
      Some(Summary(IdentifierOf(lines[1]), LocalAsOf(lines[1]), IndexInto(map[], Rows(NeighborRows(lines)), NeighborKey)))
  }

  /** The summary part of `ciscoRouter.facts`: skip to the column header,
      then file every later row under its address. */
  method ParseSummaryReport(lines: seq<string>) returns (r: Option<Summary>)
    ensures r == ParseSummary(lines)
  {
    var numLines := |lines|;
    if numLines < 2 {
      return None;
    }
    var comma := Find(lines[1], ",", 0);
    var identifier := Slice(lines[1], 22, comma);
    var localAs := Slice(lines[1], comma + 18, -1);
    var neighbors: map<string, Neighbor>;
    var counter := SkipToNeighbors(lines);
    neighbors := FileNeighbors(lines[counter..]);
    return Some(Summary(identifier, localAs, neighbors));
  }

  /** The first loop: step past every line up to and including the first
      column header after the command echo. */
  method SkipToNeighbors(lines: seq<string>) returns (counter: nat)
    requires |lines| >= 1
    ensures counter == RowsStart(lines, 1)
  {
    var numLines := |lines|;
    counter := 1;
    while counter < numLines
      invariant 1 <= counter <= numLines
      invariant forall k | 1 <= k < counter :: !IsNeighborHeader(lines[k])
    {
      var line := lines[counter];
      counter := counter + 1;
      if Slice(line, 0, 8) == "Neighbor" {
        break;
      }
    }
  }

  /** The second loop: file every row under its address, a later row
      replacing an earlier one with the same address. */
  method FileNeighbors(rows: seq<string>) returns (neighbors: map<string, Neighbor>)
    ensures neighbors == IndexInto(map[], Rows(rows), NeighborKey)
  {
    neighbors := map[];
    for i := 0 to |rows|
      invariant IndexInto(neighbors, Rows(rows[i..]), NeighborKey) == IndexInto(map[], Rows(rows), NeighborKey)
    {
      var line := rows[i];
      var neighbor := Neighbor(Slice(line, 0, Find(line, " ", 0)), Slice(line, 16, Find(line, " ", 16)),
                               Slice(line, 18, Find(line, " ", 18)));
      MapSeqCons(RowOf, rows, i);
      IndexIntoCons(neighbors, neighbor, Rows(rows[i + 1..]), NeighborKey);
      neighbors := neighbors[neighbor.neighbor := neighbor];
    }
    assert Rows(rows[|rows|..]) == [];
  }

  /** The summary of the output of `show ip bgp summary`, split into lines
      with the final prompt popped. */
  method ParseSummaryOutput(output: string) returns (r: Option<Summary>)
    ensures r == ParseSummary(ReportLines(output))
  {
    var report := Split(output, '\n');
    r := ParseSummaryReport(report[..|report| - 1]);
  }

  /** The neighbour rows of a summary: every line after the column header. */
  function NeighborRows(lines: seq<string>): seq<string>
    requires |lines| >= 1
  {
    lines[RowsStart(lines, 1)..]
  }

  /** Every row after the column header, and no other line, becomes a neighbour. */
  lemma SummaryNeighborKeys(lines: seq<string>)
    requires |lines| >= 2
    ensures ParseSummary(lines).value.neighbors.Keys == (set row | row in NeighborRows(lines) :: RowOf(row).neighbor)
  {
    RowsKeys(NeighborRows(lines));
  }

  lemma RowsKeys(rows: seq<string>)
    ensures IndexInto(map[], Rows(rows), NeighborKey).Keys == (set row | row in rows :: RowOf(row).neighbor)
  {
    var records := Rows(rows);
    IndexIntoKeys(map[], records, NeighborKey);
    forall x | x in records
      ensures NeighborKey(x) in (set row | row in rows :: RowOf(row).neighbor)
    {
      var i :| 0 <= i < |records| && records[i] == x;
      assert rows[i] in rows;
    }
    forall row | row in rows
      ensures RowOf(row).neighbor in (set x | x in records :: NeighborKey(x))
    {
      var i :| 0 <= i < |rows| && rows[i] == row;
      assert records[i] in records;
    }
  }

  /** A summary without a column header line has no neighbours. */
  lemma NoHeaderNoNeighbors(lines: seq<string>)
    requires |lines| >= 2
    requires forall k | 1 <= k < |lines| :: !IsNeighborHeader(lines[k])
    ensures ParseSummary(lines).value.neighbors == map[]
  {
    assert NeighborRows(lines) == [];
  }

  /** A row's record is what its address maps to unless a later row has the
      same address. */
  lemma SummaryNeighborLastWins(lines: seq<string>, j: nat)
    requires |lines| >= 2
    requires j < |NeighborRows(lines)|
    requires var rows := NeighborRows(lines);
      forall k | j < k < |rows| :: RowOf(rows[k]).neighbor != RowOf(rows[j]).neighbor
    ensures var row := NeighborRows(lines)[j];
      && RowOf(row).neighbor in ParseSummary(lines).value.neighbors
      && ParseSummary(lines).value.neighbors[RowOf(row).neighbor] == RowOf(row)
  {
    IndexIntoLastWins(map[], Rows(NeighborRows(lines)), NeighborKey, j);
  }

  /** `BGP router identifier <id>, local AS number <as>\r` gives both back. */
  lemma SummaryHeaderRoundTrip(id: string, asn: string)
    requires ',' !in id
    ensures var line := "BGP router identifier " + id + ", local AS number " + asn + "\r";
      IdentifierOf(line) == id && LocalAsOf(line) == asn
  {
    var title, caption := "BGP router identifier ", " local AS number ";
    assert ", local AS number " == [','] + caption;
    assert title + id + ", local AS number " + asn + "\r" == title + id + [','] + caption + asn + "\r";
    HeaderFields(title, id, caption, asn);
  }

  /** The same for any 22-column title without a comma and any 17-column
      caption after the comma. */
  lemma HeaderFields(title: string, id: string, caption: string, asn: string)
    requires |title| == 22 && ',' !in title && ',' !in id && |caption| == 17
    ensures var line := title + id + [','] + caption + asn + "\r";
      IdentifierOf(line) == id && LocalAsOf(line) == asn
  {
    var line := title + id + [','] + caption + asn + "\r";
    FieldUpTo(title, id, ',', caption + asn + "\r", 0);
    assert line == title + id + [','] + (caption + asn + "\r");
    var p := 22 + |id| + 18;
    SliceDropLast(line, p, 1);
    assert line[p..|line| - 1] == asn;
  }

  /** A row `<address><padding to column 16><version> <AS> ...` gives the
      address, the one-character version and the AS number. */
  lemma RowRoundTrip(address: string, padding: string, version: char, asn: string, rest: string)
    requires ' ' !in address && ' ' !in asn && version != ' '
    requires |address| + |padding| == 16 && padding != [] && forall c <- padding :: c == ' '
    ensures RowOf(address + padding + [version] + " " + asn + " " + rest)
      == Neighbor(address, [version], asn)
  {
    var row := address + padding + [version] + " " + asn + " " + rest;
    assert padding[0] in padding;
    assert row == "" + address + [' '] + (padding[1..] + [version] + " " + asn + " " + rest);
    FieldUpTo("", address, ' ', padding[1..] + [version] + " " + asn + " " + rest, 0);
    assert row == (address + padding) + [version] + [' '] + (asn + " " + rest);
    FieldUpTo(address + padding, [version], ' ', asn + " " + rest, 16);
    assert row == (address + padding + [version] + " ") + asn + [' '] + rest;
    FieldUpTo(address + padding + [version] + " ", asn, ' ', rest, 18);
  }

  // ---------------------------------------------------------------------
  // Route distinguishers

  /** The distinguisher on a `Route Distinguisher: <rd> ...` line: from
      column 21 up to the next space. */
  function RdOf(line: string): string
  {
    Slice(line, 21, Find(line, " ", 21))
  }

  /** The loop as written (a do-while from index 1 that stops once the
      counter passes numLines - 2): it always takes index 1, so it takes
      indices 1 .. max(1, numLines - 2); with fewer than two lines it raises. */
  function RdListAsWritten(report: seq<string>): (r: Option<seq<string>>)
    ensures r.Some? <==> |report| >= 2
    ensures r.Some? ==> |r.value| == (if |report| >= 3 then |report| - 2 else 1)
    ensures r.Some? ==> forall i | 0 <= i < |r.value| :: r.value[i] == RdOf(report[i + 1])
  {
    if |report| < 2 then None
    else
      var count := if |report| >= 3 then |report| - 2 else 1;
      Some(seq(count, i requires 0 <= i < count => RdOf(report[i + 1])))
  }

  /** The do-while loop of `ciscoRouter.facts` as written. */
  method CollectRdAsWritten(report: seq<string>) returns (r: Option<seq<string>>)
    ensures r == RdListAsWritten(report)
  {
    var rd: seq<string> := [];
    var counter := 1;
    var numLines := |report|;
    while true
      invariant 1 <= counter
      invariant counter == 1 || counter <= numLines - 2
      invariant |rd| == counter - 1
      invariant forall i | 0 <= i < |rd| :: rd[i] == RdOf(report[i + 1])
      decreases numLines - counter
    {
      if counter >= numLines {
        return None;
      }
      var line := report[counter];
      rd := rd + [Slice(line, 21, Find(line, " ", 21))];
      counter := counter + 1;
      if counter > numLines - 2 {
        break;
      }
    }
    assert rd == RdListAsWritten(report).value;
    return Some(rd);
  }

  /** The intended list: one distinguisher per line between the command
      echo and the final prompt, and none when there is no such line. */
  function RdList(report: seq<string>): (r: seq<string>)
    ensures |r| == if |report| >= 2 then |report| - 2 else 0
    ensures forall i | 0 <= i < |r| :: r[i] == RdOf(report[i + 1])
  {
    var count := if |report| >= 2 then |report| - 2 else 0;
    seq(count, i requires 0 <= i < count => RdOf(report[i + 1]))
  }

  /** The same loop, testing its bound before each step. */
  method CollectRd(report: seq<string>) returns (rd: seq<string>)
    ensures rd == RdList(report)
  {
    rd := [];
    var counter := 1;
    var numLines := |report|;
    while counter <= numLines - 2
      invariant 1 <= counter && (numLines >= 2 ==> counter <= numLines - 1)
      invariant |rd| == counter - 1 <= (if numLines >= 2 then numLines - 2 else 0)
      invariant forall i | 0 <= i < |rd| :: rd[i] == RdOf(report[i + 1])
    {
      var line := report[counter];
      rd := rd + [Slice(line, 21, Find(line, " ", 21))];
      counter := counter + 1;
    }
    assert rd == RdList(report);
  }

  /** The two agree whenever the report lists at least one distinguisher. */
  lemma RdListsAgree(report: seq<string>)
    requires |report| >= 3
    ensures RdListAsWritten(report) == Some(RdList(report))
  {
    assert RdListAsWritten(report).value == RdList(report);
  }

  /** A report that lists no distinguisher (only the command echo and the
      prompt): the loop as written still takes the prompt line as one. */
  lemma RdAsWrittenWithoutEntries()
    ensures RdListAsWritten(["show ip bgp vpnv4 all | inc Route Distinguisher\r", "R1#"]) == Some([""])
    ensures RdList(["show ip bgp vpnv4 all | inc Route Distinguisher\r", "R1#"]) == []
  {
    var report := ["show ip bgp vpnv4 all | inc Route Distinguisher\r", "R1#"];
    assert Find("R1#", " ", 21) == -1;
    assert RdOf("R1#") == "";
    assert RdListAsWritten(report).value == [""];
  }

  /** `Route Distinguisher: <rd> ...` gives the distinguisher back. */
  lemma RdRoundTrip(rd: string, rest: string)
    requires ' ' !in rd
    ensures RdOf("Route Distinguisher: " + rd + " " + rest) == rd
  {
    var line := "Route Distinguisher: " + rd + " " + rest;
    assert line == ("Route Distinguisher: " + rd) + [' '] + rest;
    assert forall k | 21 <= k < 21 + |rd| :: line[k] == rd[k - 21];
    FindCharAfter("Route Distinguisher: " + rd, ' ', rest, 21);
    assert line[21..21 + |rd|] == rd;
  }

  /** The report of distinguisher lines between an echo and a prompt gives
      back exactly those distinguishers, in order, duplicates included. */
  lemma RdReportRoundTrip(echo: string, rds: seq<string>, rests: seq<string>, prompt: string)
    requires |rests| == |rds|
    requires forall i | 0 <= i < |rds| :: ' ' !in rds[i]
    ensures var lines := seq(|rds|, i requires 0 <= i < |rds| => "Route Distinguisher: " + rds[i] + " " + rests[i]);
      RdList([echo] + lines + [prompt]) == rds
  {
    var lines := seq(|rds|, i requires 0 <= i < |rds| => "Route Distinguisher: " + rds[i] + " " + rests[i]);
    var report := [echo] + lines + [prompt];
    forall i | 0 <= i < |rds|
      ensures RdList(report)[i] == rds[i]
    {
      assert report[i + 1] == lines[i];
      RdRoundTrip(rds[i], rests[i]);
    }
  }
}
