/**
 * The shapes the report parsers share: cutting a list of report lines into
 * blocks (a start line followed by the lines that continue it), finding the
 * last line that carries a marker, and building a dictionary from a list of
 * records in which a later record overwrites an earlier one with the same key.
 */
module Blocks {
  import opened Wrappers
  import opened PyStr

  // ---------------------------------------------------------------------
  // Report lines

  /** The lines a parser walks: the command output split on newlines, with
      the final piece (the prompt that follows the output) popped. */
  function ReportLines(output: string): (lines: seq<string>)
    ensures |lines| + 1 == |Split(output, '\n')|
    ensures lines == Split(output, '\n')[..|lines|]
    ensures forall l <- lines :: '\n' !in l
  {
    var all := Split(output, '\n');
    all[..|all| - 1]
  }

  /** The output is its report lines, each ended by a newline, followed by
      the popped prompt. */
  lemma ReportLinesJoin(output: string)
    requires |ReportLines(output)| >= 1
    ensures var lines := ReportLines(output);
      output == Join(lines, '\n') + "\n" + Split(output, '\n')[|lines|]
  {
    var all := Split(output, '\n');
    var lines := ReportLines(output);
    assert all == lines + [all[|lines|]];
    JoinSplit(output, '\n');
    JoinAppend(lines, '\n', all[|lines|]);
  }

  /** Lines without a newline, printed one per line before a prompt, are
      the report lines of that output. */
  lemma ReportLinesRoundTrip(lines: seq<string>, prompt: string)
    requires forall l <- lines :: '\n' !in l
    requires '\n' !in prompt
    ensures ReportLines(Join(lines + [prompt], '\n')) == lines
  {
    SplitJoin(lines + [prompt], '\n');
  }

  // ---------------------------------------------------------------------
  // Segmentation

  /** A line continues the current block when it has a space at column `col`
      (column 0 for interface reports, column 3 for VRF reports). */
  predicate Continues(line: string, col: nat)
  {
    col < |line| && line[col] == ' '
  }

  /** The first index at or after i whose line does not continue a block. */
  function RunEnd(lines: seq<string>, i: nat, col: nat): (j: nat)
    requires i <= |lines|
    ensures i <= j <= |lines|
    ensures forall k | i <= k < j :: Continues(lines[k], col)
    ensures j < |lines| ==> !Continues(lines[j], col)
    decreases |lines| - i
  {
    if i == |lines| || !Continues(lines[i], col) then i else RunEnd(lines, i + 1, col)
  }

  /** Any index that ends the run of continuing lines starting at i is RunEnd. */
  lemma RunEndAt(lines: seq<string>, i: nat, col: nat, j: nat)
    requires i <= j <= |lines|
    requires forall k | i <= k < j :: Continues(lines[k], col)
    requires j < |lines| ==> !Continues(lines[j], col)
    ensures RunEnd(lines, i, col) == j
  {
  }

  /** The blocks of lines[p..]: each block is the line that starts it
      followed by every continuing line after it. */
  function BlocksFrom(lines: seq<string>, p: nat, col: nat): (blocks: seq<seq<string>>)
    requires p <= |lines|
    ensures forall i | 0 <= i < |blocks| :: |blocks[i]| >= 1
    decreases |lines| - p
  {
    if p == |lines| then []
    else
      var e := RunEnd(lines, p + 1, col);
      [lines[p..e]] + BlocksFrom(lines, e, col)
  }

  /** The first block of lines[p..] runs up to the first line after p that
      does not continue it. */
  lemma BlocksFromStep(lines: seq<string>, p: nat, col: nat, e: nat)
    requires p < e <= |lines|
    requires forall k | p < k < e :: Continues(lines[k], col)
    requires e < |lines| ==> !Continues(lines[e], col)
    ensures BlocksFrom(lines, p, col) == [lines[p..e]] + BlocksFrom(lines, e, col)
  {
    RunEndAt(lines, p + 1, col, e);
  }

  function Flatten(blocks: seq<seq<string>>): seq<string>
  {
    if blocks == [] then [] else blocks[0] + Flatten(blocks[1..])
  }

  /** The blocks partition the lines: read in order they give back lines[p..]. */
  lemma {:induction false} BlocksPartition(lines: seq<string>, p: nat, col: nat)
    requires p <= |lines|
    ensures Flatten(BlocksFrom(lines, p, col)) == lines[p..]
    decreases |lines| - p
  {
    if p < |lines| {
      var e := RunEnd(lines, p + 1, col);
      BlocksPartition(lines, e, col);
      assert BlocksFrom(lines, p, col)[1..] == BlocksFrom(lines, e, col);
      assert lines[p..e] + lines[e..] == lines[p..];
    }
  }

  /** Every block is non-empty and every line of it after the first continues
      it; every block but the first starts with a line that does not continue. */
  lemma {:induction false} BlocksShape(lines: seq<string>, p: nat, col: nat)
    requires p <= |lines|
    ensures var blocks := BlocksFrom(lines, p, col);
      forall i | 0 <= i < |blocks| ::
        |blocks[i]| >= 1
        && (forall k | 1 <= k < |blocks[i]| :: Continues(blocks[i][k], col))
        && (i > 0 ==> !Continues(blocks[i][0], col))
    decreases |lines| - p
  {
    if p < |lines| {
      var e := RunEnd(lines, p + 1, col);
      BlocksShape(lines, e, col);
      var blocks := BlocksFrom(lines, p, col);
      assert blocks[1..] == BlocksFrom(lines, e, col);
      forall i | 0 <= i < |blocks|
        ensures |blocks[i]| >= 1
        ensures forall k | 1 <= k < |blocks[i]| :: Continues(blocks[i][k], col)
        ensures i > 0 ==> !Continues(blocks[i][0], col)
      {
        if i == 0 {
          assert blocks[0] == lines[p..e];
        } else {
          assert blocks[i] == BlocksFrom(lines, e, col)[i - 1];
          if i == 1 {
            assert blocks[1][0] == lines[e];
          }
        }
      }
    }
  }

  // ---------------------------------------------------------------------
  // The last line with a marker

  /** The index of the last line that contains `marker`, if any. */
  function LastMatch(lines: seq<string>, marker: string): (r: Option<nat>)
    ensures r.None? <==> forall i | 0 <= i < |lines| :: !Contains(lines[i], marker)
    ensures r.Some? ==> r.value < |lines| && Contains(lines[r.value], marker)
    ensures r.Some? ==> forall j | r.value < j < |lines| :: !Contains(lines[j], marker)
  {
    if lines == [] then None
    else if Contains(lines[|lines| - 1], marker) then Some(|lines| - 1)
    else LastMatch(lines[..|lines| - 1], marker)
  }

  /** A line carrying the marker with none after it is the last match. */
  lemma LastMatchAt(lines: seq<string>, i: nat, marker: string)
    requires i < |lines| && Contains(lines[i], marker)
    requires forall j | i < j < |lines| :: !Contains(lines[j], marker)
    ensures LastMatch(lines, marker) == Some(i)
  {
  }

  /** Adding a line after the others: it is the last match if it carries the
      marker, otherwise the last match is unchanged. */
  lemma LastMatchAppend(lines: seq<string>, line: string, marker: string)
    ensures LastMatch(lines + [line], marker)
      == if Contains(line, marker) then Some(|lines|) else LastMatch(lines, marker)
  {
    assert (lines + [line])[..|lines|] == lines;
  }

  // ---------------------------------------------------------------------
  // Dictionaries built record by record

  /** `for x in xs: acc[key(x)] = x`. */
  function IndexInto<T>(acc: map<string, T>, xs: seq<T>, key: T -> string): map<string, T>
    decreases |xs|
  {
    if xs == [] then acc else IndexInto(acc[key(xs[0]) := xs[0]], xs[1..], key)
  }

  /** The image of every element, in order. */
  function MapSeq<A, B>(f: A -> B, xs: seq<A>): (r: seq<B>)
    ensures |r| == |xs| && forall i | 0 <= i < |xs| :: r[i] == f(xs[i])
  {
    seq(|xs|, i requires 0 <= i < |xs| => f(xs[i]))
  }

  lemma MapSeqCons<A, B>(f: A -> B, xs: seq<A>, i: nat)
    requires i < |xs|
    ensures MapSeq(f, xs[i..]) == [f(xs[i])] + MapSeq(f, xs[i + 1..])
  {
    var r := MapSeq(f, xs[i..]);
    assert r[1..] == MapSeq(f, xs[i + 1..]);
  }

  /** Filing x first, then the rest. */
  lemma IndexIntoCons<T>(acc: map<string, T>, x: T, xs: seq<T>, key: T -> string)
    ensures IndexInto(acc, [x] + xs, key) == IndexInto(acc[key(x) := x], xs, key)
  {
    assert ([x] + xs)[1..] == xs;
  }

  /** The keys are those already there and the key of every record. */
  lemma {:induction false} IndexIntoKeys<T>(acc: map<string, T>, xs: seq<T>, key: T -> string)
    ensures IndexInto(acc, xs, key).Keys == acc.Keys + set x | x in xs :: key(x)
    decreases |xs|
  {
    if xs != [] {
      IndexIntoKeys(acc[key(xs[0]) := xs[0]], xs[1..], key);
      assert xs == [xs[0]] + xs[1..];
      assert (set x | x in xs :: key(x)) == {key(xs[0])} + set x | x in xs[1..] :: key(x);
    }
  }

  /** A record that no later record shares its key with is what its key maps to. */
  lemma {:induction false} IndexIntoLastWins<T>(acc: map<string, T>, xs: seq<T>, key: T -> string, i: nat)
    requires i < |xs|
    requires forall j | i < j < |xs| :: key(xs[j]) != key(xs[i])
    ensures key(xs[i]) in IndexInto(acc, xs, key)
    ensures IndexInto(acc, xs, key)[key(xs[i])] == xs[i]
    decreases |xs|
  {
    if i == 0 {
      IndexIntoKeeps(acc[key(xs[0]) := xs[0]], xs[1..], key, key(xs[0]));
    } else {
      IndexIntoLastWins(acc[key(xs[0]) := xs[0]], xs[1..], key, i - 1);
    }
  }

  /** A key that no record carries keeps the value it had before. */
  lemma {:induction false} IndexIntoKeeps<T>(acc: map<string, T>, xs: seq<T>, key: T -> string, k: string)
    requires k in acc
    requires forall j | 0 <= j < |xs| :: key(xs[j]) != k
    ensures k in IndexInto(acc, xs, key) && IndexInto(acc, xs, key)[k] == acc[k]
    decreases |xs|
  {
    if xs != [] {
      IndexIntoKeeps(acc[key(xs[0]) := xs[0]], xs[1..], key, k);
    }
  }
}
