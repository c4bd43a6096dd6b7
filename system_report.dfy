/**
 * The two one-line facts of a router: the system image named by
 * `show version` and the hostname configured in `show run | inc hostname`.
 */
module SystemReport {
  import opened Wrappers
  import opened PyStr
  import opened Blocks

  // ---------------------------------------------------------------------
  // Version

  /** The text that marks the image line of `show version`. */
  const ImageMarker := "System image"

  /** The image on a `System image file is "<device>:<image>"` line: from
      column 28 (just after `disk0:`) up to the closing quote and carriage
      return. */
  function ImageOf(line: string): string
  {
    Slice(line, 28, -2)
  }

  /** The image the version report names: that of the last line carrying the
      marker, and none when no line carries it (the version dictionary then
      stays empty). */
  function VersionImage(report: seq<string>): (r: Option<string>)
    ensures r.None? <==> forall i | 0 <= i < |report| :: !Contains(report[i], ImageMarker)
    ensures r.Some? ==> exists i | 0 <= i < |report| ::
      Contains(report[i], ImageMarker) && r.value == ImageOf(report[i])
      && forall j | i < j < |report| :: !Contains(report[j], ImageMarker)
  {
    match LastMatch(report, ImageMarker)
    case None => None
    case Some(i) => Some(ImageOf(report[i]))
  }

  /** The version part of `ciscoRouter.facts`: every line of the unpopped
      report is looked at, and each image line overwrites the image. */
  method ParseVersionReport(output: string) returns (image: Option<string>)
    ensures image == VersionImage(Split(output, '\n'))
  {
    var report := Split(output, '\n');
    image := None;
    for i := 0 to |report|
      invariant image == VersionImage(report[..i])
    {
      var line := report[i];
      LastMatchAppend(report[..i], line, ImageMarker);
      assert report[..i + 1] == report[..i] + [line];
      if Contains(line, ImageMarker) {
        image := Some(Slice(line, 28, -2));
      }
    }
    assert report[..|report|] == report;
  }

  /** A later image line overrides an earlier one; a line without the
      marker leaves the image as it was. */
  lemma VersionLastWins(report: seq<string>, line: string)
    ensures VersionImage(report + [line])
      == if Contains(line, ImageMarker) then Some(ImageOf(line)) else VersionImage(report)
  {
    LastMatchAppend(report, line, ImageMarker);
  }

  /** The 28 columns before the image and the quote and carriage return
      after it are cut off, whatever the image is. */
  lemma ImageRoundTrip(head: string, image: string)
    requires |head| == 28
    ensures ImageOf(head + image + "\"\r") == image
  {
    var line := head + image + "\"\r";
    SliceDropLast(line, 28, 2);
    assert line[28..|line| - 2] == image;
  }

  /** A report whose only image line is `System image file is "disk0:<image>"`
      names that image. */
  lemma VersionReportRoundTrip(before: seq<string>, image: string, after: seq<string>)
    requires forall i | 0 <= i < |after| :: !Contains(after[i], ImageMarker)
    ensures VersionImage(before + ["System image file is \"disk0:" + image + "\"\r"] + after) == Some(image)
  {
    var line := "System image file is \"disk0:" + image + "\"\r";
    var report := before + [line] + after;
    ImageLineCarriesMarker(image);
    assert report[|before|] == line;
    forall j | |before| < j < |report|
      ensures !Contains(report[j], ImageMarker)
    {
      assert report[j] == after[j - |before| - 1];
    }
    LastMatchAt(report, |before|, ImageMarker);
    ImageRoundTrip("System image file is \"disk0:", image);
  }

  lemma ImageLineCarriesMarker(image: string)
    ensures Contains("System image file is \"disk0:" + image + "\"\r", ImageMarker)
  {
    var line := "System image file is \"disk0:" + image + "\"\r";
    assert line == "" + ImageMarker + (" file is \"disk0:" + image + "\"\r");
    ContainsInside("", ImageMarker, " file is \"disk0:" + image + "\"\r");
  }

  // ---------------------------------------------------------------------
  // Hostname

  /** The hostname in `show run | inc hostname`: the second line of the
      output without the 9 columns of `hostname ` and the final carriage
      return; nothing when the output has no second line (indexing raises). */
  function HostnameOf(output: string): (r: Option<string>)
    ensures r.None? <==> '\n' !in output
  {
    SplitOnePiece(output, '\n');
    var report := Split(output, '\n');
    if |report| < 2 then None else Some(Slice(report[1], 9, -1))
  }

  /** The configuration line `hostname <name>` between the command echo and
      the prompt gives back the name. */
  lemma HostnameRoundTrip(echo: string, name: string, prompt: string)
    requires '\n' !in echo && '\n' !in name && '\n' !in prompt
    ensures HostnameOf(echo + "\n" + "hostname " + name + "\r\n" + prompt) == Some(name)
  {
    var config := "hostname " + name + "\r";
    assert '\n' !in config by {
      forall k | 0 <= k < |config|
        ensures config[k] != '\n'
      {
        if 9 <= k < |config| - 1 {
          assert config[k] == name[k - 9];
        }
      }
    }
    var parts := [echo, config, prompt];
    assert Join(parts[1..], '\n') == config + "\n" + prompt;
    assert Join(parts, '\n') == echo + "\n" + "hostname " + name + "\r\n" + prompt;
    SplitJoin(parts, '\n');
    SliceDropLast(config, 9, 1);
    assert config[9..|config| - 1] == name;
  }
}
