/**
 * The display-password plugin (display-password.py): it reads the last line of
 * each potfile it knows, keeps the one from the most recently modified file and
 * renders it as the network's name, ` - ` and the password, with the coordinates when the line has them.
 */
module DisplayPassword {
  import opened Optional
  import opened Strings
  import opened Potfile

  const InvalidFormat: string := "Invalid format"
  const NoCrackedPasswords: string := "No cracked passwords"

  /** A potfile as `_get_last_line_from_file` finds it: `lines` as `readlines()` returns them. */
  datatype PotFile =
    | Absent                                  // `os.path.exists` is false
    | Failing                                 // reading it raises
    | Present(mtime: int, lines: seq<string>)

  /** The coordinates suffix: both fields 4 and 5 present and non-empty. */
  function GpsSuffix(parts: seq<string>): string {
    if |parts| >= 6 && parts[4] != "" && parts[5] != "" then " (" + parts[4] + "," + parts[5] + ")" else ""
  }

  /** `_parse_potfile_line`: the SSID (field 2) labels the entry unless it is empty or `Unknown`. */
  function ParsePotfileLine(line: string): (r: string)
    ensures |Split(line, ':')| >= 4 ==> r != InvalidFormat
  {
    var parts := Split(line, ':');
    if |parts| >= 4 then
      var shown := if parts[2] != "" && parts[2] != "Unknown" then parts[2] else parts[0];
      RenderedIsNotInvalid(shown, parts[3], GpsSuffix(parts));
      shown + " - " + parts[3] + GpsSuffix(parts)
    else InvalidFormat
  }

  /** A rendered entry always holds ` - ` right after its name, which the error text does not. */
  lemma RenderedIsNotInvalid(shown: string, password: string, suffix: string)
    ensures shown + " - " + password + suffix != InvalidFormat
  {
    var r := shown + " - " + password + suffix;
    assert r[|shown| + 1] == '-';
    if |shown| + 1 < |InvalidFormat| {
      NoDashInInvalidFormat(|shown| + 1);
    }
  }

  lemma NoDashInInvalidFormat(k: nat)
    requires k < |InvalidFormat|
    ensures InvalidFormat[k] != '-'
  {
  }

  /** A line is rejected exactly when it has fewer than three `:`, that is fewer than four fields. */
  lemma InvalidFormatIff(line: string)
    ensures ParsePotfileLine(line) == InvalidFormat <==> Count(line, ':') < 3
  {
    var parts := Split(line, ':');
    if |parts| >= 4 {
      var shown := if parts[2] != "" && parts[2] != "Unknown" then parts[2] else parts[0];
      RenderedIsNotInvalid(shown, parts[3], GpsSuffix(parts));
    }
  }

  /**
   * The line a potfile entry becomes once read back (without its newline),
   * when none of the six fields the parser reads holds a `:` (the altitude and
   * the timestamp may): the SSID labels it unless the tool found none or found
   * `Unknown`, the password follows, then the coordinates when both were found.
   */
  lemma DisplayOfEntry(bssid: string, password: string, info: NetworkInfo, gps: GpsData, timestamp: string)
    requires var fields := EntryFields(bssid, password, info, gps, timestamp);
             forall k :: 0 <= k < 6 ==> ':' !in fields[k]
    ensures ParsePotfileLine(Join(EntryFields(bssid, password, info, gps, timestamp), ':')) ==
            (if info.ssid != "" && info.ssid != "Unknown" then info.ssid else bssid) + " - " + password +
            (if gps.lat != "" && gps.lon != "" then " (" + gps.lat + "," + gps.lon + ")" else "")
  {
    var fields := EntryFields(bssid, password, info, gps, timestamp);
    var tail := Join(fields[6..], ':');
    assert Join(fields, ':') == Join(fields[..6], ':') + [':'] + tail by {
      JoinSplitAt(fields, 6, ':');
    }
    SplitJoinPrefix(fields[..6], tail, ':');
    var parts := Split(Join(fields, ':'), ':');
    assert parts[..6] == fields[..6];
  }

  /** Whatever its fields hold, an entry as the scheduler writes it is never rejected as malformed. */
  lemma WrittenEntryIsWellFormed(bssid: string, password: string, info: NetworkInfo, gps: GpsData, timestamp: string)
    ensures ParsePotfileLine(Strip(PotfileEntry(bssid, password, info, gps, timestamp))) != InvalidFormat
  {
    var e := PotfileEntry(bssid, password, info, gps, timestamp);
    PotfileEntryShape(bssid, password, info, gps, timestamp);
    StripKeepsCount(e, ':');
    InvalidFormatIff(Strip(e));
  }

  /**
   * The BSSID is written with its colons, which shifts every field: for a
   * BSSID made of six colon-free octets, whatever the other fields hold, the
   * third octet is shown as the network's name (the first when the third is
   * empty or `Unknown`), the fourth as the password and the fifth and sixth as
   * the coordinates.
   */
  lemma MacBssidShiftsFields(octets: seq<string>, password: string, info: NetworkInfo, gps: GpsData,
                             timestamp: string)
    requires |octets| == 6 && forall k :: 0 <= k < 6 ==> ':' !in octets[k]
    ensures ParsePotfileLine(Join(EntryFields(Join(octets, ':'), password, info, gps, timestamp), ':')) ==
            (if octets[2] != "" && octets[2] != "Unknown" then octets[2] else octets[0]) + " - " + octets[3] +
            (if octets[4] != "" && octets[5] != "" then " (" + octets[4] + "," + octets[5] + ")" else "")
  {
    var fields := EntryFields(Join(octets, ':'), password, info, gps, timestamp);
    var tail := Join(fields[1..], ':');
    assert Join(fields, ':') == Join(octets, ':') + [':'] + tail;
    SplitJoinPrefix(octets, tail, ':');
    var parts := Split(Join(fields, ':'), ':');
    assert parts[..6] == octets;
  }

  /** `_get_last_line_from_file`: the stripped last line, if not blank, and the modification time. */
  function LastLine(f: PotFile): (r: (Option<string>, int))
    ensures !f.Present? ==> r == (None, 0)
    ensures f.Present? ==> r.1 == f.mtime
    ensures r.0.Some? ==> f.Present? && f.lines != [] && r.0.value == Strip(f.lines[|f.lines| - 1]) != []
  {
    match f
    case Absent => (None, 0)
    case Failing => (None, 0)
    case Present(mtime, lines) =>
      if lines == [] then (None, mtime)
      else
        var last := Strip(lines[|lines| - 1]);
        if last == "" then (None, mtime) else (Some(last), mtime)
  }

  /**
   * A line comes back exactly when the file is there, readable and its last line
   * is not blank; it is that line stripped, so it neither starts nor ends with
   * whitespace. The time is the file's when it could be read, 0 otherwise.
   */
  lemma LastLineSpec(f: PotFile)
    ensures var (line, time) := LastLine(f);
            && (line.Some? <==> f.Present? && f.lines != [] && Strip(f.lines[|f.lines| - 1]) != "")
            && (line.Some? ==> line.value == Strip(f.lines[|f.lines| - 1]) &&
                               !IsSpace(line.value[0]) && !IsSpace(line.value[|line.value| - 1]))
            && time == (if f.Present? then f.mtime else 0)
  {
  }

  /** No field holds `\n` or `\r`, the characters `readlines` ends a line at. */
  predicate NoLineBreakFields(fields: seq<string>) {
    forall k :: 0 <= k < |fields| ==> '\n' !in fields[k] && '\r' !in fields[k]
  }

  /**
   * Once the scheduler appends an entry to a potfile whose text ends with a
   * newline (or is empty), the last line is that entry and it renders, provided
   * no field of the entry holds a line break (`readlines` splits on `\n` and `\r`).
   */
  lemma AppendedEntryIsShown(mtime: int, lines: seq<string>, bssid: string, password: string,
                             info: NetworkInfo, gps: GpsData, timestamp: string)
    requires lines == [] || EndsWith(lines[|lines| - 1], "\n")
    requires NoLineBreakFields(EntryFields(bssid, password, info, gps, timestamp))
    ensures var e := PotfileEntry(bssid, password, info, gps, timestamp);
            && LastLine(Present(mtime, lines + [e])) == (Some(Strip(e)), mtime)
            && ParsePotfileLine(Strip(e)) != InvalidFormat
  {
    var e := PotfileEntry(bssid, password, info, gps, timestamp);
    PotfileEntryShape(bssid, password, info, gps, timestamp);
    StripKeepsCount(e, ':');
    assert Strip(e) != "";
    WrittenEntryIsWellFormed(bssid, password, info, gps, timestamp);
  }

  /**
   * Appended to a potfile whose last line has no newline, the entry continues
   * that line: the last line read back is the old one followed by the entry, and
   * it still renders, from the old line's leading fields. As above, neither the
   * old line nor a field of the entry holds a line break.
   */
  lemma AppendedToUnterminatedLine(mtime: int, lines: seq<string>, bssid: string, password: string,
                                   info: NetworkInfo, gps: GpsData, timestamp: string)
    requires lines != [] && !EndsWith(lines[|lines| - 1], "\n")
    requires '\n' !in lines[|lines| - 1] && '\r' !in lines[|lines| - 1]
    requires NoLineBreakFields(EntryFields(bssid, password, info, gps, timestamp))
    ensures var e := PotfileEntry(bssid, password, info, gps, timestamp);
            var merged := lines[|lines| - 1] + e;
            && LastLine(Present(mtime, lines[..|lines| - 1] + [merged])) == (Some(Strip(merged)), mtime)
            && ParsePotfileLine(Strip(merged)) != InvalidFormat
  {
    var e := PotfileEntry(bssid, password, info, gps, timestamp);
    var merged := lines[|lines| - 1] + e;
    PotfileEntryShape(bssid, password, info, gps, timestamp);
    CountAppend(lines[|lines| - 1], e, ':');
    StripKeepsCount(merged, ':');
    assert Strip(merged) != "";
    InvalidFormatIff(Strip(merged));
  }

  /** What `_get_last_line_from_file` returns for each file, in order. */
  function LastLines(files: seq<PotFile>): (r: seq<(Option<string>, int)>)
    ensures |r| == |files|
  {
    if files == [] then [] else LastLines(files[..|files| - 1]) + [LastLine(files[|files| - 1])]
  }

  lemma {:induction false} LastLinesAt(files: seq<PotFile>, k: nat)
    requires k < |files|
    ensures LastLines(files)[k] == LastLine(files[k])
  {
    var n := |files| - 1;
    if k < n {
      LastLinesAt(files[..n], k);
    }
  }

  /**
   * The index of the file `_get_most_recent_password` settles on, given what
   * each file gave in order: a file replaces the current choice only when it
   * gave a line and its time is strictly above the current time (0 to begin with).
   */
  function Best(seen: seq<(Option<string>, int)>): (r: Option<nat>)
    ensures r.Some? ==> r.value < |seen|
  {
    if seen == [] then None
    else
      var n := |seen| - 1;
      var b := Best(seen[..n]);
      var t := if b.Some? then seen[b.value].1 else 0;
      if seen[n].0.Some? && seen[n].1 > t then Some(n) else b
  }

  /** The accumulators `most_recent_line` and `most_recent_time` after looking at `seen`. */
  function Chosen(seen: seq<(Option<string>, int)>): (Option<string>, int) {
    match Best(seen)
    case None => (None, 0)
    case Some(i) => seen[i]
  }

  /**
   * The chosen file gave a line and has the greatest time, above 0; every file
   * before it that gave a line is strictly older and every one after it is not
   * newer, so ties go to the earlier file. Nothing is chosen exactly when no file
   * gave a line with a time above 0.
   */
  lemma {:induction false} BestIsMostRecent(seen: seq<(Option<string>, int)>)
    ensures Best(seen).None? <==> forall j :: 0 <= j < |seen| && seen[j].0.Some? ==> seen[j].1 <= 0
    ensures Best(seen).Some? ==>
              var i := Best(seen).value;
              && seen[i].0.Some? && seen[i].1 > 0
              && (forall j :: 0 <= j < i && seen[j].0.Some? ==> seen[j].1 < seen[i].1)
              && (forall j :: i < j < |seen| && seen[j].0.Some? ==> seen[j].1 <= seen[i].1)
  {
    if seen != [] {
      var n := |seen| - 1;
      var init := seen[..n];
      BestIsMostRecent(init);
      assert forall j :: 0 <= j < n ==> init[j] == seen[j];
    }
  }

  /** `_get_most_recent_password`: `files` are the known potfiles, in the plugin's order. */
  method GetMostRecentPassword(files: seq<PotFile>) returns (r: string)
    ensures r == match Chosen(LastLines(files)).0
                 case None => NoCrackedPasswords
                 case Some(line) => ParsePotfileLine(line)
  {
    ghost var seen := LastLines(files);
    var mostRecentLine: Option<string> := None;
    var mostRecentTime := 0;
    for k := 0 to |files|
      invariant (mostRecentLine, mostRecentTime) == Chosen(seen[..k])
      invariant mostRecentLine.Some? ==> mostRecentLine.value != ""
    {
      var (line, mtime) := LastLine(files[k]);
      LastLinesAt(files, k);
      assert seen[..k + 1][..k] == seen[..k];
      assert forall j :: 0 <= j < k ==> seen[..k + 1][j] == seen[..k][j];
      if line.Some? && line.value != "" && mtime > mostRecentTime {
        mostRecentLine := line;
        mostRecentTime := mtime;
      }
    }
    assert seen[..|files|] == seen;
    if mostRecentLine.Some? && mostRecentLine.value != "" {
      r := ParsePotfileLine(mostRecentLine.value);
    } else {
      r := NoCrackedPasswords;
    }
  }
}
