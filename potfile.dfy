/**
 * The potfile entry the dictionary-scan plugin appends for a cracked network
 * (`_write_to_potfile` and `_parse_gps_data` in quickdic_throttled.py): eight
 * fields separated by `:`, the GPS fields taken from the first readable sidecar
 * file next to the capture.
 */
module Potfile {
  import opened Optional
  import opened Strings

  /** The last position of `c` in `s`, or -1: Python's `s.rfind(c)`. */
  function RFind(s: string, c: char): (r: int)
    ensures -1 <= r < |s|
    ensures r == -1 ==> c !in s
    ensures r >= 0 ==> s[r] == c && c !in s[r + 1..]
  {
    if s == [] then -1
    else if s[|s| - 1] == c then |s| - 1
    else
      var r := RFind(s[..|s| - 1], c);
      assert s[r + 1..] == s[..|s| - 1][r + 1..] + [s[|s| - 1]];
      r
  }

  predicate AllDots(s: string) {
    forall k :: 0 <= k < |s| ==> s[k] == '.'
  }

  /**
   * `os.path.splitext(p)` on POSIX: the extension starts at the last `.` of the
   * last path component, unless everything before that dot in the component is
   * dots too (so `.bashrc` has no extension).
   */
  function SplitExt(p: string): (r: (string, string))
    ensures r.0 + r.1 == p
  {
    var sep := RFind(p, '/');
    var dot := RFind(p, '.');
    if dot > sep && !AllDots(p[sep + 1..dot]) then (p[..dot], p[dot..]) else (p, [])
  }

  /** The extension is empty or a dot followed by a name with no further dot and no `/`. */
  lemma SplitExtShape(p: string)
    ensures var ext := SplitExt(p).1;
            ext == [] || (ext[0] == '.' && '/' !in ext && '.' !in ext[1..])
  {
    var sep := RFind(p, '/');
    var dot := RFind(p, '.');
    if dot > sep && !AllDots(p[sep + 1..dot]) {
      var ext := p[dot..];
      assert ext[1..] == p[dot + 1..];
      if sep >= 0 {
        assert ext == p[sep + 1..][dot - sep - 1..];
      }
    }
  }

  /**
   * The last path component holds a `.` with some character other than `.`
   * before it: exactly the paths `splitext` gives an extension.
   */
  predicate HasExtension(p: string) {
    exists k, m :: 0 <= k < m < |p| && p[k] != '.' && p[m] == '.' && '/' !in p[k..]
  }

  /**
   * `splitext` splits exactly the paths with an extension, and it splits them at
   * their last `.`; every other path comes back whole with an empty extension.
   */
  lemma SplitExtWhen(p: string)
    ensures SplitExt(p).1 != [] <==> HasExtension(p)
    ensures SplitExt(p).1 != [] ==> |SplitExt(p).0| == RFind(p, '.')
    ensures SplitExt(p).1 == [] ==> SplitExt(p).0 == p
  {
    var sep := RFind(p, '/');
    var dot := RFind(p, '.');
    if dot > sep && !AllDots(p[sep + 1..dot]) {
      var k' :| 0 <= k' < |p[sep + 1..dot]| && p[sep + 1..dot][k'] != '.';
      var k := sep + 1 + k';
      assert p[k..] == p[sep + 1..][k'..];
      assert 0 <= k < dot < |p| && p[k] != '.' && p[dot] == '.' && '/' !in p[k..];
    }
  }

  /** A sidecar JSON file as the plugin finds it; a loaded object maps keys to their `str()` text. */
  datatype Sidecar = Missing | Unreadable | Loaded(fields: map<string, string>)

  datatype GpsData = GpsData(lat: string, lon: string, alt: string)

  const NoGps: GpsData := GpsData("", "", "")

  /** The sidecar files looked for next to a capture, in the order they are tried. */
  function GpsCandidates(filename: string): (r: seq<string>)
    ensures |r| == 2 && EndsWith(r[0], ".gps.json") && EndsWith(r[1], ".geo.json")
  {
    var base := SplitExt(filename).0;
    assert (base + ".gps.json")[|base|..] == ".gps.json";
    assert (base + ".geo.json")[|base|..] == ".geo.json";
    [base + ".gps.json", base + ".geo.json"]
  }

  /** What a loaded sidecar contributes: `lat`/`lon` first, else `latitude`/`longitude`, else nothing. */
  function GpsFields(obj: map<string, string>): GpsData {
    if "lat" in obj && "lon" in obj then
      GpsData(obj["lat"], obj["lon"], if "alt" in obj then obj["alt"] else "")
    else if "latitude" in obj && "longitude" in obj then
      GpsData(obj["latitude"], obj["longitude"], if "altitude" in obj then obj["altitude"] else "")
    else NoGps
  }

  /** The first candidate that exists and parses, with its object; the search stops there. */
  function FirstLoaded(candidates: seq<string>, files: map<string, Sidecar>): (r: Option<map<string, string>>)
    ensures r.None? <==> forall c :: c in candidates && c in files ==> !files[c].Loaded?
    ensures r.Some? ==> exists c :: c in candidates && c in files && files[c] == Loaded(r.value)
  {
    if candidates == [] then None
    else if candidates[0] in files && files[candidates[0]].Loaded? then Some(files[candidates[0]].fields)
    else FirstLoaded(candidates[1..], files)
  }

  /** The GPS fields `_parse_gps_data` returns for a capture, `files` being the sidecars present on disk. */
  function GpsOf(filename: string, files: map<string, Sidecar>): (r: GpsData)
    ensures (forall c :: c in GpsCandidates(filename) && c in files ==> !files[c].Loaded?) ==> r == NoGps
    ensures r != NoGps ==>
              exists c :: c in GpsCandidates(filename) && c in files && files[c].Loaded? &&
                          r == GpsFields(files[c].fields)
  {
    match FirstLoaded(GpsCandidates(filename), files)
    case None => NoGps
    case Some(obj) => GpsFields(obj)
  }

  /**
   * `_parse_gps_data`: tries the `.gps.json` and then the `.geo.json` sidecar;
   * a missing file is skipped, one that fails to load is skipped, and the first
   * one that loads ends the search whether or not it holds coordinates.
   */
  method ParseGpsData(filename: string, files: map<string, Sidecar>) returns (gps: GpsData)
    ensures gps == GpsOf(filename, files)
  {
    var candidates := GpsCandidates(filename);
    gps := NoGps;
    var i := 0;
    while i < |candidates|
      invariant 0 <= i <= |candidates|
      invariant FirstLoaded(candidates, files) == FirstLoaded(candidates[i..], files)
      invariant gps == NoGps
    {
      var name := candidates[i];
      assert candidates[i..][1..] == candidates[i + 1..];
      if name in files && files[name].Loaded? {
        gps := GpsFields(files[name].fields);
        return;
      }
      i := i + 1;
    }
  }

  /**
   * A loaded `.gps.json` decides the GPS fields, even when it holds no
   * coordinates: the loop breaks after the first file that loads, so such a file
   * hides a `.geo.json` that has them.
   */
  lemma GpsSidecarWins(filename: string, files: map<string, Sidecar>)
    requires var c := GpsCandidates(filename)[0]; c in files && files[c].Loaded?
    ensures GpsOf(filename, files) == GpsFields(files[GpsCandidates(filename)[0]].fields)
  {
  }

  /** The `.geo.json` sidecar is read only when the `.gps.json` one does not load. */
  lemma GeoSidecarFallback(filename: string, files: map<string, Sidecar>)
    requires var c := GpsCandidates(filename); !(c[0] in files && files[c[0]].Loaded?)
    ensures GpsOf(filename, files) ==
            var g := GpsCandidates(filename)[1];
            if g in files && files[g].Loaded? then GpsFields(files[g].fields) else NoGps
  {
    var c := GpsCandidates(filename);
    var g := c[1];
    assert FirstLoaded(c, files) == FirstLoaded([g], files) by {
      assert c[1..] == [g];
    }
    assert [g][1..] == [];
    assert FirstLoaded([g], files) == if g in files && files[g].Loaded? then Some(files[g].fields) else None;
  }

  /** The network details `_extract_network_info` found: empty when the tool printed none. */
  datatype NetworkInfo = NetworkInfo(ssid: string, stationMac: string)

  /** Python's `s or 'Unknown'`. */
  function OrUnknown(s: string): (r: string)
    ensures r != []
    ensures s != [] ==> r == s
  {
    if s == [] then "Unknown" else s
  }

  /** The eight fields of an entry, in the order they are written. */
  function EntryFields(bssid: string, password: string, info: NetworkInfo, gps: GpsData,
                       timestamp: string): (r: seq<string>)
    ensures |r| == 8 && r[0] == bssid && r[3] == password
  {
    [bssid, OrUnknown(info.stationMac), OrUnknown(info.ssid), password, gps.lat, gps.lon, gps.alt, timestamp]
  }

  /** The line `_write_to_potfile` appends: the fields joined by `:`, ended by a newline. */
  function PotfileEntry(bssid: string, password: string, info: NetworkInfo, gps: GpsData,
                        timestamp: string): (r: string)
    ensures StartsWith(r, bssid + ":") && EndsWith(r, "\n")
  {
    var fields := EntryFields(bssid, password, info, gps, timestamp);
    var r := Join(fields, ':') + "\n";
    assert Join(fields, ':') == bssid + [':'] + Join(fields[1..], ':');
    assert r[..|bssid| + 1] == bssid + ":";
    r
  }

  /** An entry ends with its newline and holds at least the seven separators of its eight fields. */
  lemma PotfileEntryShape(bssid: string, password: string, info: NetworkInfo, gps: GpsData, timestamp: string)
    ensures var e := PotfileEntry(bssid, password, info, gps, timestamp);
            EndsWith(e, "\n") && Count(e, ':') >= 7
  {
    var fields := EntryFields(bssid, password, info, gps, timestamp);
    var body := Join(fields, ':');
    CountJoin(fields, ':');
    CountAppend(body, "\n", ':');
    assert (body + "\n")[|body|..] == "\n";
  }
}
