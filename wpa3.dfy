/**
 * The WPA3 capture classifier (wpa3parse.py): for each handshake it reads the
 * access point's fields, skips whitelisted networks, decides whether both the
 * capture and the access point advertise WPA3 or SAE, and, if so, names the
 * copy of the capture and of its GPS and geo sidecar files.
 */
module Wpa3Parse {
  import opened Optional
  import opened Strings

  const Wpa3Dir: string := "/home/pi/handshakes/wpa3/"
  const MetaExtensions: seq<string> := [".gps.json", ".geo.json"]

  /** The plugin's two settings. */
  datatype Config = Config(copyGpsGeo: bool, whitelist: seq<string>)

  /** The settings before `on_loaded`. */
  const InitialConfig: Config := Config(true, [])

  /** The two options as configured; `None` when the key is absent. */
  datatype LoadOptions = LoadOptions(copyGpsGeo: Option<bool>, whitelist: Option<seq<string>>)

  /** `on_loaded`: each setting is read with its default, copying on and an empty whitelist. */
  function OnLoaded(options: LoadOptions): (c: Config)
    ensures options.copyGpsGeo.None? ==> c.copyGpsGeo
    ensures options.whitelist.None? ==> c.whitelist == []
    ensures options.copyGpsGeo.Some? ==> c.copyGpsGeo == options.copyGpsGeo.value
    ensures options.whitelist.Some? ==> c.whitelist == options.whitelist.value
  {
    Config(options.copyGpsGeo.GetOr(true), options.whitelist.GetOr([]))
  }

  /** An `encryption` value: a list of names, or a single string, which iterates by character. */
  datatype Encryption = EncList(names: seq<string>) | EncText(text: string)

  /** What `for enc in encryption` yields. */
  function Entries(e: Encryption): (r: seq<string>)
    ensures e.EncText? ==> |r| == |e.text| && forall k :: 0 <= k < |r| ==> r[k] == [e.text[k]]
    ensures e.EncList? ==> r == e.names
  {
    match e
    case EncList(names) => names
    case EncText(text) => seq(|text|, k requires 0 <= k < |text| => [text[k]])
  }

  /**
   * The `access_point` argument: a dict with its `encryption`, `mac` and
   * `hostname` entries (each `None` when absent), or a plain string.
   */
  datatype AccessPoint =
    | ApDict(encryption: Option<Encryption>, mac: Option<string>, hostname: Option<string>)
    | ApValue(text: string)

  /** The encryption names read from the access point: `[]` unless it is a dict with the key. */
  function ApEncryption(ap: AccessPoint): seq<string> {
    if ap.ApDict? && ap.encryption.Some? then Entries(ap.encryption.value) else []
  }

  /** The BSSID: the `mac` of a dict, or the value itself. */
  function ApBssid(ap: AccessPoint): Option<string> {
    match ap
    case ApDict(_, mac, _) => mac
    case ApValue(text) => Some(text)
  }

  /** The SSID: the `hostname` of a dict; nothing otherwise. */
  function ApSsid(ap: AccessPoint): Option<string> {
    if ap.ApDict? then ap.hostname else None
  }

  predicate Truthy(s: Option<string>) {
    s.Some? && s.value != []
  }

  /** `any(w.lower() in s.lower() for w in whitelist)`. */
  predicate Listed(whitelist: seq<string>, s: string) {
    exists k :: 0 <= k < |whitelist| && Contains(Lower(s), Lower(whitelist[k]))
  }

  /** `enc.upper() in ["WPA3", "SAE"]`: an exact match, ignoring case. */
  predicate IsWpa3Name(enc: string) {
    Upper(enc) == "WPA3" || Upper(enc) == "SAE"
  }

  /** The names are matched ignoring case, and only exactly. */
  lemma Wpa3NameExamples()
    ensures IsWpa3Name("sae") && IsWpa3Name("Wpa3") && IsWpa3Name("SAE")
    ensures !IsWpa3Name("WPA2") && !IsWpa3Name("WPA3-SAE")
  {
    assert Upper("WPA2")[3] == '2';
  }

  predicate AnyWpa3(encs: seq<string>) {
    exists k :: 0 <= k < |encs| && IsWpa3Name(encs[k])
  }

  /** What `on_handshake` decides. */
  datatype Outcome =
    | SkippedBssid
    | SkippedSsid
    | NotWpa3
    | Captured(dest: string, metaCopies: seq<(string, string)>) // the capture's copy, then (source, copy) per sidecar

  /** `filename.replace('.pcap', ext)`. */
  function MetaFile(filename: string, ext: string): string {
    ReplaceAll(filename, ".pcap", ext)
  }

  /** The sidecar copies made, in extension order: those whose file exists. */
  function MetaCopies(filename: string, exts: seq<string>, existing: set<string>): seq<(string, string)> {
    if exts == [] then []
    else
      var meta := MetaFile(filename, exts[0]);
      (if meta in existing then [(meta, Wpa3Dir + Basename(meta))] else []) + MetaCopies(filename, exts[1..], existing)
  }

  /**
   * The decision part of `on_handshake`: `pcapEncryption` is what the capture
   * advertises and `existing` the files present on disk.
   */
  function OnHandshake(config: Config, filename: string, pcapEncryption: seq<string>, ap: AccessPoint,
                       existing: set<string>): (o: Outcome)
    ensures o.Captured? ==> AnyWpa3(pcapEncryption) && AnyWpa3(ApEncryption(ap))
    ensures o.Captured? ==> StartsWith(o.dest, Wpa3Dir)
    ensures !o.SkippedBssid? ==> !(Truthy(ApBssid(ap)) && Listed(config.whitelist, ApBssid(ap).value))
  {
    var bssid := ApBssid(ap);
    var ssid := ApSsid(ap);
    if Truthy(bssid) && Listed(config.whitelist, bssid.value) then SkippedBssid
    else if Truthy(ssid) && Listed(config.whitelist, ssid.value) then SkippedSsid
    else if !(AnyWpa3(pcapEncryption) && AnyWpa3(ApEncryption(ap))) then NotWpa3
    else
      Captured(Wpa3Dir + Basename(filename),
               if config.copyGpsGeo then MetaCopies(filename, MetaExtensions, existing) else [])
  }

  /**
   * A handshake is kept exactly when neither its BSSID nor its SSID is
   * whitelisted and both the capture and the access point advertise WPA3 or
   * SAE; the whitelist is consulted first, so a whitelisted network is skipped
   * whatever its encryption.
   */
  lemma ClassificationSpec(config: Config, filename: string, pcapEncryption: seq<string>, ap: AccessPoint,
                           existing: set<string>)
    ensures var o := OnHandshake(config, filename, pcapEncryption, ap, existing);
            && (o.Captured? <==>
                  !(Truthy(ApBssid(ap)) && Listed(config.whitelist, ApBssid(ap).value)) &&
                  !(Truthy(ApSsid(ap)) && Listed(config.whitelist, ApSsid(ap).value)) &&
                  AnyWpa3(pcapEncryption) && AnyWpa3(ApEncryption(ap)))
            && (o.SkippedBssid? <==> Truthy(ApBssid(ap)) && Listed(config.whitelist, ApBssid(ap).value))
  {
  }

  /** An access point given as a plain value has no encryption list, so it is never kept. */
  lemma PlainAccessPointNeverCaptured(config: Config, filename: string, pcapEncryption: seq<string>,
                                      text: string, existing: set<string>)
    ensures !OnHandshake(config, filename, pcapEncryption, ApValue(text), existing).Captured?
  {
  }

  /** A one-character name is never `WPA3` or `SAE`. */
  lemma ShortNameNeverMatches(enc: string)
    requires |enc| == 1
    ensures !IsWpa3Name(enc)
  {
    assert |Upper(enc)| == 1;
  }

  /**
   * An access point whose `encryption` is one string is iterated character by
   * character, so it never counts as WPA3, even for the text `WPA3`.
   */
  lemma TextEncryptionNeverMatches(text: string)
    ensures !AnyWpa3(Entries(EncText(text)))
  {
    var encs := Entries(EncText(text));
    forall k | 0 <= k < |encs|
      ensures !IsWpa3Name(encs[k])
    {
      ShortNameNeverMatches(encs[k]);
    }
  }

  /** Lower-casing keeps every occurrence. */
  lemma LowerKeepsOccurrence(hay: string, needle: string, i: int)
    requires OccursAt(hay, needle, i)
    ensures OccursAt(Lower(hay), Lower(needle), i)
  {
    var lh, ln := Lower(hay), Lower(needle);
    assert forall k :: 0 <= k < |needle| ==> lh[i..i + |needle|][k] == LowerChar(hay[i + k]) == ln[k];
  }

  /** An entry that appears verbatim in the BSSID or SSID matches, whatever the case of either. */
  lemma VerbatimEntryListed(whitelist: seq<string>, s: string, k: nat)
    requires k < |whitelist| && Contains(s, whitelist[k])
    ensures Listed(whitelist, s)
  {
    ContainsAt(s, whitelist[k]);
    var i :| OccursAt(s, whitelist[k], i);
    LowerKeepsOccurrence(s, whitelist[k], i);
    ContainsAt(Lower(s), Lower(whitelist[k]));
  }

  /** An empty whitelist entry is a substring of everything: every handshake with a BSSID is skipped. */
  lemma EmptyEntrySkipsAll(config: Config, filename: string, pcapEncryption: seq<string>, ap: AccessPoint,
                           existing: set<string>)
    requires [] in config.whitelist && Truthy(ApBssid(ap))
    ensures OnHandshake(config, filename, pcapEncryption, ap, existing) == SkippedBssid
  {
    var k :| 0 <= k < |config.whitelist| && config.whitelist[k] == [];
    assert Lower(config.whitelist[k]) == [];
    assert Contains(Lower(ApBssid(ap).value), []);
  }

  /**
   * The capture is copied into the WPA3 directory under its base name: the
   * name has no `/` and ends the original path.
   */
  lemma DestinationSpec(config: Config, filename: string, pcapEncryption: seq<string>, ap: AccessPoint,
                        existing: set<string>)
    requires OnHandshake(config, filename, pcapEncryption, ap, existing).Captured?
    ensures var dest := OnHandshake(config, filename, pcapEncryption, ap, existing).dest;
            && StartsWith(dest, Wpa3Dir)
            && '/' !in dest[|Wpa3Dir|..]
            && EndsWith(filename, dest[|Wpa3Dir|..])
  {
    var base := Basename(filename);
    assert (Wpa3Dir + base)[..|Wpa3Dir|] == Wpa3Dir;
    assert (Wpa3Dir + base)[|Wpa3Dir|..] == base;
  }

  /** `src` is the capture name with `.pcap` replaced by one of `exts`. */
  predicate IsMetaName(filename: string, exts: seq<string>, src: string) {
    exists k :: 0 <= k < |exts| && src == MetaFile(filename, exts[k])
  }

  /**
   * A sidecar is copied exactly when it exists and is the capture name with
   * `.pcap` replaced by one of the extensions; its copy is its base name in the
   * WPA3 directory.
   */
  lemma {:induction false} MetaCopiesSpec(filename: string, exts: seq<string>, existing: set<string>)
    ensures forall src, dst :: (src, dst) in MetaCopies(filename, exts, existing) <==>
              IsMetaName(filename, exts, src) && src in existing && dst == Wpa3Dir + Basename(src)
  {
    if exts != [] {
      MetaCopiesSpec(filename, exts[1..], existing);
      forall src | IsMetaName(filename, exts, src)
        ensures src == MetaFile(filename, exts[0]) || IsMetaName(filename, exts[1..], src)
      {
        var k :| 0 <= k < |exts| && src == MetaFile(filename, exts[k]);
        if k > 0 {
          assert src == MetaFile(filename, exts[1..][k - 1]);
        }
      }
      forall src | IsMetaName(filename, exts[1..], src)
        ensures IsMetaName(filename, exts, src)
      {
        var k :| 0 <= k < |exts[1..]| && src == MetaFile(filename, exts[1..][k]);
        assert src == MetaFile(filename, exts[k + 1]);
      }
      assert IsMetaName(filename, exts, MetaFile(filename, exts[0]));
    }
  }

  /** With copying switched off, no sidecar is copied. */
  lemma NoCopiesWhenDisabled(config: Config, filename: string, pcapEncryption: seq<string>, ap: AccessPoint,
                             existing: set<string>)
    requires !config.copyGpsGeo && OnHandshake(config, filename, pcapEncryption, ap, existing).Captured?
    ensures OnHandshake(config, filename, pcapEncryption, ap, existing).metaCopies == []
  {
  }

  /**
   * A capture whose name holds no `.pcap` gives itself as both sidecar names:
   * when it is kept, it is copied twice more onto its own copy.
   */
  lemma NoPcapNameCopiesItself(config: Config, filename: string, pcapEncryption: seq<string>, ap: AccessPoint,
                               existing: set<string>)
    requires config.copyGpsGeo && !Contains(filename, ".pcap") && filename in existing
    requires OnHandshake(config, filename, pcapEncryption, ap, existing).Captured?
    ensures var o := OnHandshake(config, filename, pcapEncryption, ap, existing);
            o.metaCopies == [(filename, o.dest), (filename, o.dest)]
  {
    ReplaceAllAbsent(filename, ".pcap", ".gps.json");
    ReplaceAllAbsent(filename, ".pcap", ".geo.json");
    var copy := (filename, Wpa3Dir + Basename(filename));
    assert MetaExtensions[1..] == [".geo.json"];
    assert MetaCopies(filename, [".geo.json"], existing) == [copy] + MetaCopies(filename, [], existing);
    assert MetaCopies(filename, MetaExtensions, existing) == [copy] + MetaCopies(filename, [".geo.json"], existing);
  }
}
