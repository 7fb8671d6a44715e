/**
 * The deauthentication sniffer (deauth_sniffer.py): a table from MAC address to
 * the time it was first seen sending deauthentication frames, with insertion of
 * new MACs only, time-based expiry, a size cap that keeps the newest entries,
 * rate limiting of the scan and a status message that expires.
 *
 * The table is a Python dict, whose iteration order is insertion order; that
 * order decides which entries the cap keeps when timestamps tie, so it is kept
 * here as a sequence of entries with pairwise distinct MACs.
 */
module DeauthSniffer {
  import opened Optional
  import opened Strings
  import opened Sorting
  import opened Arith

  /** A value in an access point's record, as far as the scan looks at it. */
  datatype Value =
    | Str(s: string)
    | Obj(typ: Option<string>) // a nested dict and its `type` entry
    | Other                    // numbers, lists, None

  /** An element of the access point list: a dict (its items in order) or anything else. */
  datatype AccessPoint = NotADict | Dict(items: seq<(string, Value)>)

  /** One entry of `detected_bssids`. */
  datatype Detection = Detection(mac: string, ts: int)

  function Ts(d: Detection): int { d.ts }

  /** The plugin's options; `whitelist` is `None` when the key is absent. */
  datatype Options = Options(whitelist: Option<seq<string>>, cleanupInterval: int, detectionTimeout: int,
                             uiUpdateInterval: int, maxDetections: int, messageDuration: int)

  /** What `on_ui_update` does to the status widget. */
  datatype UiAction = Remove | Show(text: string) | Leave

  /**
   * How the display calls of `on_wifi_update`'s own `try` end: `agent.view()` or
   * `view.set` raises before the message is set, `view.add_element` raises after
   * it, or every call returns.
   */
  datatype UiCalls = ViewRaises | AddElementRaises | UiSucceeds

  function Macs(ds: seq<Detection>): (r: seq<string>)
    ensures |r| == |ds| && forall i :: 0 <= i < |ds| ==> r[i] == ds[i].mac
  {
    seq(|ds|, i requires 0 <= i < |ds| => ds[i].mac)
  }

  /** The entries have pairwise distinct MACs, as the keys of a dict do. */
  predicate Keyed(ds: seq<Detection>) {
    forall i, j :: 0 <= i < j < |ds| ==> ds[i].mac != ds[j].mac
  }

  // ---------------------------------------------------------------- cleanup

  /** The dict comprehension keeping entries with `now - ts < timeout`, in order. */
  function Expire(ds: seq<Detection>, now: int, timeout: int): (r: seq<Detection>)
    ensures |r| <= |ds|
    ensures forall d :: d in r ==> d in ds && now - d.ts < timeout
  {
    if ds == [] then []
    else (if now - ds[0].ts < timeout then [ds[0]] else []) + Expire(ds[1..], now, timeout)
  }

  /** Expiry keeps exactly the entries younger than the timeout, unchanged. */
  lemma {:induction false} ExpireSpec(ds: seq<Detection>, now: int, timeout: int)
    ensures forall d :: d in Expire(ds, now, timeout) <==> d in ds && now - d.ts < timeout
  {
    if ds != [] {
      ExpireSpec(ds[1..], now, timeout);
      assert ds == [ds[0]] + ds[1..];
    }
  }

  /** Expiry keeps the MACs distinct. */
  lemma {:induction false} ExpireKeyed(ds: seq<Detection>, now: int, timeout: int)
    requires Keyed(ds)
    ensures Keyed(Expire(ds, now, timeout))
  {
    if ds != [] {
      var rest := Expire(ds[1..], now, timeout);
      ExpireKeyed(ds[1..], now, timeout);
      ExpireSpec(ds[1..], now, timeout);
      if now - ds[0].ts < timeout {
        var r := [ds[0]] + rest;
        forall i, j | 0 <= i < j < |r|
          ensures r[i].mac != r[j].mac
        {
          if i == 0 {
            assert r[j] in ds[1..];
          }
        }
      }
    }
  }

  /** Python's `xs[start:]` for any integer `start`. */
  function PyTail<T>(xs: seq<T>, start: int): (r: seq<T>)
    ensures |r| <= |xs|
  {
    if start >= 0 then xs[Min(start, |xs|)..]
    else if |xs| + start > 0 then xs[|xs| + start..]
    else xs
  }

  /** `xs[start:]` is a suffix of `xs`. */
  lemma PyTailIsSuffix<T>(xs: seq<T>, start: int)
    ensures PyTail(xs, start) == xs[|xs| - |PyTail(xs, start)|..]
  {
  }

  /** Python's `xs[-k:]` for `0 < k < len(xs)`: the last `k` elements. */
  lemma PyTailDrop<T>(xs: seq<T>, k: int)
    requires 0 < k < |xs|
    ensures PyTail(xs, -k) == xs[|xs| - k..]
  {
  }

  /** The cap: above `max` entries, `dict(sorted(items, key=ts)[-max:])`. */
  function Cap(ds: seq<Detection>, max: int): (r: seq<Detection>)
    ensures |r| <= |ds|
    ensures max > 0 ==> |r| <= max
    ensures |ds| <= max ==> r == ds
  {
    if |ds| > max then PyTail(SortBy(ds, Ts), -max) else ds
  }

  /**
   * With a positive maximum, the cap leaves `min(|ds|, max)` of the entries and
   * every entry it drops is no newer than every entry it keeps.
   */
  lemma CapKeepsNewest(ds: seq<Detection>, max: int)
    requires max > 0
    ensures |Cap(ds, max)| == Min(|ds|, max)
    ensures multiset(Cap(ds, max)) <= multiset(ds)
    ensures forall x, y :: x in Cap(ds, max) && y in ds && y !in Cap(ds, max) ==> y.ts <= x.ts
  {
    if |ds| > max {
      NewestTail(ds, SortBy(ds, Ts), max);
    }
  }

  /**
   * The last `max` entries of a time-sorted reordering of a table are part of
   * the table, and no entry of the table left out is newer than one kept.
   */
  lemma NewestTail(ds: seq<Detection>, s: seq<Detection>, max: int)
    requires 0 < max < |s| && SortedBy(s, Ts) && multiset(s) == multiset(ds)
    ensures |PyTail(s, -max)| == max
    ensures multiset(PyTail(s, -max)) <= multiset(ds)
    ensures forall x, y :: x in PyTail(s, -max) && y in ds && y !in PyTail(s, -max) ==> y.ts <= x.ts
  {
    PyTailDrop(s, max);
    SuffixKept(ds, s, |s| - max);
    SuffixKeepsNewest(ds, s, |s| - max);
  }

  /** A suffix of a reordering of a table is part of the table. */
  lemma SuffixKept(ds: seq<Detection>, s: seq<Detection>, cut: nat)
    requires multiset(s) == multiset(ds) && cut <= |s|
    ensures multiset(s[cut..]) <= multiset(ds)
  {
    assert s == s[..cut] + s[cut..];
    assert multiset(s) == multiset(s[..cut]) + multiset(s[cut..]);
  }

  /** In a time-sorted reordering of a table, no entry of the table outside a suffix is newer than one in it. */
  lemma SuffixKeepsNewest(ds: seq<Detection>, s: seq<Detection>, cut: nat)
    requires SortedBy(s, Ts) && multiset(s) == multiset(ds) && cut <= |s|
    ensures forall x, y :: x in s[cut..] && y in ds && y !in s[cut..] ==> y.ts <= x.ts
  {
    SortedSplit(s, Ts, cut);
    forall x, y | x in s[cut..] && y in ds && y !in s[cut..]
      ensures y.ts <= x.ts
    {
      assert y in multiset(ds);
      assert s == s[..cut] + s[cut..];
      assert y in s[..cut];
      assert Ts(y) <= Ts(x);
    }
  }

  /**
   * A maximum of 0 caps nothing: `xs[-0:]` is the whole list, so every entry is
   * kept, merely reordered by time.
   */
  lemma CapZeroKeepsAll(ds: seq<Detection>)
    ensures multiset(Cap(ds, 0)) == multiset(ds)
  {
  }

  /** A negative maximum `-k` drops the `k` oldest entries instead of keeping the newest. */
  lemma CapNegativeDrops(ds: seq<Detection>, k: int)
    requires k > 0
    ensures |Cap(ds, -k)| == if |ds| > k then |ds| - k else 0
    ensures multiset(Cap(ds, -k)) <= multiset(ds)
    ensures forall x, y :: x in Cap(ds, -k) && y in ds && y !in Cap(ds, -k) ==> y.ts <= x.ts
  {
    var s := SortBy(ds, Ts);
    var cut := Min(k, |s|);
    assert Cap(ds, -k) == s[cut..];
    SuffixKept(ds, s, cut);
    SuffixKeepsNewest(ds, s, cut);
  }

  /** A sequence without repeated elements counts each element at most once. */
  lemma {:induction false} KeyedCountsOnce(ds: seq<Detection>, x: Detection)
    requires Keyed(ds)
    ensures multiset(ds)[x] <= 1
  {
    if ds != [] {
      assert ds == [ds[0]] + ds[1..];
      KeyedCountsOnce(ds[1..], x);
      if x == ds[0] {
        assert x !in ds[1..];
      }
    }
  }

  /** Two equal elements at two positions count twice. */
  lemma CountsTwice(s: seq<Detection>, i: nat, j: nat)
    requires i < j < |s| && s[i] == s[j]
    ensures multiset(s)[s[i]] >= 2
  {
    assert s == s[..j] + [s[j]] + s[j + 1..];
    assert s[i] in s[..j];
  }

  /** Distinct MACs survive any reordering. */
  lemma KeyedPermutation(a: seq<Detection>, b: seq<Detection>)
    requires Keyed(a) && multiset(a) == multiset(b)
    ensures Keyed(b)
  {
    forall i, j | 0 <= i < j < |b|
      ensures b[i].mac != b[j].mac
    {
      if b[i] == b[j] {
        CountsTwice(b, i, j);
        KeyedCountsOnce(a, b[i]);
      } else {
        assert b[i] in multiset(a) && b[j] in multiset(a);
        var p :| 0 <= p < |a| && a[p] == b[i];
        var q :| 0 <= q < |a| && a[q] == b[j];
        assert p != q;
      }
    }
  }

  /** The cap keeps the MACs distinct. */
  lemma CapKeyed(ds: seq<Detection>, max: int)
    requires Keyed(ds)
    ensures Keyed(Cap(ds, max))
  {
    if |ds| > max {
      var s := SortBy(ds, Ts);
      KeyedPermutation(ds, s);
      var r := PyTail(s, -max);
      PyTailIsSuffix(s, -max);
      KeyedSuffix(s, |s| - |r|);
    }
  }

  /** Dropping a prefix keeps the MACs distinct. */
  lemma KeyedSuffix(ds: seq<Detection>, cut: nat)
    requires Keyed(ds) && cut <= |ds|
    ensures Keyed(ds[cut..])
  {
    var r := ds[cut..];
    assert forall i :: 0 <= i < |r| ==> r[i] == ds[cut + i];
  }

  /** `_cleanup_old_detections` once the interval has passed: expiry, then the cap. */
  function Cleaned(ds: seq<Detection>, now: int, options: Options): (r: seq<Detection>)
    ensures |r| <= |ds|
    ensures options.maxDetections > 0 ==> |r| <= options.maxDetections
  {
    Cap(Expire(ds, now, options.detectionTimeout), options.maxDetections)
  }

  /** Whatever the maximum, the cap only drops entries. */
  lemma CapSubset(ds: seq<Detection>, max: int)
    ensures forall d :: d in Cap(ds, max) ==> d in ds
  {
    if |ds| > max {
      var s := SortBy(ds, Ts);
      PyTailIsSuffix(s, -max);
      forall d | d in Cap(ds, max)
        ensures d in ds
      {
        assert d in s;
        assert d in multiset(s);
      }
    }
  }

  /**
   * After a cleanup every entry was in the table before, with the same
   * timestamp, and is younger than the timeout; a positive maximum bounds the
   * size, and when the young entries fit they are all kept, in order.
   */
  lemma CleanedSpec(ds: seq<Detection>, now: int, options: Options)
    ensures forall d :: d in Cleaned(ds, now, options) ==> d in ds && now - d.ts < options.detectionTimeout
    ensures options.maxDetections > 0 ==> |Cleaned(ds, now, options)| <= options.maxDetections
    ensures |Expire(ds, now, options.detectionTimeout)| <= options.maxDetections ==>
              Cleaned(ds, now, options) == Expire(ds, now, options.detectionTimeout)
  {
    var young := Expire(ds, now, options.detectionTimeout);
    ExpireSpec(ds, now, options.detectionTimeout);
    CapSubset(young, options.maxDetections);
    if options.maxDetections > 0 {
      CapKeepsNewest(young, options.maxDetections);
    }
  }

  // ---------------------------------------------------------------- detection

  /** `'deauth' in s.lower() or 'deauthentication' in s.lower()`. */
  predicate MentionsDeauth(s: string) {
    Contains(Lower(s), "deauth") || Contains(Lower(s), "deauthentication")
  }

  /** The second test adds nothing: a text holding `deauthentication` holds `deauth`. */
  lemma LongFormRedundant(s: string)
    ensures MentionsDeauth(s) <==> Contains(Lower(s), "deauth")
  {
    var long: string := "deauthentication";
    assert long[..6] == "deauth";
    assert Contains(long, "deauth");
    if Contains(Lower(s), long) {
      ContainsTransitive(Lower(s), long, "deauth");
    }
  }

  /** A value that marks its access point: a string mentioning deauth, or a dict whose `type` does. */
  predicate Indicates(v: Value) {
    match v
    case Str(s) => MentionsDeauth(s)
    case Obj(typ) => typ.Some? && MentionsDeauth(typ.value)
    case Other => false
  }

  predicate IsDeauth(items: seq<(string, Value)>) {
    exists k :: 0 <= k < |items| && Indicates(items[k].1)
  }

  /** `ap.get(key)`: the value of the first item with that key. */
  function Get(items: seq<(string, Value)>, key: string): (r: Option<Value>)
    ensures r.Some? <==> exists k :: 0 <= k < |items| && items[k].0 == key
  {
    if items == [] then None
    else if items[0].0 == key then Some(items[0].1)
    else
      var r := Get(items[1..], key);
      assert forall k :: 0 < k < |items| ==> items[k] == items[1..][k - 1];
      r
  }

  /** The MAC an access point gives: its `mac` value when that is a non-empty string. */
  function MacOf(items: seq<(string, Value)>): Option<string> {
    match Get(items, "mac")
    case Some(Str(s)) => if s != "" then Some(s) else None
    case _ => None
  }

  /** The MAC an access point is recorded under, if it is a dict with a MAC off the whitelist that shows deauth. */
  function DeauthMac(ap: AccessPoint, whitelist: seq<string>): (r: Option<string>)
    ensures r.Some? ==> ap.Dict? && MacOf(ap.items) == r && r.value !in whitelist && IsDeauth(ap.items)
    ensures ap.Dict? && MacOf(ap.items).Some? && MacOf(ap.items).value !in whitelist && IsDeauth(ap.items) ==>
              r == MacOf(ap.items)
  {
    match ap
    case NotADict => None
    case Dict(items) =>
      match MacOf(items)
      case None => None
      case Some(mac) => if mac in whitelist || !IsDeauth(items) then None else Some(mac)
  }

  /** The entries for `macs`, all stamped `now`. */
  function Stamped(macs: seq<string>, now: int): (r: seq<Detection>)
    ensures |r| == |macs| && forall i :: 0 <= i < |r| ==> r[i] == Detection(macs[i], now)
  {
    seq(|macs|, i requires 0 <= i < |macs| => Detection(macs[i], now))
  }

  /**
   * The table and `new_detections` after the scan has looked at `aps`, from the
   * table `ds`: a MAC is inserted, stamped `now`, only when it is absent.
   */
  function Detect(ds: seq<Detection>, aps: seq<AccessPoint>, whitelist: seq<string>, now: int): (r: (seq<Detection>, seq<string>))
    ensures r.0 == ds + Stamped(r.1, now)
  {
    if aps == [] then (ds, [])
    else
      var (table, found) := Detect(ds, aps[..|aps| - 1], whitelist, now);
      var mac := DeauthMac(aps[|aps| - 1], whitelist);
      if mac.Some? && mac.value !in Macs(table) then (table + [Detection(mac.value, now)], found + [mac.value])
      else (table, found)
  }

  /**
   * The scan only appends: the entries already there keep their MACs and
   * timestamps, and the MACs appended are new to the table and pairwise
   * distinct; each comes from an access point that shows deauth, and every
   * such access point's MAC is in the table afterwards.
   */
  lemma {:induction false} DetectSpec(ds: seq<Detection>, aps: seq<AccessPoint>, whitelist: seq<string>, now: int)
    requires Keyed(ds)
    ensures var (table, found) := Detect(ds, aps, whitelist, now);
            && Keyed(table)
            && (forall m :: m in found ==> m !in Macs(ds))
            && (forall m :: m in found ==> exists i :: 0 <= i < |aps| && DeauthMac(aps[i], whitelist) == Some(m))
            && (forall i :: 0 <= i < |aps| && DeauthMac(aps[i], whitelist).Some? ==>
                  DeauthMac(aps[i], whitelist).value in Macs(table))
  {
    if aps != [] {
      var n := |aps| - 1;
      var init := aps[..n];
      DetectSpec(ds, init, whitelist, now);
      var (table, found) := Detect(ds, init, whitelist, now);
      assert forall i :: 0 <= i < n ==> init[i] == aps[i];
      var mac := DeauthMac(aps[n], whitelist);
      if mac.Some? && mac.value !in Macs(table) {
        var t := table + [Detection(mac.value, now)];
        assert Macs(t) == Macs(table) + [mac.value];
        forall i, j | 0 <= i < j < |t|
          ensures t[i].mac != t[j].mac
        {
          if j == |table| {
            assert t[i].mac == Macs(table)[i];
          }
        }
        forall m | m in found + [mac.value]
          ensures m !in Macs(ds)
        {
          if m == mac.value {
            assert Macs(table) == Macs(ds) + Macs(Stamped(found, now));
          }
        }
      }
    }
  }

  // ---------------------------------------------------------------- messages

  const MessagePrefix: string := "Deauth detected: "
  const MessageSuffix: string := " new frames"

  /**
   * The status text for `n` new detections: between its fixed prefix and suffix
   * it spells `n` in decimal.
   */
  function DetectionMessage(n: nat): (r: string)
    ensures StartsWith(r, MessagePrefix) && EndsWith(r, MessageSuffix)
    ensures |r| > |MessagePrefix| + |MessageSuffix|
    ensures var count := r[|MessagePrefix|..|r| - |MessageSuffix|];
            AllDigits(count) && DigitsValue(count) == n
  {
    var count := NatToString(n);
    var r := MessagePrefix + count + MessageSuffix;
    assert r[|r| - |MessageSuffix|..] == MessageSuffix;
    assert r[|MessagePrefix|..|r| - |MessageSuffix|] == count;
    r
  }

  /** `on_ui_update` as a step on (message, expiry): the message and what the widget gets. */
  function UiStep(message: Option<string>, expiry: int, now: int): (r: (Option<string>, UiAction))
    ensures r.1 == Remove <==> message.Some? && message.value != [] && now > expiry
    ensures r.1 == Remove ==> r.0 == None
    ensures r.1 != Remove ==> r.0 == message
    ensures r.1.Show? ==> message == Some(r.1.text) && now <= expiry
  {
    if message.Some? && message.value != [] && now > expiry then (None, Remove)
    else if message.Some? && message.value != [] then (message, Show(message.value))
    else (message, Leave)
  }

  /**
   * A message set at `setAt` for `duration` seconds is shown by every UI update
   * up to and including `setAt + duration` and removed by the first one after.
   */
  lemma MessageLifetime(n: nat, setAt: int, duration: int, now: int)
    ensures var (msg, action) := UiStep(Some(DetectionMessage(n)), setAt + duration, now);
            if now <= setAt + duration then msg == Some(DetectionMessage(n)) && action == Show(DetectionMessage(n))
            else msg == None && action == Remove
  {
    assert DetectionMessage(n) != [];
  }

  /** `[mac.lower() for mac in whitelist]`. */
  function LowerAll(macs: seq<string>): (r: seq<string>)
    ensures |r| == |macs| && forall i :: 0 <= i < |r| ==> r[i] == Lower(macs[i])
  {
    seq(|macs|, i requires 0 <= i < |macs| => Lower(macs[i]))
  }

  /**
   * The whitelist is lower-cased but the access point's MAC is not: a MAC that
   * is not all lower case is recorded even when it is the one configured.
   */
  lemma WhitelistIsCaseSensitive(mac: string, items: seq<(string, Value)>)
    requires MacOf(items) == Some(mac) && IsDeauth(items) && Lower(mac) != mac
    ensures DeauthMac(Dict(items), LowerAll([mac])) == Some(mac)
  {
  }

  /** The inner loop over `ap.items()`, stopping at the first value that indicates deauth. */
  method ScanItems(items: seq<(string, Value)>) returns (isDeauth: bool)
    ensures isDeauth == IsDeauth(items)
  {
    isDeauth := false;
    var i := 0;
    while i < |items|
      invariant 0 <= i <= |items|
      invariant forall k :: 0 <= k < i ==> !Indicates(items[k].1)
    {
      if Indicates(items[i].1) {
        isDeauth := true;
        return;
      }
      i := i + 1;
    }
  }

  /** The plugin object and the fields its hooks update. */
  class Sniffer {
    const options: Options
    var ready: bool
    var detections: seq<Detection> // `detected_bssids`, in insertion order
    var whitelist: seq<string>
    var lastUiUpdate: int
    var lastCleanup: int
    var messageExpiry: int
    var currentMessage: Option<string>

    /** The table is a dict: one entry per MAC. */
    predicate Valid()
      reads this
    {
      Keyed(detections)
    }

    constructor(options: Options)
      ensures Valid()
      ensures this.options == options && !ready && detections == [] && whitelist == []
      ensures lastUiUpdate == 0 && lastCleanup == 0 && messageExpiry == 0 && currentMessage == None
    {
      this.options := options;
      ready := false;
      detections := [];
      whitelist := [];
      lastUiUpdate := 0;
      lastCleanup := 0;
      messageExpiry := 0;
      currentMessage := None;
    }

    /** `on_loaded`: `logFileOk` says whether creating the log file succeeded. */
    method OnLoaded(logFileOk: bool)
      modifies this`whitelist, this`ready
      ensures whitelist == if options.whitelist.Some? then LowerAll(options.whitelist.value) else old(whitelist)
      ensures ready == logFileOk
    {
      if options.whitelist.Some? {
        whitelist := LowerAll(options.whitelist.value);
      }
      ready := logFileOk;
    }

    /** `_cleanup_old_detections`: runs only once `cleanup_interval` has passed since the last run. */
    method CleanupOldDetections(now: int)
      requires Valid()
      modifies this`detections, this`lastCleanup
      ensures Valid()
      ensures now - old(lastCleanup) < options.cleanupInterval ==>
                detections == old(detections) && lastCleanup == old(lastCleanup)
      ensures now - old(lastCleanup) >= options.cleanupInterval ==>
                detections == Cleaned(old(detections), now, options) && lastCleanup == now
    {
      if now - lastCleanup < options.cleanupInterval {
        return;
      }
      var young := Expire(detections, now, options.detectionTimeout);
      ExpireKeyed(detections, now, options.detectionTimeout);
      var kept := young;
      if |young| > options.maxDetections {
        kept := PyTail(SortBy(young, Ts), -options.maxDetections);
      }
      assert kept == Cap(young, options.maxDetections);
      CapKeyed(young, options.maxDetections);
      detections := kept;
      lastCleanup := now;
    }

    /**
     * `on_wifi_update`: when ready and not rate limited, cleans up, then records
     * every access point that shows deauth and is new to the table. New
     * detections set the message and its expiry unless the display raises
     * first (`ui`), and restart the rate limit only when every display call
     * returns; a raise there is caught and logged.
     */
    method OnWifiUpdate(now: int, aps: seq<AccessPoint>, ui: UiCalls)
      requires Valid()
      modifies this`detections, this`lastCleanup, this`currentMessage, this`messageExpiry, this`lastUiUpdate
      ensures Valid()
      ensures !ready || now - old(lastUiUpdate) < options.uiUpdateInterval ==>
                && detections == old(detections) && lastCleanup == old(lastCleanup)
                && currentMessage == old(currentMessage) && messageExpiry == old(messageExpiry)
                && lastUiUpdate == old(lastUiUpdate)
      ensures ready && now - old(lastUiUpdate) >= options.uiUpdateInterval ==>
                var due := now - old(lastCleanup) >= options.cleanupInterval;
                var cleaned := if due then Cleaned(old(detections), now, options) else old(detections);
                var (table, found) := Detect(cleaned, aps, whitelist, now);
                && detections == table
                && lastCleanup == (if due then now else old(lastCleanup))
                && (found != [] && !ui.ViewRaises? ==>
                      currentMessage == Some(DetectionMessage(|found|)) &&
                      messageExpiry == now + options.messageDuration)
                && (found == [] || ui.ViewRaises? ==>
                      currentMessage == old(currentMessage) && messageExpiry == old(messageExpiry))
                && lastUiUpdate == (if found != [] && ui.UiSucceeds? then now else old(lastUiUpdate))
    {
      if !ready || now - lastUiUpdate < options.uiUpdateInterval {
        return;
      }
      CleanupOldDetections(now);
      ghost var cleaned := detections;
      var found := RecordDeauths(now, aps);
      DetectSpec(cleaned, aps, whitelist, now);
      if found != [] && !ui.ViewRaises? {
        currentMessage := Some(DetectionMessage(|found|));
        messageExpiry := now + options.messageDuration;
        if ui.UiSucceeds? {
          lastUiUpdate := now;
        }
      }
    }

    /**
     * The access-point loop of `on_wifi_update`: every access point that shows
     * deauth, is off the whitelist and is new to the table is recorded at `now`.
     */
    method RecordDeauths(now: int, aps: seq<AccessPoint>) returns (found: seq<string>)
      modifies this`detections
      ensures (detections, found) == Detect(old(detections), aps, whitelist, now)
    {
      found := [];
      for i := 0 to |aps|
        invariant (detections, found) == Detect(old(detections), aps[..i], whitelist, now)
        modifies this`detections
      {
        assert aps[..i + 1][..i] == aps[..i];
        var ap := aps[i];
        if ap.Dict? {
          var mac := MacOf(ap.items);
          if mac.Some? && mac.value !in whitelist {
            var isDeauth := ScanItems(ap.items);
            if isDeauth && mac.value !in Macs(detections) {
              detections := detections + [Detection(mac.value, now)];
              found := found + [mac.value];
            }
          }
        }
      }
      assert aps[..|aps|] == aps;
    }

    /** `on_ui_update`: clears an expired message (strictly past its expiry), else shows it. */
    method OnUiUpdate(now: int) returns (action: UiAction)
      modifies this`currentMessage
      ensures (currentMessage, action) == UiStep(old(currentMessage), messageExpiry, now)
    {
      if currentMessage.Some? && currentMessage.value != [] && now > messageExpiry {
        currentMessage := None;
        return Remove;
      }
      if currentMessage.Some? && currentMessage.value != [] {
        action := Show(currentMessage.value);
      } else {
        action := Leave;
      }
    }
  }
}
