/**
 * The dictionary-scan plugin (quickdic_throttled.py) as a class over the state
 * it keeps between events: the ordered wordlists, the set of handshake files
 * already processed, the wordlists already counted and their running password
 * total, and the busy flag that keeps a second run from starting.
 *
 * What the plugin learns from outside (directory listings, the handshake check
 * and the cracking tool's output per batch, `wc -l` counts, whether a file
 * append succeeded, the elapsed time) is handed to the methods as parameters.
 */
module QuickDic {
  import opened Optional
  import opened Strings
  import opened Sorting
  import opened Wordlists
  import opened ToolOutput
  import opened Scoring
  import opened Batching
  import opened Arith
  import opened Potfile

  /** The folder whose `.pcap` files the webhook offers for processing. */
  const HandshakeDir: string := "/home/pi/handshakes"

  /** `_get_wordlist_size`: the line count of a wordlist, 0 when `wc -l` gives nothing usable. */
  function LineCount(counts: map<string, nat>, wordlist: string): nat {
    if wordlist in counts then counts[wordlist] else 0
  }

  function Elements(s: seq<string>): set<string> {
    set x | x in s
  }

  /** The wordlists attempted once `batch` has been counted on top of `attempted`. */
  function Attempted(attempted: set<string>, batch: seq<string>): set<string> {
    attempted + Elements(batch)
  }

  /**
   * The amount `_process_wordlist_batch` adds to `total_passwords_checked` for
   * `batch` when `attempted` holds the wordlists counted before.
   */
  function NewPasswords(attempted: set<string>, batch: seq<string>, counts: map<string, nat>): (r: nat)
    ensures forall k :: 0 <= k < |batch| && batch[k] !in attempted ==> LineCount(counts, batch[k]) <= r
    decreases |batch|
  {
    if batch == [] then 0
    else
      var rest := NewPasswords(attempted + {batch[0]}, batch[1..], counts);
      assert forall k :: 1 <= k < |batch| ==> batch[k] == batch[1..][k - 1];
      (if batch[0] in attempted then 0 else LineCount(counts, batch[0])) + rest
  }

  /** Counting two stretches of wordlists one after the other. */
  lemma {:induction false} NewPasswordsAppend(attempted: set<string>, a: seq<string>, b: seq<string>,
                                              counts: map<string, nat>)
    ensures NewPasswords(attempted, a + b, counts) ==
            NewPasswords(attempted, a, counts) + NewPasswords(Attempted(attempted, a), b, counts)
    decreases |a|
  {
    if a == [] {
      assert a + b == b;
      assert Elements(a) == {};
      assert attempted + Elements(a) == attempted;
    } else {
      assert (a + b)[0] == a[0] && (a + b)[1..] == a[1..] + b;
      NewPasswordsAppend(attempted + {a[0]}, a[1..], b, counts);
      assert Elements(a) == {a[0]} + Elements(a[1..]) by {
        assert a == [a[0]] + a[1..];
      }
      assert attempted + {a[0]} + Elements(a[1..]) == attempted + Elements(a);
    }
  }

  /** Wordlists counted before add nothing: the total never counts a wordlist twice. */
  lemma {:induction false} NewPasswordsAllAttempted(attempted: set<string>, batch: seq<string>,
                                                    counts: map<string, nat>)
    requires Elements(batch) <= attempted
    ensures NewPasswords(attempted, batch, counts) == 0
    decreases |batch|
  {
    if batch != [] {
      assert batch[0] in Elements(batch);
      assert attempted + {batch[0]} == attempted;
      assert Elements(batch[1..]) <= Elements(batch);
      NewPasswordsAllAttempted(attempted, batch[1..], counts);
    }
  }

  /** Running the same wordlists again leaves the total where it was. */
  lemma NewPasswordsRepeat(attempted: set<string>, batch: seq<string>, counts: map<string, nat>)
    ensures NewPasswords(attempted, batch + batch, counts) == NewPasswords(attempted, batch, counts)
  {
    NewPasswordsAppend(attempted, batch, batch, counts);
    NewPasswordsAllAttempted(Attempted(attempted, batch), batch, counts);
  }

  /** Extending the wordlists counted so far, `s[..lo]`, by the next stretch `s[lo..hi]`. */
  lemma PrefixStep(attempted: set<string>, s: seq<string>, lo: nat, hi: nat, counts: map<string, nat>)
    requires lo <= hi <= |s|
    ensures Attempted(attempted, s[..hi]) == Attempted(Attempted(attempted, s[..lo]), s[lo..hi])
    ensures NewPasswords(attempted, s[..hi], counts) ==
            NewPasswords(attempted, s[..lo], counts) + NewPasswords(Attempted(attempted, s[..lo]), s[lo..hi], counts)
  {
    assert s[..hi] == s[..lo] + s[lo..hi];
    NewPasswordsAppend(attempted, s[..lo], s[lo..hi], counts);
  }

  /** The names `_load_processed_files` reads from the log, line by line. */
  function LoggedNames(lines: seq<string>): set<string> {
    if lines == [] then {}
    else
      var name := Strip(lines[|lines| - 1]);
      LoggedNames(lines[..|lines| - 1]) + (if name != "" then {name} else {})
  }

  /** Every loaded name comes from a line that strips to it. */
  lemma {:induction false} LoggedNameSource(lines: seq<string>, name: string) returns (i: nat)
    requires name in LoggedNames(lines)
    ensures i < |lines| && Strip(lines[i]) == name && name != ""
  {
    var n := |lines| - 1;
    var init := lines[..n];
    if name in LoggedNames(init) {
      i := LoggedNameSource(init, name);
      assert init[i] == lines[i];
    } else {
      i := n;
    }
  }

  /** Every line that is not blank once stripped is loaded. */
  lemma {:induction false} LoggedNameOfLine(lines: seq<string>, i: nat)
    requires i < |lines| && Strip(lines[i]) != ""
    ensures Strip(lines[i]) in LoggedNames(lines)
  {
    var n := |lines| - 1;
    if i < n {
      var init := lines[..n];
      assert init[i] == lines[i];
      LoggedNameOfLine(init, i);
    }
  }

  /** A name is loaded exactly when some line of the log strips to it and it is not blank. */
  lemma {:induction false} LoggedNamesSpec(lines: seq<string>, name: string)
    ensures name in LoggedNames(lines) <==>
            name != "" && exists i :: 0 <= i < |lines| && Strip(lines[i]) == name
  {
    if name in LoggedNames(lines) {
      var i := LoggedNameSource(lines, name);
    }
    if name != "" && exists i :: 0 <= i < |lines| && Strip(lines[i]) == name {
      var i :| 0 <= i < |lines| && Strip(lines[i]) == name;
      LoggedNameOfLine(lines, i);
    }
  }

  /** What `_log_security_audit` appends, without its wall-clock timestamp. */
  datatype AuditRecord = AuditRecord(
    bssid: string,
    result: string,
    timeTaken: int,
    wordlistsChecked: nat,
    totalPasswordsChecked: nat,
    securityScore: int)

  /** How the batch loop of a run ends. */
  datatype RunEnd =
    | Exhausted                 // every batch answered exactly "KEY NOT FOUND"
    | Cracked(password: string) // a batch answered with a bracketed key
    | Raised                    // the batch loop or the key extraction raised: a batch size of 0 or less, or a hit without brackets

  datatype HandshakeOutcome =
    | Busy        // a run was already going on: nothing happens
    | ViewFailed  // `agent.view()` raised, before the `try` that would reset the busy flag
    | NoHandshake // the capture holds no handshake
    | Ran(batches: nat, delays: nat, wordlistsChecked: nat, end: RunEnd, potfileEntry: Option<string>,
          audit: Option<AuditRecord>)

  /** What `_process_wordlist_batch` returns for each raw output of the tool: the output stripped. */
  function Replies(rawOutputs: seq<string>): (r: seq<string>)
    ensures |r| == |rawOutputs|
  {
    if rawOutputs == [] then []
    else Replies(rawOutputs[..|rawOutputs| - 1]) + [Strip(rawOutputs[|rawOutputs| - 1])]
  }

  lemma {:induction false} RepliesAt(rawOutputs: seq<string>, j: nat)
    requires j < |rawOutputs|
    ensures Replies(rawOutputs)[j] == Strip(rawOutputs[j])
  {
    var init := rawOutputs[..|rawOutputs| - 1];
    if j < |init| {
      RepliesAt(init, j);
    }
  }

  /** How a run that dispatched `n` batches ends, given the tool's raw replies. */
  function RunEndOf(replies: seq<string>, n: nat): RunEnd
    requires n <= |replies|
  {
    if n == 0 then Raised
    else
      var out := replies[n - 1];
      if out == KeyNotFound then Exhausted
      else match ExtractKey(out)
        case Some(pwd) => Cracked(pwd)
        case None => Raised
  }

  /** A key the run reports is the text between brackets in the last batch's stripped output. */
  lemma CrackedKeyInOutput(replies: seq<string>, n: nat)
    requires n <= |replies| && RunEndOf(replies, n).Cracked?
    ensures Contains(replies[n - 1], "[" + RunEndOf(replies, n).password + "]")
    ensures replies[n - 1] != KeyNotFound
  {
    ExtractKeyFound(replies[n - 1]);
  }

  /** The first batch from `i` on, below `n`, whose stripped output is not the sentinel; `n` if none. */
  function FirstHit(replies: seq<string>, i: nat, n: nat): (r: nat)
    requires i <= n <= |replies|
    ensures i <= r <= n
    ensures r < n ==> replies[r] != KeyNotFound
    decreases n - i
  {
    if i == n || replies[i] != KeyNotFound then i else FirstHit(replies, i + 1, n)
  }

  /** Every batch before the first hit missed, and no batch from `i` on before `n` hits earlier. */
  lemma {:induction false} FirstHitMisses(replies: seq<string>, i: nat, n: nat)
    requires i <= n <= |replies|
    ensures forall j :: i <= j < FirstHit(replies, i, n) ==> replies[j] == KeyNotFound
    decreases n - i
  {
    if i < n && replies[i] == KeyNotFound {
      FirstHitMisses(replies, i + 1, n);
    }
  }

  /** A hit at `j` bounds the first hit. */
  lemma FirstHitAtMost(replies: seq<string>, n: nat, j: nat)
    requires j < n <= |replies| && replies[j] != KeyNotFound
    ensures FirstHit(replies, 0, n) <= j
  {
    FirstHitMisses(replies, 0, n);
  }

  /** A miss at `k` with no hit before it pushes the first hit past `k`. */
  lemma FirstHitPast(replies: seq<string>, n: nat, k: nat)
    requires k < n <= |replies| && k <= FirstHit(replies, 0, n)
    requires replies[k] == KeyNotFound
    ensures k < FirstHit(replies, 0, n)
  {
  }

  /** The number of batches a run of `n` planned batches dispatches: it stops after the first hit. */
  function BatchesRun(replies: seq<string>, n: nat): nat
    requires n <= |replies|
  {
    var h := FirstHit(replies, 0, n);
    if h < n then h + 1 else n
  }

  /**
   * A run dispatches a prefix of the plan: every batch but the last it dispatches
   * missed, it stops early only after a hit, and it ends exhausted exactly when
   * there was a batch and every batch missed.
   */
  lemma BatchesRunSpec(replies: seq<string>, n: nat)
    requires n <= |replies|
    ensures var r := BatchesRun(replies, n);
            && r <= n
            && (forall k :: 0 <= k < r - 1 ==> replies[k] == KeyNotFound)
            && (r < n ==> 0 < r && replies[r - 1] != KeyNotFound)
            && (RunEndOf(replies, r).Exhausted? <==>
                n > 0 && forall k :: 0 <= k < n ==> replies[k] == KeyNotFound)
  {
    var h := FirstHit(replies, 0, n);
    FirstHitMisses(replies, 0, n);
    if h < n {
      assert replies[h] != KeyNotFound;
    }
  }

  /** How many batches the loop has run once it stops, on a hit or past the last wordlist. */
  lemma LoopExit(replies: seq<string>, total: nat, b: nat, k: nat, hit: bool)
    requires b > 0 && k <= NumBatches(total, b) <= |replies|
    requires hit || Offset(k, b) >= total
    requires if hit then 0 < k && k - 1 == FirstHit(replies, 0, NumBatches(total, b))
             else k <= FirstHit(replies, 0, NumBatches(total, b))
    ensures k == BatchesRun(replies, NumBatches(total, b))
    ensures Offset(k, b) == k * b
  {
    BatchStartInRange(total, b, k);
    OffsetIsProduct(k, b);
  }

  /** A directory entry of the handshake folder with its modification time in seconds. */
  datatype PcapFile = PcapFile(name: string, mtime: int)

  function Mtime(f: PcapFile): int { f.mtime }

  function PcapFiles(listing: seq<PcapFile>): (r: seq<PcapFile>)
    ensures forall f :: f in r <==> f in listing && EndsWith(f.name, ".pcap")
  {
    if listing == [] then []
    else (if EndsWith(listing[0].name, ".pcap") then [listing[0]] else []) + PcapFiles(listing[1..])
  }

  function Unprocessed(files: seq<PcapFile>, processed: set<string>): (r: seq<PcapFile>)
    ensures forall f :: f in r <==> f in files && f.name !in processed
  {
    if files == [] then []
    else (if files[0].name !in processed then [files[0]] else []) + Unprocessed(files[1..], processed)
  }

  /** The webhook's choice: the `.pcap` files sorted by mtime, oldest first, the first one not yet processed. */
  function OldestUnprocessed(listing: seq<PcapFile>, processed: set<string>): (r: Option<PcapFile>)
    ensures r.Some? ==> r.value in listing && EndsWith(r.value.name, ".pcap") && r.value.name !in processed
  {
    var pending := Unprocessed(SortBy(PcapFiles(listing), Mtime), processed);
    if pending == [] then None
    else
      assert pending[0] in pending;
      assert pending[0] in multiset(SortBy(PcapFiles(listing), Mtime));
      Some(pending[0])
  }

  /** The first file left by the filter sits at some position `i`, and every file before it is processed. */
  lemma {:induction false} UnprocessedHead(files: seq<PcapFile>, processed: set<string>) returns (i: nat)
    requires Unprocessed(files, processed) != []
    ensures i < |files| && files[i] == Unprocessed(files, processed)[0]
    ensures forall j :: 0 <= j < i ==> files[j].name in processed
  {
    if files[0].name !in processed {
      i := 0;
    } else {
      var i' := UnprocessedHead(files[1..], processed);
      i := i' + 1;
      assert forall j :: 0 < j < i ==> files[j] == files[1..][j - 1];
    }
  }

  /** The webhook picks nothing exactly when every `.pcap` file of the listing is processed (or there is none). */
  lemma OldestUnprocessedNone(listing: seq<PcapFile>, processed: set<string>)
    ensures OldestUnprocessed(listing, processed).None? <==>
            forall f :: f in listing && EndsWith(f.name, ".pcap") ==> f.name in processed
  {
    var pcaps := PcapFiles(listing);
    var sorted := SortBy(pcaps, Mtime);
    var pending := Unprocessed(sorted, processed);
    if pending == [] {
      forall f | f in listing && EndsWith(f.name, ".pcap")
        ensures f.name in processed
      {
        assert f in multiset(pcaps);
        assert f in sorted;
      }
    } else {
      var u := pending[0];
      assert u in pending;
      assert u in multiset(sorted);
      assert u in pcaps;
    }
  }

  /** A file of the unsorted sequence has a position in the sorted one. */
  lemma SortedPosition(files: seq<PcapFile>, f: PcapFile) returns (j: nat)
    requires f in files
    ensures j < |SortBy(files, Mtime)| && SortBy(files, Mtime)[j] == f
  {
    assert f in multiset(files);
    var sorted := SortBy(files, Mtime);
    assert f in sorted;
    j :| 0 <= j < |sorted| && sorted[j] == f;
  }

  /**
   * When the webhook picks a file, it is a `.pcap` file of the listing that is
   * not processed and no other such file is older.
   */
  lemma OldestUnprocessedIsOldest(listing: seq<PcapFile>, processed: set<string>)
    requires OldestUnprocessed(listing, processed).Some?
    ensures var u := OldestUnprocessed(listing, processed).value;
            && u in listing && EndsWith(u.name, ".pcap") && u.name !in processed
            && forall f :: f in listing && EndsWith(f.name, ".pcap") && f.name !in processed ==>
                 u.mtime <= f.mtime
  {
    var pcaps := PcapFiles(listing);
    var sorted := SortBy(pcaps, Mtime);
    var i := UnprocessedHead(sorted, processed);
    var u := sorted[i];
    assert u in pcaps by {
      assert u in multiset(sorted);
    }
    forall f | f in listing && EndsWith(f.name, ".pcap") && f.name !in processed
      ensures u.mtime <= f.mtime
    {
      var j := SortedPosition(pcaps, f);
      assert SortedBy(sorted, Mtime);
      assert i <= j; // every file ahead of the chosen one is processed
      assert Mtime(sorted[i]) <= Mtime(sorted[j]);
    }
  }

  /** The reply of `on_webhook`, apart from its HTML or JSON rendering. */
  datatype WebhookReply =
    | InvalidEndpoint                                        // 404
    | NoHandshakeFiles                                       // no `.pcap` in the folder
    | AllProcessed(found: nat)                               // every `.pcap` already processed
    | Processing(file: string, found: nat, unprocessed: nat) // the handshake event was dispatched
    | ListingFailed                                          // the folder could not be listed: 500

  datatype WebhookResponse = WebhookResponse(reply: WebhookReply, html: bool)

  /** The webhook paths the plugin answers; `None` is Python's `None`. */
  predicate AcceptedPath(path: Option<string>) {
    path == Some("process_handshakes") || path == Some("") || path == Some("/") || path == None
  }

  /** The paths answered with an HTML page rather than JSON. */
  predicate WebUiPath(path: Option<string>) {
    path == Some("") || path == Some("/") || path == None
  }

  /**
   * What a handshake run learns from outside. `verifyOutput` is what the
   * handshake check printed, whose whitespace-free text is the BSSID;
   * `rawOutputs[k]` is the tool's output for batch `k`; `counts` the wordlists'
   * line counts; `elapsed` the run's length in seconds; `batchSize` the
   * `wordlists_per_batch` option; `telegramConfigured` whether both `api` and
   * `id` are set, which sends a found key to the missing `_send_message` and so
   * raises; then the capture's name, the network details, the sidecar files on
   * disk and the timestamp written to the potfile.
   */
  datatype HandshakeInput = HandshakeInput(
    verifyOutput: string,
    rawOutputs: seq<string>,
    counts: map<string, nat>,
    elapsed: int,
    batchSize: int,
    telegramConfigured: bool,
    filename: string,
    network: NetworkInfo,
    sidecars: map<string, Sidecar>,
    timestamp: string)

  /** The tool has an output for every batch the plan can dispatch. */
  predicate EnoughOutputs(input: HandshakeInput, plan: seq<string>) {
    input.batchSize > 0 ==> |input.rawOutputs| >= NumBatches(|plan|, input.batchSize)
  }

  /**
   * What the `try` body of `on_handshake` reports for `input` over the wordlists
   * `plan`, with the attempted set and password total going from
   * (`attempted0`, `total0`) to (`attempted1`, `total1`):
   * - there is no run exactly when the handshake check printed no BSSID;
   * - a batch size of 0 makes `range()` raise, and a negative one dispatches
   *   nothing and leaves `result2` unbound: both end in the handler;
   * - otherwise the run dispatches batches up to the first hit, counts exactly
   *   the wordlists it dispatched, and ends as its last output says;
   * - the potfile line is written for every key found, before the message
   *   sender is reached;
   * - the audit is written when the loop ends on a miss of the last batch, or on
   *   a hit that does not go on to the missing message sender.
   */
  predicate RunReport(input: HandshakeInput, plan: seq<string>, attempted0: set<string>, total0: nat,
                      attempted1: set<string>, total1: nat, outcome: HandshakeOutcome)
    requires EnoughOutputs(input, plan)
  {
    var bssid := RemoveAsciiWhitespace(input.verifyOutput);
    var b := input.batchSize;
    && (outcome.NoHandshake? || outcome.Ran?)
    && (outcome.NoHandshake? <==> bssid == [])
    && (!outcome.Ran? || b <= 0 ==> attempted1 == attempted0 && total1 == total0)
    && (outcome.Ran? && b <= 0 ==> outcome == Ran(0, 0, 0, Raised, None, None))
    && (outcome.Ran? && b > 0 ==>
          && outcome.batches == BatchesRun(Replies(input.rawOutputs), NumBatches(|plan|, b))
          && outcome.wordlistsChecked == Min(outcome.batches * b, |plan|)
          && outcome.delays == (if outcome.batches == 0 then 0 else outcome.batches - 1)
          && attempted1 == Attempted(attempted0, plan[..outcome.wordlistsChecked])
          && total1 == total0 + NewPasswords(attempted0, plan[..outcome.wordlistsChecked], input.counts)
          && RunConcluded(input, outcome, total1))
  }

  /**
   * How a run that dispatched `outcome.batches` batches ends, with `total` the
   * password count the audit records: as its last output says; the potfile line
   * is written exactly for a found key; the audit exactly on a miss of the last
   * batch, or on a hit that does not go on to the missing message sender.
   */
  predicate RunConcluded(input: HandshakeInput, outcome: HandshakeOutcome, total: nat)
    requires outcome.Ran? && outcome.batches <= |input.rawOutputs|
  {
    var bssid := RemoveAsciiWhitespace(input.verifyOutput);
    && outcome.end == RunEndOf(Replies(input.rawOutputs), outcome.batches)
    && (outcome.potfileEntry.Some? <==> outcome.end.Cracked?)
    && (outcome.end.Cracked? ==>
          outcome.potfileEntry.value ==
          PotfileEntry(bssid, outcome.end.password, input.network, GpsOf(input.filename, input.sidecars),
                       input.timestamp))
    && (outcome.audit.Some? <==>
        (outcome.end.Exhausted? || (outcome.end.Cracked? && !input.telegramConfigured)))
    && (outcome.audit.Some? ==>
          && 0 < outcome.batches
          && var result := Replies(input.rawOutputs)[outcome.batches - 1];
             outcome.audit.value == AuditRecord(bssid, result, input.elapsed, outcome.wordlistsChecked, total,
                                                SecurityScore(result, input.elapsed, outcome.wordlistsChecked)))
  }

  /**
   * A capture the webhook hands to `plugins.on('handshake', None, ...)`: the
   * event reaches every `on_handshake`, this plugin's included, with `agent`
   * set to `None`.
   */
  datatype HandshakeEvent = HandshakeEvent(path: string, agentHasView: bool)

  class QuickDicPlugin {
    var wordlists: seq<string>
    var processedFiles: set<string>
    var attemptedWordlists: set<string>
    var totalPasswordsChecked: nat
    var isCracking: bool

    constructor ()
      ensures wordlists == [] && processedFiles == {} && attemptedWordlists == {}
      ensures totalPasswordsChecked == 0 && !isCracking
    {
      wordlists := [];
      processedFiles := {};
      attemptedWordlists := {};
      totalPasswordsChecked := 0;
      isCracking := false;
    }

    /** `_load_wordlists`, on load and on every configuration change. */
    method LoadWordlists(listing: Option<seq<WordlistFile>>, priority: seq<string>)
      modifies this`wordlists
      ensures wordlists == OrderedWordlists(listing, priority)
    {
      wordlists := OrderedWordlists(listing, priority);
    }

    /**
     * `_load_processed_files`: `log` is the log's lines, `None` when it does not
     * exist. Every stripped non-blank line joins the set; nothing is removed.
     */
    method LoadProcessedFiles(log: Option<seq<string>>)
      modifies this`processedFiles
      ensures processedFiles == old(processedFiles) + (if log.Some? then LoggedNames(log.value) else {})
    {
      if log.Some? {
        var lines := log.value;
        for k := 0 to |lines|
          invariant processedFiles == old(processedFiles) + LoggedNames(lines[..k])
        {
          var filename := Strip(lines[k]);
          assert lines[..k + 1][..k] == lines[..k];
          if filename != "" {
            processedFiles := processedFiles + {filename};
          }
        }
        assert lines[..|lines|] == lines;
      }
    }

    /**
     * `_save_processed_file`: the name joins the set only when the append to the
     * log succeeded; a failed append leaves the set as it was.
     */
    method SaveProcessedFile(filename: string, appendOk: bool)
      modifies this`processedFiles
      ensures processedFiles == if appendOk then old(processedFiles) + {filename} else old(processedFiles)
    {
      if appendOk {
        processedFiles := processedFiles + {filename};
      }
    }

    /**
     * `_process_wordlist_batch`: counts the lines of every wordlist of the batch
     * not attempted before, marks them attempted, and returns the tool's output
     * stripped.
     */
    method ProcessWordlistBatch(batch: seq<string>, counts: map<string, nat>, rawOutput: string)
      returns (result: string)
      modifies this`attemptedWordlists, this`totalPasswordsChecked
      ensures attemptedWordlists == Attempted(old(attemptedWordlists), batch)
      ensures totalPasswordsChecked ==
              old(totalPasswordsChecked) + NewPasswords(old(attemptedWordlists), batch, counts)
      ensures result == Strip(rawOutput)
    {
      for j := 0 to |batch|
        invariant attemptedWordlists == Attempted(old(attemptedWordlists), batch[..j])
        invariant totalPasswordsChecked ==
                  old(totalPasswordsChecked) + NewPasswords(old(attemptedWordlists), batch[..j], counts)
      {
        var wl := batch[j];
        assert batch[..j + 1] == batch[..j] + [wl];
        NewPasswordsAppend(old(attemptedWordlists), batch[..j], [wl], counts);
        assert Elements(batch[..j + 1]) == Elements(batch[..j]) + {wl};
        if wl !in attemptedWordlists {
          totalPasswordsChecked := totalPasswordsChecked + LineCount(counts, wl);
          attemptedWordlists := attemptedWordlists + {wl};
        }
      }
      assert batch[..|batch|] == batch;
      result := Strip(rawOutput);
    }

    /**
     * One batch of the loop of `on_handshake`: the wordlists `wordlists[lo..hi]`
     * go to `_process_wordlist_batch`, extending the counted prefix of the plan
     * from `wordlists[..lo]` to `wordlists[..hi]`.
     */
    method RunBatch(ghost attempted0: set<string>, ghost total0: nat, plan: seq<string>, lo: nat, hi: nat,
                    counts: map<string, nat>, rawOutputs: seq<string>, k: nat)
      returns (out: string)
      requires lo <= hi <= |plan| && k < |rawOutputs|
      requires attemptedWordlists == Attempted(attempted0, plan[..lo])
      requires totalPasswordsChecked == total0 + NewPasswords(attempted0, plan[..lo], counts)
      modifies this`attemptedWordlists, this`totalPasswordsChecked
      ensures attemptedWordlists == Attempted(attempted0, plan[..hi])
      ensures totalPasswordsChecked == total0 + NewPasswords(attempted0, plan[..hi], counts)
      ensures out == Replies(rawOutputs)[k]
    {
      PrefixStep(attempted0, plan, lo, hi, counts);
      out := ProcessWordlistBatch(plan[lo..hi], counts, rawOutputs[k]);
      RepliesAt(rawOutputs, k);
    }

    /**
     * The batch loop of `on_handshake`: dispatches the batches of the plan in
     * order, pausing between batches, until one output is not exactly the "not
     * found" sentinel or the plan is done. Returns the number of batches
     * dispatched, the number of wordlists they held, the pauses taken and the
     * last stripped output (`result2`), `None` when nothing was dispatched.
     */
    method DispatchBatches(rawOutputs: seq<string>, counts: map<string, nat>, batchSize: int)
      returns (k: nat, checked: nat, delays: nat, last: Option<string>)
      requires batchSize > 0 && |rawOutputs| >= NumBatches(|wordlists|, batchSize)
      modifies this`attemptedWordlists, this`totalPasswordsChecked
      ensures k == BatchesRun(Replies(rawOutputs), NumBatches(|wordlists|, batchSize))
      ensures checked == Min(k * batchSize, |wordlists|)
      ensures delays == (if k == 0 then 0 else k - 1)
      ensures last == (if k == 0 then None else Some(Replies(rawOutputs)[k - 1]))
      ensures attemptedWordlists == Attempted(old(attemptedWordlists), wordlists[..checked])
      ensures totalPasswordsChecked ==
              old(totalPasswordsChecked) + NewPasswords(old(attemptedWordlists), wordlists[..checked], counts)
    {
      var plan := wordlists;
      var total := |plan|;
      ghost var planned := NumBatches(total, batchSize);
      ghost var replies := Replies(rawOutputs);
      ghost var attempted0, total0 := attemptedWordlists, totalPasswordsChecked;
      var i := 0;
      k, checked, delays, last := 0, 0, 0, None;
      var hit := false;
      assert plan[..0] == [];
      while i < total && !hit
        invariant k <= planned && i == Offset(k, batchSize)
        invariant checked == Min(i, total)
        invariant attemptedWordlists == Attempted(attempted0, plan[..checked])
        invariant totalPasswordsChecked == total0 + NewPasswords(attempted0, plan[..checked], counts)
        invariant if hit then 0 < k && k - 1 == FirstHit(replies, 0, planned) else k <= FirstHit(replies, 0, planned)
        invariant last == (if k == 0 then None else Some(replies[k - 1]))
        invariant delays == (if (hit || i >= total) && k > 0 then k - 1 else k)
      {
        // the CPU sample that must fall to `max_cpu_percent` before a batch is not modelled
        BatchStartInRange(total, batchSize, k);
        var hi := Min(i + batchSize, total);
        var out := RunBatch(attempted0, total0, plan, i, hi, counts, rawOutputs, k);
        checked := hi;
        last := Some(out);
        i, k := i + batchSize, k + 1;
        if out != KeyNotFound {
          FirstHitAtMost(replies, planned, k - 1);
          hit := true;
        } else {
          FirstHitPast(replies, planned, k - 1);
          if i < total {
            delays := delays + 1;
          }
        }
      }
      LoopExit(replies, total, batchSize, k, hit);
    }

    /**
     * The `try` body of `on_handshake`, from the handshake check to the audit;
     * the busy flag is the caller's.
     */
    method RunHandshake(input: HandshakeInput) returns (outcome: HandshakeOutcome)
      requires EnoughOutputs(input, wordlists)
      modifies this`attemptedWordlists, this`totalPasswordsChecked
      ensures RunReport(input, wordlists, old(attemptedWordlists), old(totalPasswordsChecked),
                        attemptedWordlists, totalPasswordsChecked, outcome)
    {
      var bssid := RemoveAsciiWhitespace(input.verifyOutput);
      if bssid == [] {
        return NoHandshake;
      }
      if input.batchSize <= 0 {
        return Ran(0, 0, 0, Raised, None, None);
      }
      var batches, checked, delays, result2 := DispatchBatches(input.rawOutputs, input.counts, input.batchSize);
      BatchesRunSpec(Replies(input.rawOutputs), NumBatches(|wordlists|, input.batchSize));
      outcome := ConcludeRun(input, bssid, batches, delays, checked, result2);
    }

    /**
     * The part of the `try` body after the batch loop: `result2` is the last
     * batch's output, if any was dispatched. It reads the password total for the
     * audit and changes nothing.
     */
    method ConcludeRun(input: HandshakeInput, bssid: string, batches: nat, delays: nat, checked: nat,
                       result2: Option<string>)
      returns (outcome: HandshakeOutcome)
      requires bssid == RemoveAsciiWhitespace(input.verifyOutput)
      requires batches <= |input.rawOutputs|
      requires result2 == (if batches == 0 then None else Some(Replies(input.rawOutputs)[batches - 1]))
      ensures outcome.Ran? && outcome.batches == batches && outcome.delays == delays
      ensures outcome.wordlistsChecked == checked
      ensures RunConcluded(input, outcome, totalPasswordsChecked)
    {
      var end: RunEnd;
      var entry: Option<string> := None;
      var audit: Option<AuditRecord> := None;
      if result2.None? {
        // nothing was dispatched: `result2` is unbound when the audit is written
        end := Raised;
      } else {
        var result := result2.value;
        if result != KeyNotFound {
          var key := ExtractKey(result);
          if key.None? {
            // `.group(1)` on a failed match
            end := Raised;
          } else {
            end := Cracked(key.value);
            // `_write_to_potfile`; `plugins.on('cracked', ...)` is not modelled
            var gps := ParseGpsData(input.filename, input.sidecars);
            entry := Some(PotfileEntry(bssid, key.value, input.network, gps, input.timestamp));
            if !input.telegramConfigured {
              audit := Some(AuditRecord(bssid, result, input.elapsed, checked, totalPasswordsChecked,
                                        SecurityScore(result, input.elapsed, checked)));
            }
          }
        } else {
          end := Exhausted;
          audit := Some(AuditRecord(bssid, result, input.elapsed, checked, totalPasswordsChecked,
                                    SecurityScore(result, input.elapsed, checked)));
        }
      }
      outcome := Ran(batches, delays, checked, end, entry, audit);
    }

    /**
     * `on_handshake`, as written: the busy flag is set before `agent.view()`,
     * which sits outside the `try`, so when the agent has no view (it is `None`)
     * the handler raises with the flag still set. `agentHasView` says whether
     * `agent.view()` returns.
     */
    method OnHandshake(agentHasView: bool, input: HandshakeInput) returns (outcome: HandshakeOutcome)
      requires EnoughOutputs(input, wordlists)
      modifies this`isCracking, this`attemptedWordlists, this`totalPasswordsChecked
      ensures old(isCracking) ==> outcome == Busy && isCracking
      ensures !old(isCracking) && !agentHasView ==> outcome == ViewFailed && isCracking
      ensures !old(isCracking) && agentHasView ==>
                !isCracking &&
                RunReport(input, wordlists, old(attemptedWordlists), old(totalPasswordsChecked),
                          attemptedWordlists, totalPasswordsChecked, outcome)
      ensures old(isCracking) || !agentHasView ==>
                attemptedWordlists == old(attemptedWordlists) && totalPasswordsChecked == old(totalPasswordsChecked)
    {
      if isCracking {
        return Busy;
      }
      isCracking := true;
      if !agentHasView {
        return ViewFailed;
      }
      outcome := RunHandshake(input);
      isCracking := false;
    }

    /**
     * `on_handshake` with `agent.view()` moved inside the `try`, where the
     * `finally` resets the flag: the busy flag is back to its old value on
     * every path.
     */
    method OnHandshakeViewInTry(agentHasView: bool, input: HandshakeInput) returns (outcome: HandshakeOutcome)
      requires EnoughOutputs(input, wordlists)
      modifies this`isCracking, this`attemptedWordlists, this`totalPasswordsChecked
      ensures isCracking == old(isCracking)
      ensures old(isCracking) ==> outcome == Busy
      ensures !old(isCracking) && !agentHasView ==> outcome == ViewFailed
      ensures !old(isCracking) && agentHasView ==>
                RunReport(input, wordlists, old(attemptedWordlists), old(totalPasswordsChecked),
                          attemptedWordlists, totalPasswordsChecked, outcome)
      ensures old(isCracking) || !agentHasView ==>
                attemptedWordlists == old(attemptedWordlists) && totalPasswordsChecked == old(totalPasswordsChecked)
    {
      if isCracking {
        return Busy;
      }
      isCracking := true;
      if !agentHasView {
        isCracking := false;
        return ViewFailed;
      }
      outcome := RunHandshake(input);
      isCracking := false;
    }

    /**
     * The webhook's dispatch as written: once its event reaches this plugin's
     * `on_handshake` with no agent, the busy flag stays set and every later
     * handshake, whatever its agent, is turned away.
     */
    method WebhookBlocksLaterHandshakes(path: Option<string>, listing: Option<seq<PcapFile>>, appendOk: bool,
                                        delivered: HandshakeInput, later: HandshakeInput, laterHasView: bool)
      returns (dispatched: Option<HandshakeEvent>, outcome: HandshakeOutcome)
      requires !isCracking && EnoughOutputs(delivered, wordlists) && EnoughOutputs(later, wordlists)
      modifies this`processedFiles, this`isCracking, this`attemptedWordlists, this`totalPasswordsChecked
      ensures dispatched.Some? ==> outcome == Busy && isCracking
      ensures dispatched.None? && laterHasView ==> outcome != Busy && !isCracking
    {
      var response;
      response, dispatched := OnWebhook(path, listing, appendOk);
      if dispatched.Some? {
        var first := OnHandshake(dispatched.value.agentHasView, delivered);
      }
      outcome := OnHandshake(laterHasView, later);
    }

    /** The same sequence through the corrected handler: the webhook's dispatch leaves later runs free. */
    method WebhookKeepsHandshakesOpen(path: Option<string>, listing: Option<seq<PcapFile>>, appendOk: bool,
                                      delivered: HandshakeInput, later: HandshakeInput, laterHasView: bool)
      returns (dispatched: Option<HandshakeEvent>, outcome: HandshakeOutcome)
      requires !isCracking && EnoughOutputs(delivered, wordlists) && EnoughOutputs(later, wordlists)
      modifies this`processedFiles, this`isCracking, this`attemptedWordlists, this`totalPasswordsChecked
      ensures !isCracking
      ensures laterHasView ==> outcome != Busy && outcome != ViewFailed
    {
      var response;
      response, dispatched := OnWebhook(path, listing, appendOk);
      if dispatched.Some? {
        var first := OnHandshakeViewInTry(dispatched.value.agentHasView, delivered);
      }
      outcome := OnHandshakeViewInTry(laterHasView, later);
    }

    /**
     * `on_webhook`. `listing` is the handshake folder's entries, `None` when it
     * cannot be listed or when `getmtime`/`getsize` raises for one of them inside
     * the `try` (either way the reply is the 500 error); `appendOk` whether
     * marking the chosen file succeeds. Returns the reply and the `handshake`
     * event it dispatches, whose agent is `None`.
     */
    method OnWebhook(path: Option<string>, listing: Option<seq<PcapFile>>, appendOk: bool)
      returns (response: WebhookResponse, dispatched: Option<HandshakeEvent>)
      modifies this`processedFiles
      ensures response.html == (AcceptedPath(path) && WebUiPath(path))
      ensures !AcceptedPath(path) || listing.None? ==>
                dispatched == None && processedFiles == old(processedFiles) &&
                response.reply == (if AcceptedPath(path) then ListingFailed else InvalidEndpoint)
      ensures AcceptedPath(path) && listing.Some? ==>
                var pcaps := PcapFiles(listing.value);
                match OldestUnprocessed(listing.value, old(processedFiles))
                case None =>
                  && dispatched == None && processedFiles == old(processedFiles)
                  && response.reply == (if pcaps == [] then NoHandshakeFiles else AllProcessed(|pcaps|))
                case Some(f) =>
                  // marked before the event is dispatched, kept only if the append succeeded
                  && dispatched == Some(HandshakeEvent(HandshakeDir + "/" + f.name, false))
                  && processedFiles == (if appendOk then old(processedFiles) + {f.name} else old(processedFiles))
                  && response.reply == Processing(f.name, |pcaps|, |Unprocessed(SortBy(pcaps, Mtime), old(processedFiles))|)
    {
      var html := AcceptedPath(path) && WebUiPath(path);
      dispatched := None;
      if !AcceptedPath(path) {
        return WebhookResponse(InvalidEndpoint, html), None;
      }
      if listing.None? {
        return WebhookResponse(ListingFailed, html), None;
      }
      var pcaps := PcapFiles(listing.value);
      if pcaps == [] {
        assert OldestUnprocessed(listing.value, processedFiles).None?;
        return WebhookResponse(NoHandshakeFiles, html), None;
      }
      var pending := Unprocessed(SortBy(pcaps, Mtime), processedFiles);
      if pending == [] {
        return WebhookResponse(AllProcessed(|pcaps|), html), None;
      }
      var chosen := pending[0];
      var unprocessedCount := |pending|;
      SaveProcessedFile(chosen.name, appendOk);
      dispatched := Some(HandshakeEvent(HandshakeDir + "/" + chosen.name, false));
      response := WebhookResponse(Processing(chosen.name, |pcaps|, unprocessedCount), html);
    }
  }
}
