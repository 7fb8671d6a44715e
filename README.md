# pwnagotchi plugins: a Dafny model of their decision logic

This project models the deterministic core of four pwnagotchi plugins and
proves properties of that model.

- **quickdic_throttled.py** is the throttled dictionary-scan scheduler. The model covers:
  - the wordlist order (`wordlists.dfy`);
  - the security-audit score (`scoring.dfy`);
  - the batch plan (`batching.dfy`);
  - the key the cracking tool prints (`tooloutput.dfy`);
  - the GPS sidecar choice and the potfile line (`potfile.dfy`);
  - the plugin object itself (`quickdic.dfy`). It is the class `QuickDicPlugin`, with the processed-handshake set, the attempted wordlists and their password count, the busy flag, the batch loop of `on_handshake` and the capture choice of `on_webhook`.
- **deauth_sniffer.py** is the deauthentication sniffer (`deauth.dfy`). The class `Sniffer` holds the detection table, with insert-if-absent, expiry, the size cap, rate limiting and the status message that expires.
- **display-password.py** shows the most recent cracked password (`display.dfy`). The model covers the colon-split line parser, the last-line reader and the loop that picks the most recently modified potfile.
- **wpa3parse.py** is the WPA3 capture classifier (`wpa3.dfy`). The model covers the fields read from the access point, the case-insensitive whitelist, the rule that both the capture and the access point must advertise WPA3 or SAE, and the destination and sidecar paths.

Shared Python behaviour lives in helper modules:
- `strings.dfy`: `strip`, `lower`, `upper`, `split`, `join`, `in`, `replace`, `basename` and integer formatting.
- `sorting.dfy`: `sorted(key=...)`, a stable insertion sort with sortedness, permutation and stability proved.
- `optional.dfy` and `arith.dfy`.

What the plugins learn from the outside world is handed to the model as parameters. This covers:
- directory listings with sizes or modification times;
- the cracking tool's output for each batch;
- `wc -l` line counts;
- whether a file append succeeds;
- the sidecar JSON objects;
- the current time, in whole seconds.

Where the code and its written description differ, the model follows the code:
- **Priority wordlists.** They keep the directory-listing order, not the configured order (`Wordlists.PriorityKeepsListingOrder`).
- **What counts as a hit.** Any batch output other than exactly `KEY NOT FOUND` is a hit, the empty output included. A hit without brackets raises inside the handler, so no audit is written.
- **Marking a handshake processed.** The name joins the processed set only after the append to the log succeeds. The webhook marks the chosen file before dispatching the event.
- **Telegram configured.** With both `api` and `id` set, a found key reaches `_send_message`, which is commented out. The call raises after the potfile line is written, so no audit is written.
- **The webhook's unprocessed count** is taken from the list sorted by modification time.
- **The BSSID in the potfile line.** The scheduler writes it with its colons, and the display plugin splits on `:`. A written entry is never rejected as malformed, but the display shows the BSSID's octets in place of the name, password and coordinates (`DisplayPassword.MacBssidShiftsFields`).
- **The deauth whitelist.** It is lower-cased, but the access point's MAC is not (`DeauthSniffer.WhitelistIsCaseSensitive`).
- **`max_detections` of 0** keeps every entry, because `xs[-0:]` is the whole list. A negative value drops the oldest entries instead (`DeauthSniffer.CapZeroKeepsAll`, `DeauthSniffer.CapNegativeDrops`).
- **WPA3 encryption given as a string.** An access point whose `encryption` is a single string is iterated character by character, so it is never WPA3 (`Wpa3Parse.TextEncryptionNeverMatches`).

## Model

| member | source | states |
|---|---|---|
| Sorting.SortBy | usr/local/share/pwnagotchi/custom-plugins/quickdic_throttled.py:126 | `sorted(key=...)` returns a permutation of its input ordered by the key, smallest first |
| Sorting.SortByStable | usr/local/share/pwnagotchi/custom-plugins/quickdic_throttled.py:126 | the sort is stable: for every key value, the elements with that key keep their input order |
| Sorting.InsertBySorted | usr/local/share/pwnagotchi/custom-plugins/quickdic_throttled.py:126 | inserting into a sorted sequence keeps it sorted |
| Wordlists.TxtFiles | usr/local/share/pwnagotchi/custom-plugins/quickdic_throttled.py:118 | the filter keeps exactly the listed entries whose name ends in `.txt`, in both directions |
| Wordlists.NamesPermutation | usr/local/share/pwnagotchi/custom-plugins/quickdic_throttled.py:118 | entries that are a reordering of each other have names that are a reordering of each other |
| Wordlists.OrderedNames | usr/local/share/pwnagotchi/custom-plugins/quickdic_throttled.py:118-128 | the names of the run order are all `.txt` names, one per listed `.txt` entry, and a reordering of the listed `.txt` names |
| Wordlists.PartitionIsPermutation | usr/local/share/pwnagotchi/custom-plugins/quickdic_throttled.py:121-123 | splitting the `.txt` files on priority membership loses and invents nothing |
| Wordlists.OrderedIsPermutation | usr/local/share/pwnagotchi/custom-plugins/quickdic_throttled.py:118-128 | the run order holds every listed `.txt` file exactly as often as it is listed |
| Wordlists.OrderedShape | usr/local/share/pwnagotchi/custom-plugins/quickdic_throttled.py:118-128 | priority files come first, in listing order; the rest follow sorted by byte size, with ties in listing order |
| Wordlists.OrderedWordlists | usr/local/share/pwnagotchi/custom-plugins/quickdic_throttled.py:115-135 | an unlistable folder gives no wordlists; otherwise the names in the run order are a reordering of the names of the listed `.txt` files: each appears once per listing entry, and nothing else does |
| Wordlists.OrderedAreListedTxt | usr/local/share/pwnagotchi/custom-plugins/quickdic_throttled.py:118 | every file in the run order is a listed `.txt` file |
| Wordlists.PriorityKeepsListingOrder | usr/local/share/pwnagotchi/custom-plugins/quickdic_throttled.py:121-122 | the configured order of the priority list plays no part |
| Scoring.SecurityScore | usr/local/share/pwnagotchi/custom-plugins/quickdic_throttled.py:206-231 | the sentinel result scores between 80 and 100; any other result scores 0 |
| Scoring.ScoreCountsThresholds | usr/local/share/pwnagotchi/custom-plugins/quickdic_throttled.py:208-228 | the score is 80 plus 5 for each time threshold (900, 1800, 3600) and each wordlist threshold (100, 300, 500) strictly exceeded, capped at 100 |
| Scoring.ScoreMonotone | usr/local/share/pwnagotchi/custom-plugins/quickdic_throttled.py:208-228 | a longer or wider unsuccessful run never scores lower |
| Scoring.ScoreThresholdsStrict | usr/local/share/pwnagotchi/custom-plugins/quickdic_throttled.py:213-226 | the thresholds are strict: 900 s and 100 wordlists earn nothing, 901 and 101 earn 5 each |
| Batching.NumBatchesBounds | usr/local/share/pwnagotchi/custom-plugins/quickdic_throttled.py:373 | `range(0, N, B)` iterates ceil(N / B) times |
| Batching.BatchStartInRange | usr/local/share/pwnagotchi/custom-plugins/quickdic_throttled.py:373 | the k-th start `k * B` is below N exactly when k is below the iteration count |
| Batching.FlattenPrefix | usr/local/share/pwnagotchi/custom-plugins/quickdic_throttled.py:380-381 | the first k batches together are the first min(k * B, N) wordlists |
| Batching.BatchesShape | usr/local/share/pwnagotchi/custom-plugins/quickdic_throttled.py:373-380 | the batches are ceil(N / B) non-empty slices of at most B, and together they are the whole list |
| ToolOutput.LastCloseOnLine | usr/local/share/pwnagotchi/custom-plugins/quickdic_throttled.py:391 | finds the last `]` on the current line, the end of a greedy `.*` match |
| ToolOutput.SearchKeySpec | usr/local/share/pwnagotchi/custom-plugins/quickdic_throttled.py:391 | the search finds a key exactly when a `[` has a `]` after it on the same line |
| ToolOutput.SearchKeyLeftmost | usr/local/share/pwnagotchi/custom-plugins/quickdic_throttled.py:391-392 | the key is the text of the bracket pair starting at the leftmost `[` that has a partner |
| ToolOutput.ExtractKeyFound | usr/local/share/pwnagotchi/custom-plugins/quickdic_throttled.py:391-392 | a found key sits between brackets in the output and holds no newline |
| ToolOutput.ExtractKeyMissing | usr/local/share/pwnagotchi/custom-plugins/quickdic_throttled.py:391-392 | output with no bracket pair on one line yields no match |
| ToolOutput.ExtractKeyOneLine | usr/local/share/pwnagotchi/custom-plugins/quickdic_throttled.py:391-392 | on one line, the key runs from the first `[` to the last `]` |
| QuickDic.NewPasswordsAppend | usr/local/share/pwnagotchi/custom-plugins/quickdic_throttled.py:239-242 | counting two stretches of wordlists one after the other adds up |
| QuickDic.NewPasswordsAllAttempted | usr/local/share/pwnagotchi/custom-plugins/quickdic_throttled.py:240 | wordlists attempted before add nothing to the total |
| QuickDic.NewPasswordsRepeat | usr/local/share/pwnagotchi/custom-plugins/quickdic_throttled.py:239-242 | running the same wordlists twice counts them once |
| QuickDic.NewPasswords | usr/local/share/pwnagotchi/custom-plugins/quickdic_throttled.py:239-242 | every wordlist of the batch not attempted before adds at least its line count to the total |
| QuickDic.LoggedNamesSpec | usr/local/share/pwnagotchi/custom-plugins/quickdic_throttled.py:142-145 | a name is loaded exactly when it is not blank and some log line strips to it |
| QuickDic.LoggedNameSource | usr/local/share/pwnagotchi/custom-plugins/quickdic_throttled.py:142-145 | every loaded name comes from a log line that strips to it |
| QuickDic.LoggedNameOfLine | usr/local/share/pwnagotchi/custom-plugins/quickdic_throttled.py:142-145 | every log line that is not blank once stripped is loaded |
| QuickDic.CrackedKeyInOutput | usr/local/share/pwnagotchi/custom-plugins/quickdic_throttled.py:390-392 | a reported key is the text between brackets in the last batch's output, which is not the sentinel |
| QuickDic.FirstHit | usr/local/share/pwnagotchi/custom-plugins/quickdic_throttled.py:390 | the first batch whose output is not the sentinel, if there is one |
| QuickDic.FirstHitMisses | usr/local/share/pwnagotchi/custom-plugins/quickdic_throttled.py:390 | every batch before the first hit printed exactly the sentinel |
| QuickDic.BatchesRunSpec | usr/local/share/pwnagotchi/custom-plugins/quickdic_throttled.py:373-413 | a run dispatches a prefix of the plan; all dispatched batches but the last missed; it stops early only after a hit; it ends exhausted exactly when there was a batch and every batch missed |
| QuickDic.LoopExit | usr/local/share/pwnagotchi/custom-plugins/quickdic_throttled.py:373-408 | the loop stops after the first hit or past the last wordlist |
| QuickDic.UnprocessedHead | usr/local/share/pwnagotchi/custom-plugins/quickdic_throttled.py:462 | every file before the first unprocessed one is processed |
| QuickDic.Unprocessed | usr/local/share/pwnagotchi/custom-plugins/quickdic_throttled.py:462 | the unprocessed files are exactly the listed ones whose name is not in the processed set |
| QuickDic.OldestUnprocessed | usr/local/share/pwnagotchi/custom-plugins/quickdic_throttled.py:459-462 | a picked file is a listed `.pcap` file that is not processed |
| QuickDic.OldestUnprocessedNone | usr/local/share/pwnagotchi/custom-plugins/quickdic_throttled.py:439-480 | the webhook picks nothing exactly when every `.pcap` file is processed or there is none |
| QuickDic.OldestUnprocessedIsOldest | usr/local/share/pwnagotchi/custom-plugins/quickdic_throttled.py:459-483 | a picked file is an unprocessed `.pcap` of the listing, and no unprocessed `.pcap` is older |
| QuickDic.QuickDicPlugin.constructor | usr/local/share/pwnagotchi/custom-plugins/quickdic_throttled.py:46-54 | the plugin starts idle, with empty sets and a zero password count |
| QuickDic.QuickDicPlugin.LoadWordlists | usr/local/share/pwnagotchi/custom-plugins/quickdic_throttled.py:115-135 | the wordlists become the run order; an unlistable folder leaves none |
| QuickDic.QuickDicPlugin.LoadProcessedFiles | usr/local/share/pwnagotchi/custom-plugins/quickdic_throttled.py:137-150 | every stripped non-blank log line joins the set; nothing is removed; a missing log changes nothing |
| QuickDic.QuickDicPlugin.SaveProcessedFile | usr/local/share/pwnagotchi/custom-plugins/quickdic_throttled.py:152-160 | the name joins the set only when the append succeeded |
| QuickDic.QuickDicPlugin.ProcessWordlistBatch | usr/local/share/pwnagotchi/custom-plugins/quickdic_throttled.py:233-248 | the batch joins the attempted set; the total grows by the line counts of the wordlists not attempted before; the output comes back stripped |
| QuickDic.QuickDicPlugin.RunBatch | usr/local/share/pwnagotchi/custom-plugins/quickdic_throttled.py:380-387 | one batch extends the counted prefix of the plan from `[..lo]` to `[..hi]` |
| QuickDic.QuickDicPlugin.DispatchBatches | usr/local/share/pwnagotchi/custom-plugins/quickdic_throttled.py:369-413 | the loop runs batches up to the first hit; it checks min(k * B, N) wordlists and pauses k - 1 times; `result2` is the last output; the counting covers exactly the wordlists dispatched |
| QuickDic.QuickDicPlugin.RunHandshake | usr/local/share/pwnagotchi/custom-plugins/quickdic_throttled.py:353-420 | the `try` body: no run without a BSSID; a batch size of 0 or less ends in the handler with nothing counted; otherwise the batches, wordlists checked, pauses and ending follow BatchesRunSpec, the counters grow by the dispatched wordlists, the potfile line is written exactly for a found key and the audit exactly on exhaustion or on a hit with Telegram unset |
| QuickDic.QuickDicPlugin.ConcludeRun | usr/local/share/pwnagotchi/custom-plugins/quickdic_throttled.py:386-416 | after the batch loop, for the last output `result2`: the run ends as that output says, the potfile line (BSSID, password, network, GPS fields, time) is written exactly for a found key, and the audit record, with the current password total and score, exactly on a miss or on a hit with Telegram unset; the counters are left alone |
| QuickDic.QuickDicPlugin.OnHandshake | usr/local/share/pwnagotchi/custom-plugins/quickdic_throttled.py:343-425 | a busy plugin does nothing; otherwise the busy flag is set, and when the agent has no view (`agent.view()` outside the `try`) the handler stops with the flag still set and the counters unchanged; with a view, the run reports as RunReport says and the flag is cleared |
| QuickDic.QuickDicPlugin.OnWebhook | usr/local/share/pwnagotchi/custom-plugins/quickdic_throttled.py:427-540 | only four paths are accepted; the oldest unprocessed `.pcap` is marked (if the append succeeds) and dispatched as a `handshake` event with agent `None`; with nothing to pick, or a listing that fails, nothing is marked or dispatched |
| QuickDic.QuickDicPlugin.WebhookBlocksLaterHandshakes | usr/local/share/pwnagotchi/custom-plugins/quickdic_throttled.py:343-497 | once the webhook has dispatched a capture and the plugin has received it with agent `None`, the busy flag stays set and the next handshake is turned away whatever its agent; without a dispatch a handshake with a view runs |
| QuickDic.QuickDicPlugin.OnHandshakeViewInTry | usr/local/share/pwnagotchi/custom-plugins/quickdic_throttled.py:348-353 | with `agent.view()` inside the `try`, the busy flag ends as it started on every path; the run itself reports as in OnHandshake |
| QuickDic.QuickDicPlugin.WebhookKeepsHandshakesOpen | usr/local/share/pwnagotchi/custom-plugins/quickdic_throttled.py:348-353 | with the corrected handler, a webhook dispatch leaves the plugin idle and a later handshake with a view runs |
| Potfile.RFind | usr/local/share/pwnagotchi/custom-plugins/quickdic_throttled.py:255 | the last position of the character, or -1 when it is absent |
| Potfile.SplitExt | usr/local/share/pwnagotchi/custom-plugins/quickdic_throttled.py:255 | `os.path.splitext`: base and extension concatenate back to the path |
| Potfile.SplitExtShape | usr/local/share/pwnagotchi/custom-plugins/quickdic_throttled.py:255 | the extension is empty or one dot followed by a name with no dot and no `/` |
| Potfile.SplitExtWhen | usr/local/share/pwnagotchi/custom-plugins/quickdic_throttled.py:255 | `splitext` splits exactly when a `.` follows a non-dot character of the last path component, and then at the last `.`; otherwise the path comes back whole |
| Potfile.GpsCandidates | usr/local/share/pwnagotchi/custom-plugins/quickdic_throttled.py:255-259 | the `.gps.json` sidecar is tried before the `.geo.json` one |
| Potfile.FirstLoaded | usr/local/share/pwnagotchi/custom-plugins/quickdic_throttled.py:261-280 | nothing is found exactly when no candidate exists and loads; a found object is that of an existing, loaded candidate |
| Potfile.GpsOf | usr/local/share/pwnagotchi/custom-plugins/quickdic_throttled.py:250-285 | with no sidecar that loads the fields are empty; non-empty fields come from a candidate sidecar that loads |
| Potfile.ParseGpsData | usr/local/share/pwnagotchi/custom-plugins/quickdic_throttled.py:250-285 | the GPS fields come from the first sidecar that exists and loads, or are all empty |
| Potfile.GpsSidecarWins | usr/local/share/pwnagotchi/custom-plugins/quickdic_throttled.py:261-280 | a loaded `.gps.json` decides the fields, even when it holds no coordinates |
| Potfile.GeoSidecarFallback | usr/local/share/pwnagotchi/custom-plugins/quickdic_throttled.py:261-283 | the `.geo.json` sidecar is read only when the `.gps.json` one does not load |
| Potfile.OrUnknown | usr/local/share/pwnagotchi/custom-plugins/quickdic_throttled.py:324-325 | `s or 'Unknown'` is never empty and keeps a non-empty value |
| Potfile.EntryFields | usr/local/share/pwnagotchi/custom-plugins/quickdic_throttled.py:332 | an entry has eight fields, the BSSID first and the password fourth |
| Potfile.PotfileEntryShape | usr/local/share/pwnagotchi/custom-plugins/quickdic_throttled.py:332 | an entry ends with a newline and holds at least seven `:` |
| Potfile.PotfileEntry | usr/local/share/pwnagotchi/custom-plugins/quickdic_throttled.py:332 | the entry starts with the BSSID and a `:` and ends with a newline |
| DisplayPassword.InvalidFormatIff | usr/local/share/pwnagotchi/custom-plugins/display-password.py:70-95 | a line is `Invalid format` exactly when it has fewer than three `:` |
| DisplayPassword.ParsePotfileLine | usr/local/share/pwnagotchi/custom-plugins/display-password.py:66-95 | a line with at least four `:`-separated fields never renders as the error text |
| DisplayPassword.RenderedIsNotInvalid | usr/local/share/pwnagotchi/custom-plugins/display-password.py:88-91 | a rendered entry never equals the error text |
| DisplayPassword.DisplayOfEntry | usr/local/share/pwnagotchi/custom-plugins/display-password.py:70-93 | for colon-free fields, the display is the SSID (or the BSSID when the SSID is empty or `Unknown`), ` - `, the password, and ` (lat,lon)` when both are present |
| DisplayPassword.WrittenEntryIsWellFormed | usr/local/share/pwnagotchi/custom-plugins/display-password.py:70-72 | any entry the scheduler writes, once stripped, is never `Invalid format` |
| DisplayPassword.MacBssidShiftsFields | usr/local/share/pwnagotchi/custom-plugins/display-password.py:70-91 | with a six-octet BSSID, the display shows octets 2 (or 0), 3, 4 and 5 in place of the name, password and coordinates |
| DisplayPassword.LastLineSpec | usr/local/share/pwnagotchi/custom-plugins/display-password.py:41-64 | a line comes back exactly when the file is present and its stripped last line is not blank; the time is the file's mtime when it could be read, 0 otherwise |
| DisplayPassword.LastLine | usr/local/share/pwnagotchi/custom-plugins/display-password.py:41-64 | a missing or unreadable file gives nothing and time 0; a readable one gives its mtime, and a line only when its stripped last line is not blank |
| DisplayPassword.AppendedEntryIsShown | usr/local/share/pwnagotchi/custom-plugins/display-password.py:51-60 | after an entry whose fields hold no `\n` or `\r` is appended to a file that ends with a newline or is empty, the last line is that entry and it renders |
| DisplayPassword.AppendedToUnterminatedLine | usr/local/share/pwnagotchi/custom-plugins/display-password.py:51-60 | an entry whose fields hold no `\n` or `\r`, appended after a last line without a line break, merges with that line; the merged line is shown and it renders |
| DisplayPassword.BestIsMostRecent | usr/local/share/pwnagotchi/custom-plugins/display-password.py:107-112 | the chosen file gave a line and has the greatest mtime above 0, with ties going to the earlier file; nothing is chosen exactly when no file gave a line with mtime above 0 |
| DisplayPassword.GetMostRecentPassword | usr/local/share/pwnagotchi/custom-plugins/display-password.py:101-119 | the loop's result is the parsed line of the file BestIsMostRecent chooses, or `No cracked passwords` |
| DeauthSniffer.ExpireSpec | usr/local/share/pwnagotchi/custom-plugins/deauth_sniffer.py:75-77 | expiry keeps exactly the entries with `now - ts < timeout`, unchanged |
| DeauthSniffer.ExpireKeyed | usr/local/share/pwnagotchi/custom-plugins/deauth_sniffer.py:76-77 | expiry keeps the MACs distinct |
| DeauthSniffer.Expire | usr/local/share/pwnagotchi/custom-plugins/deauth_sniffer.py:75-77 | expiry never grows the table and keeps only entries of the table younger than the timeout |
| DeauthSniffer.PyTail | usr/local/share/pwnagotchi/custom-plugins/deauth_sniffer.py:82 | Python's `xs[start:]` is never longer than `xs` |
| DeauthSniffer.PyTailIsSuffix | usr/local/share/pwnagotchi/custom-plugins/deauth_sniffer.py:82 | Python's `xs[start:]` is a suffix of `xs`, for every start, negative ones included |
| DeauthSniffer.PyTailDrop | usr/local/share/pwnagotchi/custom-plugins/deauth_sniffer.py:82 | for `0 < k < len(xs)`, `xs[-k:]` is exactly the last `k` elements |
| DeauthSniffer.NewestTail | usr/local/share/pwnagotchi/custom-plugins/deauth_sniffer.py:80-82 | the last `max` entries of a time-sorted reordering of the table are `max` entries of the table, and no entry left out is newer than one kept |
| DeauthSniffer.CapKeepsNewest | usr/local/share/pwnagotchi/custom-plugins/deauth_sniffer.py:80-82 | with a positive maximum, the cap keeps min(size, max) entries of the table, and every dropped entry is no newer than every kept one |
| DeauthSniffer.CapZeroKeepsAll | usr/local/share/pwnagotchi/custom-plugins/deauth_sniffer.py:82 | a maximum of 0 keeps every entry |
| DeauthSniffer.CapNegativeDrops | usr/local/share/pwnagotchi/custom-plugins/deauth_sniffer.py:82 | a negative maximum -k drops k entries instead: the rest of the table remains, and every dropped entry is no newer than every kept one |
| DeauthSniffer.CapKeyed | usr/local/share/pwnagotchi/custom-plugins/deauth_sniffer.py:81-82 | the cap keeps the MACs distinct |
| DeauthSniffer.CapSubset | usr/local/share/pwnagotchi/custom-plugins/deauth_sniffer.py:81-82 | whatever the maximum, the cap only drops entries |
| DeauthSniffer.Cap | usr/local/share/pwnagotchi/custom-plugins/deauth_sniffer.py:80-82 | the cap never grows the table, a positive maximum bounds its size, and a table within the maximum is left as it is |
| DeauthSniffer.CleanedSpec | usr/local/share/pwnagotchi/custom-plugins/deauth_sniffer.py:75-82 | after cleanup every entry was there before, unchanged and young; a positive maximum bounds the size; when the young entries fit they are all kept, in order |
| DeauthSniffer.Cleaned | usr/local/share/pwnagotchi/custom-plugins/deauth_sniffer.py:75-82 | a cleanup never grows the table and a positive maximum bounds its size |
| DeauthSniffer.LongFormRedundant | usr/local/share/pwnagotchi/custom-plugins/deauth_sniffer.py:182 | the `deauthentication` test adds nothing to the `deauth` test |
| DeauthSniffer.Get | usr/local/share/pwnagotchi/custom-plugins/deauth_sniffer.py:175 | `ap.get(key)` finds a value exactly when some item has that key |
| DeauthSniffer.DeauthMac | usr/local/share/pwnagotchi/custom-plugins/deauth_sniffer.py:170-188 | a MAC is reported exactly for a dict with a non-empty `mac` that is off the whitelist and shows deauth, and it is that `mac` |
| DeauthSniffer.Detect | usr/local/share/pwnagotchi/custom-plugins/deauth_sniffer.py:169-194 | the scan only appends entries, each stamped `now`, for the MACs it reports as new |
| DeauthSniffer.DetectSpec | usr/local/share/pwnagotchi/custom-plugins/deauth_sniffer.py:169-194 | MACs stay distinct; new MACs were absent before; each new MAC comes from an access point showing deauth; every such access point's MAC is in the table afterwards |
| DeauthSniffer.DetectionMessage | usr/local/share/pwnagotchi/custom-plugins/deauth_sniffer.py:204 | the message reads `Deauth detected: `, the count in decimal, then ` new frames` |
| Strings.NatToString | usr/local/share/pwnagotchi/custom-plugins/deauth_sniffer.py:204 | the decimal text of a count: digits only, no leading zero, reading back to the count |
| DeauthSniffer.MessageLifetime | usr/local/share/pwnagotchi/custom-plugins/deauth_sniffer.py:137-205 | a message is shown up to and including its expiry and removed by the first update strictly after it |
| DeauthSniffer.UiStep | usr/local/share/pwnagotchi/custom-plugins/deauth_sniffer.py:129-146 | a non-empty message is removed exactly when the time is past its expiry; a live one is shown unchanged; otherwise nothing changes |
| DeauthSniffer.LowerAll | usr/local/share/pwnagotchi/custom-plugins/deauth_sniffer.py:97 | the whitelist is lower-cased element by element |
| DeauthSniffer.WhitelistIsCaseSensitive | usr/local/share/pwnagotchi/custom-plugins/deauth_sniffer.py:97-177 | a whitelisted MAC that is not all lower case is still recorded |
| DeauthSniffer.ScanItems | usr/local/share/pwnagotchi/custom-plugins/deauth_sniffer.py:181-188 | the item loop reports deauth exactly when some value shows it |
| DeauthSniffer.Sniffer.constructor | usr/local/share/pwnagotchi/custom-plugins/deauth_sniffer.py:33-43 | the sniffer starts not ready, with an empty table, no message and zero times |
| DeauthSniffer.Sniffer.OnLoaded | usr/local/share/pwnagotchi/custom-plugins/deauth_sniffer.py:90-118 | a configured whitelist is lower-cased; the plugin is ready exactly when loading succeeded |
| DeauthSniffer.Sniffer.CleanupOldDetections | usr/local/share/pwnagotchi/custom-plugins/deauth_sniffer.py:64-88 | before the interval has passed, nothing changes; after it, the table is expired then capped and `last_cleanup` becomes now |
| DeauthSniffer.Sniffer.OnWifiUpdate | usr/local/share/pwnagotchi/custom-plugins/deauth_sniffer.py:148-221 | when not ready or rate limited, nothing changes; otherwise the table is cleaned and then scanned; new detections set the message and its expiry unless `agent.view()` or `view.set` raises, and set `last_ui_update` only when every display call returns |
| DeauthSniffer.Sniffer.RecordDeauths | usr/local/share/pwnagotchi/custom-plugins/deauth_sniffer.py:168-194 | the access-point loop leaves the table and the new-detection list exactly as the detection scan specifies, so DetectSpec holds of them |
| DeauthSniffer.Sniffer.OnUiUpdate | usr/local/share/pwnagotchi/custom-plugins/deauth_sniffer.py:129-146 | an expired message is removed and cleared; a live one is shown |
| Wpa3Parse.OnLoaded | usr/local/share/pwnagotchi/custom-plugins/wpa3parse.py:19-22 | the defaults are copying on and an empty whitelist; configured values are used as given |
| Wpa3Parse.Entries | usr/local/share/pwnagotchi/custom-plugins/wpa3parse.py:47 | a string encryption iterates as one-character names |
| Wpa3Parse.ClassificationSpec | usr/local/share/pwnagotchi/custom-plugins/wpa3parse.py:40-48 | a handshake is kept exactly when neither BSSID nor SSID is whitelisted and both encryption lists name WPA3 or SAE; the whitelist is checked first |
| Wpa3Parse.OnHandshake | usr/local/share/pwnagotchi/custom-plugins/wpa3parse.py:28-61 | a kept handshake advertises WPA3 or SAE in both lists and is copied into the WPA3 directory; a handshake whose BSSID is whitelisted is always skipped as such |
| Wpa3Parse.Wpa3NameExamples | usr/local/share/pwnagotchi/custom-plugins/wpa3parse.py:47 | `sae`, `Wpa3` and `SAE` match; `WPA2` and `WPA3-SAE` do not |
| Wpa3Parse.PlainAccessPointNeverCaptured | usr/local/share/pwnagotchi/custom-plugins/wpa3parse.py:37-47 | a non-dict access point is never kept |
| Wpa3Parse.ShortNameNeverMatches | usr/local/share/pwnagotchi/custom-plugins/wpa3parse.py:47 | a one-character name is never WPA3 or SAE |
| Wpa3Parse.TextEncryptionNeverMatches | usr/local/share/pwnagotchi/custom-plugins/wpa3parse.py:34-47 | an encryption given as one string never counts as WPA3 |
| Wpa3Parse.LowerKeepsOccurrence | usr/local/share/pwnagotchi/custom-plugins/wpa3parse.py:40-43 | lower-casing keeps every substring occurrence |
| Wpa3Parse.VerbatimEntryListed | usr/local/share/pwnagotchi/custom-plugins/wpa3parse.py:40-43 | an entry found verbatim in the BSSID or SSID matches whatever the case |
| Wpa3Parse.EmptyEntrySkipsAll | usr/local/share/pwnagotchi/custom-plugins/wpa3parse.py:40-42 | an empty whitelist entry skips every handshake that has a BSSID |
| Wpa3Parse.DestinationSpec | usr/local/share/pwnagotchi/custom-plugins/wpa3parse.py:50-52 | the copy is the WPA3 directory plus the capture's base name, which has no `/` and ends the path |
| Wpa3Parse.MetaCopiesSpec | usr/local/share/pwnagotchi/custom-plugins/wpa3parse.py:56-61 | a sidecar is copied exactly when it exists and is the capture name with `.pcap` replaced by an extension; its copy is its base name in the WPA3 directory |
| Wpa3Parse.NoCopiesWhenDisabled | usr/local/share/pwnagotchi/custom-plugins/wpa3parse.py:56 | with copying off, no sidecar is copied |
| Wpa3Parse.NoPcapNameCopiesItself | usr/local/share/pwnagotchi/custom-plugins/wpa3parse.py:56-61 | a capture whose name holds no `.pcap` is copied twice more onto its own copy |

## Findings

| source | as written | input that shows it | evidently intended | confidence | as-written member | corrected member |
|---|---|---|---|---|---|---|
| usr/local/share/pwnagotchi/custom-plugins/quickdic_throttled.py:348-353 | the busy flag is set and `agent.view()` is called before the `try` whose `finally` clears the flag | a capture dispatched by the webhook, which passes agent `None`: `None.view()` raises, the flag stays set, and every later handshake is skipped | `agent.view()` inside the `try`, so the flag is cleared on every path | not executed | QuickDic.QuickDicPlugin.WebhookBlocksLaterHandshakes | QuickDic.QuickDicPlugin.WebhookKeepsHandshakesOpen |

## Left out

- Subprocess calls are not modelled: `aircrack-ng` (the handshake check, the cracking runs, the SSID and station-MAC lookup), `wc -l`, `dpkg` and `top`. Their results are parameters.
- `_extract_network_info` is a parameter (`NetworkInfo`), because its content comes from the cracking tool.
- The CPU-usage wait before each batch (`while cpu > max_cpu_percent: sleep(5)`) is left out. It parses floats from `top` and blocks; the model assumes the gate passes.
- Times are whole seconds, not floats. The progress percentage is left out.
- File I/O is not modelled:
  - appending to the potfile, the processed-files log and the audit log;
  - the JSON serialisation of the audit record and its wall-clock timestamp;
  - loading the GPS sidecars, which arrive as already parsed `Sidecar` values;
  - creating the deauth log file and `_log_detection`;
  - `shutil.copy2` and `os.makedirs` in wpa3parse.py, which only name the copies.
- Flask responses are not modelled. `on_webhook` returns the reply kind and whether it would be HTML.
- `plugins.on('cracked', ...)` is not modelled. The webhook returns the `handshake` event it dispatches (the capture path, with agent `None`); other plugins receiving it are not modelled, and this plugin is modelled as receiving it before the next handshake.
- Display and face updates, the UI widget setup and the wpa3 face animation are left out.
- `on_config_changed` is not modelled, beyond `LoadWordlists` being the reload it triggers.
- `threading.Lock` is left out. The hooks are modelled as running one at a time.
- Case mapping covers ASCII letters only. Python's full Unicode `lower`/`upper` is not modelled.
- Strings are sequences of characters, not bytes; decoding the tool's output is not modelled.
- `_send_message` does not exist in the source (it is commented out). A configured Telegram `api` and `id` is modelled as the raise it causes.
- DisplayPassword.AppendedEntryIsShown: an entry with `\n` or `\r` in a field (an SSID or key holding `\r`, a GPS value) is split into several lines by `readlines`; the lemma and AppendedToUnterminatedLine promise nothing for such entries, because the file is modelled as its list of lines rather than as text.
- DeauthSniffer.Sniffer.OnWifiUpdate: a `mac` value that is truthy but not a string, and a `type` value that is not a string (which would raise), are not modelled. `mac` is a string or absent, and `type` is a string or absent.
- The deauth option keys are assumed present, as the plugin's defaults provide them. A missing key would raise `KeyError`.
- DeauthSniffer.Sniffer.OnLoaded: the `debug` and `log_file` options only affect logging. Whether creating the log file raises is the `logFileOk` parameter.
- The table `detected_bssids` is a sequence of entries with distinct MACs, not a `map`. The sequence keeps Python's dict insertion order, which decides which entries the cap keeps when timestamps tie.
- DisplayPassword.GetMostRecentPassword: `most_recent_source` is only logged and is not modelled. The `Parse error` branch cannot be reached for a string line, so it is not modelled.
- The potfile paths of the display plugin, and the names of files in general, are not modelled; a potfile is given by its state (`PotFile`).
- Wpa3Parse.OnHandshake: `extract_from_pcap` is a parameter (the capture's encryption list). Exceptions inside the handler are not modelled; the decision part raises none for the modelled inputs.
- QuickDic.QuickDicPlugin.OnHandshake: `time_taken` is the `elapsed` parameter in whole seconds. The audit's `total_passwords_checked` is the value after the run.
