# Server mesh: a verified model of its admission, selection and proxy rules

The mesh has three programs. Node agents (`src/node.py`) admit users up to a configured
capacity and report their state on `/stats`. Two controllers probe hosts and route
traffic:
- The reverse proxy (`src/master.py`) polls `/status.php` on its XAMPP hosts on port 80 (`src/master.py:9-12,19`).
- The mesh controller (`src/brain.py`) polls the node agents' `/stats` (`src/brain.py:24`).

This project models the sequential logic of all three in Dafny and proves what that
logic promises:

- **Admission counter** (`node.dfy`, class `Node.Agent`). `/connect` admits a user while
  `current_users < max_users` and answers `"connected"`/200, otherwise `"full"`/503.
  `/disconnect` lowers a positive counter by one and always answers
  `"disconnected"`/200. Any sequence of requests keeps `0 <= current_users <= max_users`.
- **Start-up port migration and region classifier** (`node.dfy`). A stored port 5000
  becomes 5001. `detect_region` classifies the host's lower-cased time-zone name by an
  ordered chain of substring tests. The chain is proved equal to a rule table tried
  first-match, and GLOBAL is the answer exactly when no rule fires.
- **Health tables** (`master.dfy`, `brain.dfy`, `table.dfy`). Each probe outcome becomes
  a record: the reported fields with their defaults on a 200 answer, a fixed dead record
  otherwise. The record is written into an insertion-ordered dict (`Table`), the way
  Python's `dict` keeps order.
- **Best-node selection** (`selection.dfy`, plus a loop in each controller). The scan
  skips dead and full nodes and keeps the entry with the strictly smallest
  `ping + 2*load`. It returns the first entry with the minimal score, or nothing when no
  entry is eligible. The brain's reply always carries port 80.
- **Proxy** (`master.dfy`). It answers 503 when there is no target. Request headers are
  forwarded as a dict without the exact key `Host`. Response headers come back without
  `content-encoding`, `content-length`, `transfer-encoding` and `connection`, compared
  case-insensitively.
- **Across the programs** (`mesh.dfy`). The two controllers' selection rules agree: given
  the same probe outcomes, they derive the same selection data and name the same node.
  This compares the rules; the programs themselves poll different hosts. A node agent
  that answers the mesh controller with its own `/stats` report is eligible exactly when
  its `/connect` would admit a user.

I/O becomes parameters. A probe's result is a `Probe.Outcome` value: a response with
status, latency and decoded body, or an exception message. The upstream answer to a
proxied request is an `Upstream` value. A sensor reading such as the CPU load is a `real`
argument.

## Model

| member | source | states |
|---|---|---|
| `Node.ConnectAdmits` | src/node.py:442-445 | a connect raises the counter by exactly one iff `users < max_users`, and is then answered "connected" with the server name and 200; otherwise the counter is unchanged and the answer is "full"/503 |
| `Node.DisconnectNeverNegative` | src/node.py:450-452 | a disconnect lowers a positive counter by one and leaves 0 at 0, never going negative; the answer is always "disconnected"/200 |
| `Node.DisconnectUndoesConnect` | src/node.py:441-452 | a disconnect after an admitted connect restores the counter |
| `Node.Next` | src/node.py:442-452 | one request moves the counter by at most one and keeps it within bounds |
| `Node.Answer` | src/node.py:442-452 | every reply is 200 or 503, and it is 503 exactly for a connect that leaves the counter unchanged |
| `Node.ServeKeepsBounds` | src/node.py:441-452 | every sequence of connect/disconnect requests keeps the counter non-negative, and within `max_users` when that is non-negative |
| `Node.ConnectsFillUp` | src/node.py:442-444 | n connects in a row from a legal state admit exactly `min(n, free places)` users |
| `Node.Agent.Start` | src/node.py:405-419 | a loaded configuration keeps every field, has its port migrated, and the agent starts with 0 users in a valid state |
| `Node.Agent.ConnectUser` | src/node.py:439-445 | POST /connect: the counter and reply follow the admission rule, and the invariant is kept |
| `Node.Agent.DisconnectUser` | src/node.py:447-452 | POST /disconnect: the counter is decremented only when positive, the reply is always "disconnected"/200, and the invariant is kept |
| `Node.Agent.StatsReport` | src/node.py:422-437 | /stats reports the agent's own `current_users` and configured `max_users` |
| `Node.MigratedPort` | src/node.py:414-417 | the migrated port is never 5000; 5000 becomes 5001 and any other value, or a missing port, is kept |
| `Node.ListenPort` | src/node.py:456 | the listening port is not 5000 unless 5000 is the configured port; a missing port means 5001 |
| `Node.MigrationSettles` | src/node.py:414-417 | migration is idempotent, and a migrated configuration never listens on 5000 (missing port defaults to 5001, line 456) |
| `Text.Lower` | src/node.py:75 | `str.lower` on ASCII: same length, each letter A-Z mapped to its lower-case letter, every other character kept, and no upper-case letter left |
| `Text.ContainsIffOccurs` | src/node.py:79-94 | the substring test `needle in s` holds exactly when the needle occurs at some position of the text |
| `Text.MissingCharExcludes` | src/node.py:79-94 | a needle with a character the text lacks is not a substring of it |
| `Node.RegionOf` | src/node.py:79-94 | the classifier always answers one of EU, AFRICA, ASIA, OCE, NA-WEST, NA-CENTRAL, NA-EAST, GLOBAL |
| `Node.RegionOfIsFirstMatch` | src/node.py:79-94 | the if-chain equals the rule table tried in order, first rule that fires deciding |
| `Node.FirstMatchSpec` | src/node.py:79-94 | a table classifier answers the region of the first rule that fires, and the fallback when none fires |
| `Node.RegionGlobalIff` | src/node.py:79-94 | the answer is GLOBAL exactly when none of the listed substrings occurs in the name |
| `Node.FirstMatchWins` | src/node.py:79-92 | the region is that of the first rule that fires, whatever later rules also fire |
| `Node.EuropeWinsOverCentral` | src/node.py:79-90 | a name containing "europe" is EU even if it also contains "central" |
| `Node.DetectRegion` | src/node.py:72-94 | detect_region lower-cases the time-zone name, or uses "utc" when it cannot be read, and answers one of the eight region labels |
| `Node.UnreadableZoneIsGlobal` | src/node.py:74-77 | when the time-zone name cannot be read, the fallback "utc" yields GLOBAL |
| `Node.AbbreviationsMatchBySubstring` | src/node.py:91-92 | the tests are substring tests, so the abbreviation "aest" matches "est" and is classified NA-EAST |
| `Node.DetectRegionIgnoresCase` | src/node.py:75 | names that lower-case alike get the same region |
| `Table.Assign` | src/master.py:27-34 | a dict write leaves the pair in the dict and grows it by at most one entry (dict writes also at src/master.py:38-45 and src/brain.py:31,42) |
| `Table.GetFinds` | src/master.py:27-34 | a dict lookup finds a value exactly when the key is present |
| `Table.AssignSpec` | src/master.py:27-34 | dict assignment: the key then holds the new value, every other key is unchanged, and the key order gains the key at the end only if it was new |
| `Table.AssignKeys` | src/master.py:27-34 | dict assignment keeps the key order and appends the key only when it was new |
| `Table.AssignGet` | src/master.py:27-34 | after dict assignment the key holds the new value and every other key its old one |
| `Table.AssignKeepsDistinct` | src/master.py:27-34 | dict assignment keeps the keys distinct |
| `Table.AssignAbsent` | src/master.py:27-34 | assigning a key that is absent appends the pair at the end |
| `Table.AssignAllGet` | src/master.py:119 | after assigning a run of pairs, a key holds the last value assigned to it, or its old value if none was |
| `Table.AssignAllKeepsDistinct` | src/master.py:18-45 | a run of assignments keeps keys distinct |
| `Table.AssignHasKey` | src/master.py:27-34 | the keys after an assignment are the old keys and the assigned key |
| `Table.AssignAllKeys` | src/master.py:18-45 | a key is present after a run of assignments exactly when it was present before or was assigned |
| `Table.LastValueOfDistinct` | src/master.py:18-45 | among pairs with distinct keys, the last value assigned to a pair's key is that pair's value |
| `Table.AssignAllDistinct` | src/master.py:119 | building a dict from pairs with distinct keys keeps every pair in order |
| `Selection.BestExists` | src/master.py:52-63 | a best entry exists exactly when some entry is eligible |
| `Selection.BestIsUnique` | src/master.py:59-61 | at most one entry is the first strict minimum, so the scan's answer is determined |
| `Master.ProbeRecord` | src/master.py:25-45 | a record is alive iff the probe answered 200; then ping is the latency and load, users, max are the reported values or 0, 0, 100; otherwise it is the dead record (alive false, ping 9999, load, users, max 0) |
| `Master.Eligible` | src/master.py:53-54 | an entry is eligible only when alive and `users < max`, so the dead record never is |
| `Master.Score` | src/master.py:56-57 | the score is the ping plus twice the load: never below the ping for a non-negative load, equal to it for zero load |
| `Master.DeadNodeNeverChosen` | src/master.py:53 | an entry that is not alive is never selected |
| `Master.Controller.CheckHealth` | src/master.py:16-46 | one health round writes each node's probe record under its name, in NODES order, keeping names distinct |
| `Master.RoundRecordsEveryNode` | src/master.py:18-45 | after a round over distinctly named nodes, each node's entry is the record of its own probe |
| `Master.Controller.GetBestNode` | src/master.py:48-63 | returns None exactly when no entry is alive with users < max; otherwise the record of the first entry whose `ping + 2*load` is minimal among those |
| `Master.Controller.Proxy` | src/master.py:107-132 | 503 "No servers available" exactly when no node is selectable; otherwise forwards to `http://<best ip>/<path>` with the forwarded headers and relays the upstream status, body and filtered headers, or 500 "Proxy Error: …" |
| `Master.FilterResponseHeaders` | src/master.py:126-128 | a header is kept exactly when it is upstream and its lower-cased name is not excluded |
| `Master.FilterResponseHeadersAppend` | src/master.py:127-128 | filtering distributes over concatenation, so kept headers keep their upstream order |
| `Master.FilterResponseHeadersIdempotent` | src/master.py:126-128 | filtering twice equals filtering once |
| `Master.ExclusionIgnoresCase` | src/master.py:126-128 | "Content-Length" and "Connection" are dropped although the list is lower-case |
| `Master.WithoutHost` | src/master.py:119 | a pair survives exactly when its key is not exactly "Host" |
| `Master.WithoutHostAppend` | src/master.py:119 | removing "Host" distributes over concatenation, so the other headers keep their incoming order |
| `Master.WithoutHostLastValue` | src/master.py:119 | removing "Host" does not change the last value of any other name |
| `Master.ForwardedHeaders` | src/master.py:119 | the dict comprehension yields distinct header names |
| `Master.ForwardedHeadersSpec` | src/master.py:119 | forwarded header names are distinct, are exactly the incoming names other than "Host" (case-sensitive), and each carries its last incoming value; "Host" has no value |
| `Master.ForwardedHeadersDistinct` | src/master.py:119 | with no repeated names, all incoming headers except "Host" are forwarded in order |
| `Brain.ProbeRecord` | src/brain.py:29-47 | a record is alive iff the probe answered 200; then users, max, load are the reported values or 0, 100, 0; otherwise ping 9999, no users/max/load, and the error "Bad Status" or the exception's message |
| `Brain.Eligible` | src/brain.py:66 | an eligible entry is alive, and an alive entry with no users or max reported is eligible (0 < 100) |
| `Brain.Score` | src/brain.py:67 | the score is the ping when no load was reported, and never below the ping for a non-negative load |
| `Brain.FailedNodeNeverChosen` | src/brain.py:66 | the record of a failed probe is never selected |
| `Brain.Controller.MonitorMesh` | src/brain.py:18-48 | one monitor round writes each node's probe record under its name, in NODES order |
| `Brain.RoundRecordsEveryNode` | src/brain.py:20-47 | after a round over distinctly named nodes, each node's entry is the record of its own probe |
| `Brain.Controller.ApiGetBest` | src/brain.py:60-74 | 503 "No servers available" exactly when no entry is alive with users (default 0) < max (default 100); otherwise the ip of the first entry with minimal `ping + 2*load` and always port 80 |
| `Mesh.ControllersAgreeOnProbe` | src/brain.py:29-47 | for every probe outcome, the brain's record has the same ip, eligibility and score as the proxy's record would (master.py:25-45); the programs poll different hosts, so this compares the two rules |
| `Mesh.MirrorAssign` | src/brain.py:31 | writing both controllers' records of one probe under one name keeps their tables mirrored |
| `Mesh.MirrorRounds` | src/brain.py:18-47 | health rounds with the same probes keep the two tables mirrored |
| `Mesh.ControllersChooseAlike` | src/brain.py:60-74 | on mirrored tables the brain declines exactly when the proxy has no target, and otherwise names the proxy's chosen ip |
| `Mesh.ReportedNodeEligibleIffAdmitting` | src/node.py:422-445 | a node agent answering the mesh controller's /stats probe (brain.py:24) with its own report is eligible exactly when its /connect would admit one more user |

## Left out

- `benchmark_max_users`, `create_config`, `get_cpu_temp`, `get_location`, `detect_city_name` and `estimate_power_usage` are left out. They rest on timing, thread pools, network speed tests, sensors, geolocation, file I/O and float rounding. Lines 205-385 of `src/node.py` are unreachable after a `return`.
- The other fields of `/stats` (name, region, RAM, temperature, watts, location, status) are left out; `Node.Agent.StatsReport` gives only the fields the controllers read.
- `status.php` is left out. It is the PHP document the reverse proxy polls (`src/master.py:19`); the mesh controller's call to it is commented out (`src/brain.py:23`). It reports random users 10-50, capacity 200 and the load average × 100. It holds no logic beyond OS and random calls, so the proxy's probe outcomes are given as values.
- `Node.Agent.Start` models loading an existing `config.yaml`; generating a new one and writing the migrated file back are I/O.
- Background threads, `time.sleep` loops, latency measurement and `round(latency, 2)` are left out. One loop iteration over NODES is `CheckHealth`/`MonitorMesh`, and the probe outcomes are given, one per node.
- Flask routing, `jsonify`, dashboards and `/api/stats` are left out. The proxy's actual forwarding (method, body, cookies, query, redirects) is I/O: `Proxy` returns the URL and headers it would send and takes the upstream result as a parameter.
- The unlocked update of `current_users` under `threaded=True` is a data race, and it is not modelled; the counter is modelled sequentially.
- Python `str.lower()` is modelled for ASCII letters only. Header names are ASCII. A time-zone name can be localised and non-ASCII (on Windows `time.tzname`). The region still agrees for such names, because every needle is ASCII, except in exotic cases where a non-ASCII letter lower-cases to an ASCII one, such as the Kelvin sign U+212A becoming "k".
- Ping and load are modelled as exact `real` numbers. Float rounding, NaN and Infinity (which Python's JSON decoder accepts) are not modelled; `float('inf')` is replaced by a "no best yet" `Option`.
- Configuration and JSON values are modelled as integers where the code compares them. Values of other types are not modelled, e.g. a port stored as `5000.0`, which also equals 5000 in Python. Neither are JSON bodies that are not objects (their `.get` raises, which `Probe.Raised` stands for).
- The nodes' `/stats` document and the controllers' probe URL are taken as given; which path each controller probes is not modelled.
