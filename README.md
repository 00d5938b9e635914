# IP range lookup, whois fallback and webhook helpers — a Dafny model

The system maps an IP address to the autonomous system that announces it and
registers the covering prefixes in NetBox. It has three parts:

- **The Flask lookup service** (`app.py`). `/iplookup` validates the `ip`
  query parameter and answers "missing" for addresses recorded in
  `missing_ips.json`. Otherwise it scans the range table for the first row
  whose `[start_ip, end_ip]` holds the address. It then summarises that
  range into CIDR blocks (`convert_to_cidr`) and sends one NetBox create
  request per block (`send_to_netbox`). An address no row holds is appended
  to the missing list (`save_missing_ip_json`).
- **The fallback resolver** (`whois_lookup.py`). For every address on the
  missing list without a status in `processed_ips.json`, it asks the Team
  Cymru whois service and parses the second line of the verbose answer. It
  posts the announced prefix to NetBox (`post_prefix_to_netbox`) and records
  one of five statuses, saving the ledger after each one except the
  invalid-data status.
- **The alert webhook helpers** (`server.js`):
  - the round-robin choice of the fallback lookup server (`getNextServer`);
  - the three regular-expression extractors that read the AS number, AS name
    and domain out of a NetBox prefix description;
  - `safeReplace`, which makes a value fit a dotted syslog field.

The model has six modules:

| file | module | contents |
|---|---|---|
| `wrappers.dfy` | `Wrappers` | `Option`, `Result` |
| `text.dfy` | `Text` | character classes, Python `strip`, ECMAScript `trim`, `str.split` / `join` |
| `cidr.dfy` | `Cidr` | `convert_to_cidr` and the loop of `ipaddress.summarize_address_range` on integer addresses of width 32 or 128 |
| `cidr.dfy` | `CidrProperties` | what the summarisation guarantees |
| `lookup.dfy` | `RangeLookup` | `ip_lookup`, the missing list, `send_to_netbox`; a class `LookupService` whose methods update the missing list and the log of NetBox requests |
| `resolver.dfy` | `WhoisResolver` | the ledger as an insertion-ordered dictionary value, one loop iteration as a function, and a class `Resolver` whose methods update the ledger, the ledger file and the logs of whois queries and NetBox requests |
| `webhook.dfy` | `Webhook` | the server rotation as a class; each regular expression stated declaratively and as a scan, with lemmas tying the two |

The world outside the programs is passed in as values:
- address parsing (`ipaddress.ip_address`) is a `Parser` oracle from a string
  to an address or nothing;
- the whois subprocess is an oracle from an address to an exit code and
  output lines, or an exception;
- NetBox is an oracle from a create request to a status code, or an
  exception;
- files are the values they hold.

Where the code's behaviour may surprise, the model follows the code:
- The resolver accepts an empty AS number. Only "NA" is rejected
  (`whois_lookup.py:75`).
- The invalid-data status is recorded but not saved (`whois_lookup.py:75-78`).
- A whois answer with at most one line records nothing for the address, so
  the address is retried on the next run (`whois_lookup.py:66`).
- A `requests.post` that raises inside `send_to_netbox` is not caught, so the
  lookup answers 500 instead of its result (`app.py:101`, `app.py:125`).
- The resolver's description is `"{as_name} (AS{as_number})"`
  (`whois_lookup.py:81`).

## Model

| member | source | states |
|---|---|---|
| Cidr.Summarize | app.py:25-28 | fails exactly when the bounds differ in version (VersionMismatch) or start > end (RangeOrder) |
| Cidr.ConvertToCidr | app.py:21-28 | fails with InvalidAddress exactly when one of the two bounds does not parse |
| Cidr.TrailingZeros | app.py:28 | the number of trailing zero bits, capped at the width: the address is aligned to that many bits and, below the cap, not to one more |
| Cidr.BitLength | app.py:28 | Python's `bit_length`: zero exactly for zero, otherwise 2^(l-1) <= n < 2^l |
| Cidr.HostBits | app.py:28 | the block chosen at the cursor is aligned, fits the width, ends at or before the last address, and one twice as large would break one of these |
| Cidr.FirstBlock | app.py:28 | each block the loop emits starts at the cursor, has the range's version and ends within [cursor, last] |
| Cidr.SummarizeFrom | app.py:28 | the loop yields nothing exactly when the cursor is past the end; every block fits the address width |
| CidrProperties.SummarizeCorrect | app.py:21-30 | for same-version ordered bounds, the blocks are: non-empty; aligned; maximal; of that version; sorted, disjoint and contiguous; from the first address to the last; and their union is exactly [first, last] |
| CidrProperties.SummarizeCovers | app.py:28 | an address lies in some block if and only if it lies in the range |
| CidrProperties.SummarizeReaches | app.py:28 | every address of the range lies in some block |
| CidrProperties.ContiguousCovers | app.py:28 | contiguous blocks cover everything from a block's start to the end of the last block |
| CidrProperties.SummarizeWithin | app.py:28 | every block has the range's version and lies inside the range |
| CidrProperties.SummarizeContiguous | app.py:28 | each block starts right after the previous one ends |
| CidrProperties.SummarizeSorted | app.py:28 | the blocks are strictly increasing and pairwise disjoint |
| CidrProperties.SummarizeBest | app.py:28 | every block is aligned to its size and could not be doubled within the range |
| CidrProperties.FirstBlockIsBest | app.py:28 | the block chosen at the cursor is aligned and maximal |
| CidrProperties.EndsAtLast | app.py:28 | the last block ends at the range's last address |
| CidrProperties.SummarizeSingleHost | app.py:21-30 | a one-address range is a single host block (/32 or /128) |
| CidrProperties.SummarizeBlockIsIdentity | app.py:28 | summarising exactly the range of an aligned block gives back that block |
| CidrProperties.AlignedByteRange | app.py:21-30 | an aligned run of 256 addresses (8.8.8.0 - 8.8.8.255) is one /24 block (for IPv4) |
| CidrProperties.OddStartOfFourBlock | app.py:21-30 | the last three addresses of an aligned four-block (10.0.0.1 - 10.0.0.3) are a host block followed by a two-address block |
| RangeLookup.FirstMatchFrom | app.py:76-84 | the index found is a hit (`RowMatches`: both bounds parse, all three versions agree and start <= query <= end) with no hit before it; none means no row from there is a hit |
| RangeLookup.FirstMatchSkips | app.py:76-84 | rows that are no hit do not change the first match |
| RangeLookup.SyncDescription | app.py:109 | the description is the AS name, " (", the ASN, "), " and the domain |
| RangeLookup.SyncRequests | app.py:109-118 | one create request per prefix, in order, with that prefix, the description "name (asn), domain" and status "active" |
| RangeLookup.Dispatch | app.py:113-130 | no more requests are sent than there are prefixes; when fewer are sent, one of those sent raised |
| RangeLookup.DispatchFrom | app.py:113-130 | from position i, at most the remaining requests are sent, and nothing exactly when none remain |
| RangeLookup.DispatchShape | app.py:113-130 | the requests sent are the prefix of the list up to and including the first one that raises, or all of them |
| RangeLookup.DispatchStep | app.py:113-130 | after a request that was answered the loop goes on; after one that raised it stops there |
| RangeLookup.DispatchComplete | app.py:113-130 | when every request was answered, all were sent and none raised |
| RangeLookup.AddMissing | app.py:41-55 | the literal is in the new list; the old list is its prefix; the list grows by at most one; it is unchanged exactly when the literal was already present |
| RangeLookup.AddMissingNoDuplicates | app.py:51-52 | recording a literal keeps the missing list free of duplicates |
| RangeLookup.AddMissingIdempotent | app.py:51-55 | recording the same literal twice is the same as recording it once |
| RangeLookup.LookupRejects | app.py:62-74 | each 400 answer and the "in missing list" 404 happen exactly under their conditions; they leave the list unchanged and send nothing |
| RangeLookup.KnownMissingIgnoresTable | app.py:71-74 | a listed address gets the same answer whatever the table and NetBox, and nothing is sent |
| RangeLookup.LookupMiss | app.py:76-106 | "not found" happens exactly when no row is a hit for a new parsable query; the literal is then appended; otherwise the list is unchanged |
| RangeLookup.MissIsPermanent | app.py:71-106 | after a "not found", later lookups of the same literal answer "in missing list", even against another table |
| RangeLookup.LookupFound | app.py:76-103 | a result comes from the first row that is a hit, and carries: that row's bounds, ASN, name and domain; its range's summary, which covers the query; and one answered request per prefix |
| RangeLookup.LookupHit | app.py:76-130 | the converse of LookupFound: when the first hit is row k, the answer is that row's result with every request sent if NetBox answers them all, and a 500 with the list unchanged if one raises |
| RangeLookup.Lookup | app.py:58-106 | the missing list is unchanged or gains the new query literal at the end; requests are sent only for a result or a 500; a result answers the query itself |
| RangeLookup.LookupServerError | app.py:101-130 | a 500 means the last request sent raised, all before it were answered, and the missing list is unchanged |
| RangeLookup.LookupService.constructor | app.py:14-19 | the service starts from the range table loaded at start-up, the parse and NetBox oracles, and the missing list as `load_missing_ips` reads it (app.py:71), with nothing sent |
| RangeLookup.LookupService.SaveMissingIpJson | app.py:41-55 | the missing list becomes AddMissing of the old list |
| RangeLookup.LookupService.SendToNetbox | app.py:108-130 | appends the dispatched requests to the log and reports whether one raised |
| RangeLookup.LookupService.IpLookup | app.py:58-106 | the answer, the new missing list and the requests appended are those of the lookup function |
| WhoisResolver.Put | whois_lookup.py:77-105 | assignment keeps every key listed once in the order |
| WhoisResolver.PutEffect | whois_lookup.py:77-105 | assignment sets the key's comment, keeps every other key and comment, and appends the key to the order only when it is new |
| WhoisResolver.Items | whois_lookup.py:93 | the saved list has one entry per key, in insertion order, with its comment |
| WhoisResolver.FromEntries | whois_lookup.py:51 | building the dictionary from entries gives a well-formed ledger |
| WhoisResolver.FromEntriesKeys | whois_lookup.py:51 | the loaded dictionary's keys are exactly the addresses the entries list |
| WhoisResolver.FromEntriesLastWins | whois_lookup.py:51 | an address listed several times keeps the comment of its last entry |
| WhoisResolver.LoadLedger | whois_lookup.py:41-51 | a missing, malformed or non-list file gives the empty ledger |
| WhoisResolver.SaveLoadRoundTrip | whois_lookup.py:41-95 | loading a saved ledger gives back the same keys, order and comments |
| WhoisResolver.FromDistinctEntries | whois_lookup.py:51 | entries with distinct addresses load in their own order with their own comments |
| WhoisResolver.ItemsHaveDistinctIps | whois_lookup.py:93 | a saved ledger lists each address once |
| WhoisResolver.ParseCymru | whois_lookup.py:68-72 | the line is rejected (IndexError) exactly when it has fewer than six '\|' |
| WhoisResolver.ParseColumns | whois_lookup.py:67-72 | a line of seven or more '\|'-free columns yields columns 0, 1, 2 and 6, stripped |
| WhoisResolver.Description | whois_lookup.py:81 | the description is the AS name, " (AS", the AS number and ")" |
| WhoisResolver.ExampleDescription | whois_lookup.py:75-81 | the fields of the 8.8.8.8 answer (15169, 8.8.8.8, 8.8.8.0/24, "GOOGLE, US") are valid and give "GOOGLE, US (AS15169)" |
| WhoisResolver.PaddedColumn | whois_lookup.py:69-72 | a word with no whitespace at either end, padded with spaces, strips to itself |
| WhoisResolver.PaddedLine | whois_lookup.py:67-72 | seven '\|'-free columns whose columns 0, 1, 2 and 6 are padded words parse to those words |
| WhoisResolver.ExampleCymruLine | whois_lookup.py:67-81 | the data line of the verbose answer for 8.8.8.8, seven '\|'-separated columns with any space padding, parses to 15169, 8.8.8.8, 8.8.8.0/24 and "GOOGLE, US", which are valid and give "GOOGLE, US (AS15169)" |
| WhoisResolver.Assess | whois_lookup.py:59-90 | a recorded status is one of the five, and it is saved exactly when it is not invalid data |
| WhoisResolver.AssessLine | whois_lookup.py:67-90 | the data line always records one of the five statuses, and posts only when the line has all seven columns |
| WhoisResolver.AssessFields | whois_lookup.py:75-90 | one of the five statuses is recorded; it is saved, and the record's own prefix is posted, exactly when the fields are valid |
| WhoisResolver.AssessOutcomes | whois_lookup.py:59-109 | nothing is recorded exactly for a successful answer of at most one line. Otherwise there is one of five statuses, saved unless it is invalid data. A whois error is exactly a non-zero exit. A post happens exactly for the success and NetBox-error statuses, which reflect whether NetBox answered 201 |
| WhoisResolver.AssessDataLine | whois_lookup.py:68-90 | an incomplete line is an exception; invalid data is recorded unsaved and never posted; valid data posts its prefix and description |
| WhoisResolver.Visit | whois_lookup.py:53-109 | one iteration keeps the ledger well-formed |
| WhoisResolver.Apply | whois_lookup.py:77-109 | recording a verdict keeps the ledger well-formed |
| WhoisResolver.RunAll | whois_lookup.py:53-109 | the whole loop keeps the ledger well-formed |
| WhoisResolver.VisitKnown | whois_lookup.py:55-57 | an address with a status is skipped: no whois query and no change |
| WhoisResolver.VisitFresh | whois_lookup.py:59-109 | a new address is queried once. Only its own entry is new, with a status of the five and appended to the order. The file is rewritten with the whole ledger unless the status is invalid data. At most one request is sent |
| WhoisResolver.RunGrows | whois_lookup.py:53-109 | the loop never changes or moves an existing entry and never queries an address that had one; new entries are listed addresses with one of the five statuses; requests are only appended |
| WhoisResolver.GrowsTrans | whois_lookup.py:53 | two stretches of the loop compose |
| WhoisResolver.Resolver.constructor | whois_lookup.py:41-51 | the ledger is the one loaded from the file; nothing queried or sent yet |
| WhoisResolver.Resolver.PostPrefixToNetbox | whois_lookup.py:19-34 | one request {prefix, description} is logged; the result is true exactly when NetBox answered 201 |
| WhoisResolver.Resolver.SaveLedger | whois_lookup.py:93-95 | the file holds the ledger's items |
| WhoisResolver.Resolver.Record | whois_lookup.py:77-95 | the ledger gets the comment and the file is rewritten when saving |
| WhoisResolver.Resolver.ProcessFields | whois_lookup.py:75-95 | validating, posting and recording one record has the effect of its verdict |
| WhoisResolver.Resolver.ProcessLine | whois_lookup.py:68-109 | handling the data line has the effect of its verdict |
| WhoisResolver.Resolver.ProcessIp | whois_lookup.py:53-109 | one iteration changes the state as the loop-body function says |
| WhoisResolver.Resolver.Run | whois_lookup.py:53-109 | the loop changes the state as the whole-loop function says |
| Text.TrimBy | whois_lookup.py:69-72 | the result has no whitespace at either end and sits in the input between whitespace runs |
| Text.TrimUnique | whois_lookup.py:69-72 | a string framed by whitespace trims to its core |
| Text.Split | whois_lookup.py:68 | one part more than separators, no part holds the separator, and joining the parts gives the input back |
| Text.SplitJoin | whois_lookup.py:68 | splitting a join of separator-free parts gives the parts back |
| Webhook.ServerRotation.constructor | server.js:17 | the rotation starts at the first server |
| Webhook.ServerRotation.GetNextServer | server.js:19-23 | returns the current server and moves the index on by one, wrapping after the last |
| Webhook.RotationCycles | server.js:11-23 | three calls return every server once and come back to the same index |
| Webhook.DotSpaces | server.js:69 | same length; every space becomes '.', every other character stays |
| Webhook.SafeReplace | server.js:67-74 | a non-string gives ""; a string gives a space-free string of the same length |
| Webhook.SafeReplaceProperties | server.js:67-74 | the replacement is idempotent, keeps space-free strings and changes exactly the spaces |
| Webhook.AsnFrom | server.js:119 | finds the leftmost `\bAS\d+\b` token from a position, or shows there is none |
| Webhook.ExtractAsn | server.js:114-121 | the result is "Unknown" or "AS" followed by at least one digit |
| Webhook.ExtractAsnSpec | server.js:114-121 | the result is the leftmost whole token "AS" + digits between word boundaries; "Unknown" exactly for a non-string or no token |
| Webhook.DomainFrom | server.js:63 | finds the leftmost comma whose tail matches `\s*(\S+)\s*$`, or shows there is none |
| Webhook.DomainTailScanned | server.js:63 | every declarative tail match is accepted by the scan with the same token |
| Webhook.ScannedDomainTail | server.js:63 | what the scan accepts is a declarative tail match |
| Webhook.TokenIsTrimmed | server.js:63-64 | group 1 is the trimmed tail and trimming it changes nothing |
| Webhook.DomainAtIff | server.js:63 | at one comma the scan's test holds exactly when the pattern matches there |
| Webhook.DomainFromNone | server.js:63-64 | the scan finds nothing exactly when the pattern matches nowhere |
| Webhook.DomainFromLeftmost | server.js:63 | the scan finds the leftmost match and its token |
| Webhook.ExtractAsDomain | server.js:58-65 | the result is "Unknown" or a non-empty token without whitespace |
| Webhook.ExtractAsDomainSpec | server.js:58-65 | the result is group 1 of the leftmost match, equal to the trimmed tail; "Unknown" for a non-string or no match |
| Webhook.CommaRestIff | server.js:54 | the scan decides `,\s*.*$` |
| Webhook.RestIff | server.js:54 | the scan decides `\s*(?:,\s*.*)?$` |
| Webhook.AsTagFound | server.js:54 | a declarative `\s*\(AS\d+\)` is where the scan finds it |
| Webhook.AsTagSound | server.js:54 | what the scan finds is a declarative `\s*\(AS\d+\)` |
| Webhook.TailIff | server.js:54 | the scan decides the whole part after group 1 |
| Webhook.NameCutFrom | server.js:54 | finds the shortest line-terminator-free prefix from a position after which the tail matches |
| Webhook.NameCutSpec | server.js:54 | the scan finds the lazy group exactly when one exists, and it is the shortest |
| Webhook.NameCutNone | server.js:54-55 | no match exactly when no line-terminator-free prefix is followed by a matching tail |
| Webhook.NameCutShortest | server.js:54 | no shorter prefix than the one found works |
| Webhook.ExtractAsName | server.js:49-56 | the result has no whitespace at either end |
| Webhook.ExtractAsNameSpec | server.js:49-56 | the result is the trimmed lazy group, or "Unknown" for a non-string or no match |
| Webhook.NameAlwaysMatchesOneLine | server.js:54-55 | a string without line terminators always matches |
| Webhook.NameBeforeTag | server.js:49-56 | "name (ASdigits), domain" gives back the name when the name is non-empty and holds no whitespace, '(' or ','; a name such as "GOOGLE, US" is cut at its first comma ("GOOGLE, US (AS15169), google.com" gives "GOOGLE") and is not covered |
| Webhook.ExampleAsName | server.js:49-56 | "GOOGLE (AS15169), google.com" gives "GOOGLE" |

## Left out

- Loading the range table with pandas (`app.py:14-19`) is left out. The table is a sequence of rows of strings. NaN cells, bad CSV lines and an unreadable file (an empty table) are not modelled separately.
- Parsing addresses (`ipaddress.ip_address`) is an oracle. IPv4/IPv6 literal syntax is not modelled, and `LookupFound` assumes the oracle yields addresses within their width.
- The textual form of a block (`str(prefix)`) and of an address, and the JSON encoding of responses (`jsonify`), are not modelled. Blocks are network/prefix-length values.
- File I/O is modelled as the values the files hold. Read or write failures and a `missing_ips.json` holding something other than a list of strings are not modelled.
- `load_missing_ips` is not a separate member. An absent file reads as the empty list, which is the initial value the service is given.
- In `send_to_netbox` a reply other than 201 only prints a message. The model logs the request either way and leaves the printed text out.
- The module globals `global_start_ip` / `global_end_ip` and concurrent requests are not modelled. Requests run one at a time.
- A ledger entry without an "ip" or "comment" key (KeyError at `whois_lookup.py:51`) is not modelled. Entries always hold both.
- Reading `missing_ips.json` in the resolver (`whois_lookup.py:37-38`) is not modelled. The loop takes the list as a parameter.
- The whois subprocess and NetBox are oracles. The text they print, stderr, timeouts and the network are left out.
- A NetBox reply depends only on the request, so a repeated identical create always gets the same reply in the model. A real NetBox that refuses a duplicate prefix answers 201 the first time and an error afterwards. Two missing addresses in one announced prefix would then be recorded "Processed successfully" and "Not processed due to NetBox error". Requests repeated across lookups in the service are affected the same way. The model cannot produce those traces.
- Logging (`print`, `console.error`) is left out.
- The webhook request handler, `fallbackIpLookup`, `getCountryCoordinates`, `getPrefixDescription` and the syslog client in server.js are not part of this model.
- JavaScript values other than strings are one case, `NonString`.
- Regular expressions are modelled only for the three patterns the helpers use. Their semantics follow ECMAScript (`\s` includes the line terminators, `.` excludes them, `\b` uses ASCII word characters).
- Python's `str.strip` is modelled with the characters `str.isspace` accepts. ECMAScript `trim` and `\s` use the ECMAScript whitespace and line terminators.
- CidrProperties.SummarizeCorrect proves each block maximal (it cannot be doubled). It does not prove that no other cover has fewer blocks.
- The literal examples are stated for all versions and all suitably aligned addresses:
  - 8.8.8.0 - 8.8.8.255 is `AlignedByteRange`;
  - 10.0.0.1 - 10.0.0.3 is `OddStartOfFourBlock`;
  - the Cymru line is `ExampleCymruLine`, for any space padding and any `|`-free columns 3 to 5.
