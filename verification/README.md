# Proxy-IP checker worker: a verified model of its rules

The system is a Cloudflare Worker, `_worker.js`. Its API checks whether an
address works as a reverse proxy for the provider. `/check` opens a TCP
connection to the address, sends a fixed `GET /cdn-cgi/trace` request and
classifies the reply. `/resolve` resolves a domain through
DNS-over-HTTPS. Both routes are guarded by a rotating token. The worker also
serves a page script. That script expands address ranges (`a.b.c.0/24`,
`a.b.c.S-E`) and probes every host in slices of ten. It also probes every
address of a resolved domain on a chosen port.

This project models the rules inside that network and UI shell, as pure
Dafny functions over strings, sequences and unbounded integers:

| module | models |
|---|---|
| `Strings` | JavaScript's `indexOf`, `includes`, `split`, `trim`, ASCII `toLowerCase` and number rendering |
| `JsNumbers` | `parseInt` |
| `Endpoint` | how `checkProxyIP` turns a target into a host and port |
| `Probe` | the read loop's stop rule, the read loop, status-code extraction, `isValidProxyResponse` and `checkProxyIP` |
| `Dns` | `resolveDomain`'s query name and answer merge |
| `Redirect` | `normalizeURLs` |
| `Token` | the token seed, `doubleHash` and the acceptance rules of both routes |
| `Handler` | the `/check` and `/resolve` routes of `fetch` |
| `Ranges` | `preprocessInput`, the range-query list and `parseIPRange` |
| `Scan` | the batch scan of `checkInputs` |
| `DomainCheck` | the port-append rule of `checkDomainIPWithIndex` |

Everything the worker cannot compute by itself is a parameter:

- the MD5 hex digest: `digestHex: string -> string`;
- what a TCP connection delivers before the five-second timer fires: `connect: Endpoint -> Transport`, either the chunks received or a fault message;
- each DNS JSON reply: `lookup: (string, int) -> Lookup`;
- the page's call to `/check`: `probe: string -> ProbeReply`;
- the clock: `nowMs`.

JavaScript numbers are `JsNum = NaN | Num(int)`. No double-precision rounding is modelled.

Where the code and its description disagree, the model follows the code:

- The token's time bucket is `Math.ceil(now / 31 min)`, not the floor.
- The port is never range-checked.
- A `[v6]:x` target can yield a NaN port.
- `parseInt(p) || 443` replaces only NaN and 0 by 443; a negative port is kept.
- The `a.b.c.0-255` range yields 256 hosts, because the loop runs from S to E inclusive.
- One five-second timer bounds the whole read loop, not each read.

## Model

| member | source | states |
|---|---|---|
| Endpoint.ParseEndpoint | _worker.js:211-227 | The host is always a prefix of the target. A target with no `.tp`, no `[`…`]:` form and no `ipv4:port` form is its own host on port 443. |
| Endpoint.TunnelForm | _worker.js:214-217 | With `.tp` in the target, the host is everything before the first `.tp`. The port is the value of the digits the leftmost `.tp<digits>.` match captures, or 443 when no such match exists. |
| Endpoint.TpMatch | _worker.js:215 | Finds the leftmost index where `/\.tp(\d+)\./` matches, or reports that it matches nowhere. |
| Endpoint.TunnelPort | _worker.js:215-216 | The tunnel port is the value of the digit run at the leftmost match, else 443. |
| Endpoint.TpDigitsValue | _worker.js:216 | `parseInt` of the captured digit run is its decimal value. |
| Endpoint.BracketForm | _worker.js:218-220 | Without `.tp`, a target holding `[` and `]:` is cut at its first `]:`. The host keeps a closing `]`. The port is `parseInt` of what follows, up to any later `]:`. Nothing falls back to 443 here. |
| Endpoint.ColonForm | _worker.js:221-226 | Otherwise, a target not starting with `[`, with exactly one colon and a dot before it, splits into host and port. The port is `parseInt(port) \|\| 443`. |
| Endpoint.HostPortParts | _worker.js:222-224 | When a split on `:` gives two pieces, they rejoin around the colon and the first holds no colon. |
| JsNumbers.ParseIntDecimalPrefix | _worker.js:216 | `parseInt` of a digit run followed by a non-digit gives the run's decimal value. The exception is a lone `0` followed by `x`, which reads as a hex prefix. |
| JsNumbers.ParseIntNatToString | _worker.js:225 | `parseInt` of a rendered non-negative integer reads that integer back. |
| Probe.ShouldStopReading | _worker.js:262-264 | The stop rule as written; `Probe.ShouldStopReadingSimplified` states which texts satisfy it. |
| Probe.ShouldStopReadingSimplified | _worker.js:262-264 | The stop rule holds exactly when the text has the `\r\n\r\n` marker and either `content-length` or `connection: close` in any letter case. The case-sensitive `Connection: close` test is subsumed by the case-insensitive one. |
| Probe.LowerOccursAt | _worker.js:263 | An occurrence of a pattern survives lower-casing both the text and the pattern. |
| Probe.ChunksRead | _worker.js:249-267 | The loop reads up to and including the first chunk after which the stop rule holds. If the rule never holds, it reads every chunk delivered. |
| Probe.ReadResponse | _worker.js:246-267 | The loop consumes exactly `ChunksRead(chunks)` chunks. Its buffer is their concatenation. |
| Probe.DecodeEncodeAscii | _worker.js:261 | Decoding the bytes of an ASCII text gives the text back. |
| Probe.Decode | _worker.js:270 | A leading UTF-8 byte-order mark (the first three bytes) is dropped. Every later byte becomes one character: itself when it is ASCII, U+FFFD otherwise. |
| Probe.LeadingWhitespace | _worker.js:271 | Returns the longest prefix of `\s` characters. |
| Probe.StatusCode | _worker.js:271-272 | The status-line pattern and `parseInt` of its capture; `Probe.StatusCodeMatches` and `Probe.StatusCodeOfLine` state when it yields a status and which. |
| Probe.StatusCodeMatches | _worker.js:271-272 | A status is extracted iff the text starts with `HTTP/d.d` in any letter case, then at least one white-space character, then a digit. |
| Probe.MatchedStatusLine | _worker.js:271-272 | An extracted status comes from a text of that shape. |
| Probe.StatusLineMatched | _worker.js:271-272 | A text of that shape yields a status. |
| Probe.StatusCodeOfLine | _worker.js:271-272 | For any version `d.d`, any letter case of `http/`, any non-empty white-space run and any digit run followed by a non-digit, the status is the digit run's value. |
| Probe.StatusCodeOfTail | _worker.js:271-272 | After the version prefix, a white-space run and then a digit run give the digit run's value. |
| Probe.WhitespaceRunIs | _worker.js:271 | A white-space run followed by a non-white-space character is exactly what `\s+` consumes. |
| Probe.StatusCodeOfStatusLine | _worker.js:271-272 | For every code, `HTTP/1.1 <code>` followed by a non-digit is read back as that code. |
| Probe.StatusCodeAfterVersion | _worker.js:271-272 | After `HTTP/1.1 `, the status is the value of the digit run that follows. |
| Probe.IsValidProxyResponse | _worker.js:273-282 | The classification; `Probe.ShortResponseFails` and `Probe.RejectionPageAccepted` state a reply it rejects and one it accepts. |
| Probe.ShortResponseFails | _worker.js:279-280 | A reply of at most 50 bytes is never a success, whatever its text. |
| Probe.RejectionPageAccepted | _worker.js:274-282 | The provider's `400 Bad Request` status line, followed by any ASCII text that names the provider and makes the reply longer than 50 bytes, is classified as a success. |
| Probe.RejectionPageStatus | _worker.js:275-276 | The status extracted from the rejection page's status line is 400. |
| Probe.RejectionPagePhrase | _worker.js:278 | The rejection page contains `400 Bad Request`. |
| Probe.RejectionPageProvider | _worker.js:277 | Prefixing the status line keeps the provider's name findable in the lower-cased text. |
| Probe.CheckProxyIP | _worker.js:210-302 | The result reports the parsed host and port. A fault gives a failure that carries the fault's message and has no status and no size. Otherwise, success is the classification of the bytes the read loop kept, and the size is their count. The reported status is the extracted one, except that 0 is reported as absent, so the status is never 0. A success always has more than 50 bytes. |
| Dns.QueryName | _worker.js:172 | The queried name holds no colon. It is the domain cut at the first colon, or the whole domain when there is no colon. |
| Dns.FirstPiece | _worker.js:172 | The first piece of a split on `:` holds no colon and is followed by a colon in the text. |
| Dns.Select | _worker.js:189-199 | Filtering answers by type yields at most one entry per answer. |
| Dns.SelectMembers | _worker.js:189-199 | A string is selected iff some answer of the requested type carries it as data, bracketed for AAAA answers. |
| Dns.SelectLength | _worker.js:189-199 | The selection has one entry per answer of the requested type. |
| Dns.SelectAppend | _worker.js:189-199 | Filtering keeps the answers' order: selecting from two runs of answers gives the selection from the first run followed by that from the second. |
| Dns.SelectSingle | _worker.js:189-199 | A single answer is kept exactly when it has the requested type, as its data, in brackets for AAAA. |
| Dns.MergeAnswers | _worker.js:188-200 | The merge of both replies; `Dns.MergeOrder` and `Dns.MergeAnswersShape` state its order, length and members. |
| Dns.MergeOrder | _worker.js:188-200 | The merged list starts with the A selection, one entry per A answer, and continues with the bracketed AAAA selection. |
| Dns.MergeAnswersShape | _worker.js:188-200 | The merged list has one entry per A answer plus one per AAAA answer. Its members are exactly the A answers' data and the bracketed AAAA answers' data. |
| Dns.ResolveDomain | _worker.js:171-208 | A successful result is non-empty and equals the merge of both replies for the cut name. Every error carries the `DNS resolution failed: ` prefix. A failed A exchange gives that prefix plus its message. A failed AAAA exchange after an answered A one gives the prefix plus the AAAA message. Two answered replies give their merge when it is non-empty and the `No A or AAAA records found` error when it is empty. |
| Dns.AaaaOnlyIsBracketed | _worker.js:195-200 | With no A answers, every resolved entry is a bracketed AAAA answer. |
| Redirect.NormalizeUrls | _worker.js:305-312 | The three steps as written; `Redirect.NormalizeUrlsIsDedupEntries` equates them with a reference definition. |
| Redirect.NormalizeUrlsIsDedupEntries | _worker.js:305-312 | The source's three steps (collapse line-break runs, collapse pipe runs, split and filter) equal a reference definition: the non-empty fields between separators, each kept at its first occurrence. |
| Redirect.NormalizeUrlsSpec | _worker.js:305-312 | The list has no empty entry and no repeat. A string is in it iff it is a non-empty field of the setting. Entries appear in the order of their first occurrence. |
| Redirect.DedupSpec | _worker.js:309 | Removing repeats keeps every string once, in the order of first occurrences. |
| Redirect.KeepFirstNonEmptyIsDedup | _worker.js:308-310 | The `indexOf` filter over a prefix equals the reference: repeats and empties removed. |
| Redirect.KeepStep | _worker.js:309 | A non-empty item sits at its own first index iff it is not among the earlier non-empty items. |
| Redirect.ReplaceRunsEntries | _worker.js:306 | Collapsing runs of separators into one separator keeps the entries. |
| Redirect.ReplaceRunsFields | _worker.js:306 | Collapsing runs keeps the first field and the non-empty later fields. |
| Redirect.ReplaceRunsChars | _worker.js:306 | Every character of the collapsed text is the replacement or a non-separator character of the original. |
| Redirect.SkipSeparators | _worker.js:306-307 | Leading separators add only empty fields. |
| Redirect.IndexIn | _worker.js:309 | `indexOf` returns the first index of the item. |
| Redirect.NonEmptyConcat | _worker.js:309 | Dropping empties distributes over concatenation. |
| Strings.SplitOnJoin | _worker.js:307 | Joining the pieces of a split with the separator gives the text back. |
| Token.CeilDiv | _worker.js:13 | The rounded-up quotient `c` satisfies `(c-1)·b < a <= c·b`. |
| Token.TimeBucketWindow | _worker.js:13 | An instant falls in bucket `b` iff it lies in `((b-1)·31 min, b·31 min]`. The window is closed on the right because the source rounds up. |
| Token.UserAgent | _worker.js:9 | The user agent in the seed is never empty. A missing or empty `User-Agent` header becomes `null`, and any other value is used as is. |
| Token.Seed | _worker.js:13-14 | The seed text; `Token.SeedDistinguishes` states that it tells its three parts apart. |
| Token.SeedDistinguishes | _worker.js:14 | Two seeds that agree on any two of host name, bucket and user agent are equal only if they also agree on the third. |
| Token.Slice | _worker.js:319 | `slice(7, 27)` takes characters 7 to 26 when they exist, and never yields more characters than the text has. |
| Token.DoubleHash | _worker.js:313-322 | The token has no upper-case letter and as many characters as the second digest. |
| Token.DoubleHashDependsOnSlice | _worker.js:313-322 | Only characters 7 to 26 of the first digest matter: two texts whose first digests agree there get the same token. |
| Token.TokensIndependence | _worker.js:13-15 | The temporary token does not depend on `env.TOKEN`. A configured secret is the permanent token whatever the host name, the time and the user agent. |
| Token.TokensStableWithinBucket | _worker.js:13-15 | Two requests to the same host from the same user agent in the same bucket get the same tokens. |
| Token.CheckAcceptance | _worker.js:21-22 | `/check` accepts every request when no secret is configured, and otherwise exactly the requests carrying the secret. |
| Token.ResolveAcceptance | _worker.js:47 | `/resolve` accepts exactly the temporary token of the current bucket, plus the secret when one is configured. |
| Handler.HandleCheck | _worker.js:17-45 | A missing `proxyip` gives 400 `Missing proxyip parameter`. An empty one gives 400 `Invalid proxyip parameter`. Both are refused before the token is read. An unauthorised request then gets 403. A probe report is sent iff the target is non-empty and the token is accepted. Its result is what `checkProxyIP` reports for the lower-cased target and the connection to it: the parsed host and port; on a fault, a failure with the fault's message and no status or size; otherwise the classification and size of the bytes read, with status 0 reported as absent. The report is sent with 200 iff the probe succeeded and 502 otherwise. |
| Handler.HandleResolve | _worker.js:46-78 | A bad token gives 403 before the domain is read. A missing domain gives 400. Otherwise the reply is the resolver's addresses, which are non-empty, or its message, which is prefixed. |
| Handler.HandleRequest | _worker.js:5-80 | The route is chosen on the lower-cased path. `/check` answers with the same 400, 403 and probe-report replies as the route itself, using this request's tokens; it reports a probe iff the target is non-empty and the secret, when configured, is supplied. `/resolve` answers only for the temporary token or the configured secret. |
| Ranges.Preprocess | _worker.js:629-636 | The result is a prefix of the trimmed input and holds no space. It is the whole trimmed input when that has no space, and otherwise the part before the first space. |
| Ranges.QueriesAreQueries | _worker.js:656-659 | Every query is non-empty and has no space. |
| Ranges.QueriesOf | _worker.js:656-659 | The map-and-filter over lines; `Ranges.QueriesOfMembers`, `Ranges.QueriesOfAppend` and `Ranges.RepeatedLinesKept` state its members, its order and that repeats are kept. |
| Ranges.QueriesOfAppend | _worker.js:656-659 | Queries come in line order: the queries of two blocks of lines are those of the first followed by those of the second. |
| Ranges.QueriesOfSingle | _worker.js:656-659 | One line gives its preprocessed form as a query, or nothing when that is blank. |
| Ranges.RepeatedLinesKept | _worker.js:656-659 | Repeated lines are not merged: two copies of a non-blank line give two queries. |
| Ranges.RangeQueries | _worker.js:656-659 | Every query of the text area is non-empty and has no space. |
| Ranges.QueriesOfSound | _worker.js:656-659 | Every query is non-empty and is the preprocessed form of some line. |
| Ranges.QueriesOfComplete | _worker.js:656-659 | Every line that is not blank after preprocessing gives a query. |
| Ranges.QueriesOfMembers | _worker.js:656-659 | A string is a query iff it is non-empty and is the preprocessed form of some line. |
| Ranges.ParseIpRange | _worker.js:592-627 | At most 256 hosts. Input of neither accepted form gives none. |
| Ranges.CidrHosts | _worker.js:595-601 | The `/24` branch pushes 255 hosts. |
| Ranges.RangeHosts | _worker.js:606-625 | The range branch pushes at most 256 hosts. |
| Ranges.CidrExpansion | _worker.js:595-601 | `a.b.c.d/24`, with any surrounding white space and any `d`, expands to what the push loop gives for `a.b.c` from 1 to 255. |
| Ranges.CidrRun | _worker.js:595-601 | `a.b.c.d/24` expands to exactly the 255 hosts `a.b.c.1` … `a.b.c.255`, in that order. |
| Ranges.RangeExpansionIs | _worker.js:606-626 | `a.b.c.S-E` expands to what the push loop gives for `a.b.c` from `S` to `E` when `S <= E <= 255`, and to nothing otherwise. |
| Ranges.OctetRangeExpansion | _worker.js:606-626 | `a.b.c.S-E` expands to the `E-S+1` hosts `a.b.c.S` … `a.b.c.E` in order when `S <= E <= 255`, and to nothing otherwise. |
| Ranges.HostsShape | _worker.js:615-617 | The loop pushes `hi-lo+1` hosts, and the `k`-th has last part `lo+k`. |
| Ranges.HostsDistinct | _worker.js:615-617 | The expansion has no repeated host. |
| Ranges.HostsAscending | _worker.js:599-617 | Reading back the last part of the `k`-th host gives `lo+k`, so the hosts are strictly ascending. |
| Ranges.LastOctetOfHost | _worker.js:609-617 | The last part of the host `a.b.c.n` reads back as `n`. |
| Ranges.HostInjective | _worker.js:617 | Two hosts with the same prefix are equal iff their numbers are. |
| Ranges.HostParts | _worker.js:614-617 | A host splits on `.` into the prefix's three parts and its rendered number. |
| Ranges.QuadSplit | _worker.js:597 | Four digit runs joined by dots split back into those runs. |
| Ranges.RangeFormParts | _worker.js:606-611 | `a.b.c.s-e` is of the range form and not the `/24` form, and splits on `-` and `.` into its parts. |
| Ranges.OctetValue | _worker.js:609-613 | `parseInt` of an octet's digits gives its value. |
| Scan.Expansions | _worker.js:727-728 | One host list per range query: entry `i` is the expansion of query `i`. |
| Scan.ScanHosts | _worker.js:739-759 | The fold over one host list; `Scan.ScanHostsTotals` states its counters and recorded addresses. |
| Scan.ScanAll | _worker.js:727-777 | The fold over all host lists; `Scan.ScanAllTotals` states its counters and recorded addresses. |
| Scan.ScanHostsTotals | _worker.js:739-759 | Probing a host list adds one check per host, whether the probe succeeds, fails or throws. It adds one success per successful probe and records exactly the successful probes' addresses. |
| Scan.ScanAllTotals | _worker.js:727-777 | After all ranges, the checked counter is the total number of hosts. The recorded addresses are exactly the successful probes' ones, in probing order, and the success counter counts them. |
| Scan.FoundBound | _worker.js:739-759 | There are never more successful probes than hosts probed. |
| Scan.BatchesCover | _worker.js:737-738 | The slices `slice(i, i + 10)` are consecutive and cover every host exactly once. Each holds one to ten hosts, and all but the last hold ten. |
| Scan.BatchAt | _worker.js:737-738 | Slice `b` is the hosts from `10·b` up to ten further or the end. |
| Scan.BatchCount | _worker.js:737 | Once `b` slices reach past the end, there are at most `b` slices. |
| Scan.ScanBatch | _worker.js:739-759 | Probing one slice extends the fold by that slice's hosts, in order. |
| Scan.ScanHostList | _worker.js:737-763 | The sliced loop over one range's hosts computes the sequential fold over those hosts. Its `b`-th slice is `Batches(hosts, 0)[b]`, and it runs once per slice. |
| Scan.ScanInput | _worker.js:656-777 | Scanning the text area checks every host of every query's expansion once. It records exactly the successful probes' addresses, and the success counter counts them. |
| Scan.ScanRanges | _worker.js:727-777 | The scan over the expanded ranges skips those with no hosts and probes the rest slice by slice. It ends with one check per host, the successful probes' addresses in probing order, and a success counter that counts them and never exceeds the checked counter. |
| DomainCheck.TestTargetAsWritten | _worker.js:1031 | The probe target as written, for any integer port `parseInt` yields (a negative one included); `DomainCheck.PortDroppedForIpv6` shows that it drops the chosen port of a bracketed answer. |
| DomainCheck.TestTarget | _worker.js:1031 | The corrected probe target; `DomainCheck.TestTargetKeepsPort` shows that the chosen port is read back. |
| DomainCheck.PortDroppedForIpv6 | _worker.js:1031 | As written, for every bracketed IPv6 answer and every chosen integer port, the probe target is the bare address, which the endpoint parser reads as port 443. |
| DomainCheck.PortDroppedExample | _worker.js:1031 | `[2001:db8::1]` with port 8443 is probed on port 443. |
| DomainCheck.TestTargetKeepsPort | _worker.js:1031 | With the corrected rule, the endpoint parser reads back the chosen port for both bare IPv4 and bracketed IPv6 answers. |
| DomainCheck.TestTargetKeepsPortIpv6 | _worker.js:1031 | With the corrected rule, a bracketed IPv6 answer gets the port appended and is read back as that address and port. |
| DomainCheck.TestTargetKeepsPortIpv4 | _worker.js:1031 | An IPv4 answer gets the port appended and is read back as that address and port, for any port other than 0. |
| DomainCheck.RulesAgreeOnIpv4 | _worker.js:1031 | The corrected rule and the rule as written agree on every IPv4 answer and every integer port. |

## Left out

- Sockets, `fetch` and JSON parsing are not modelled: the TCP exchange, the DNS-over-HTTPS requests and the page's `/check` call are inputs. The five-second timer race only ends the chunk sequence.
- Probe.CheckProxyIP: the socket close is assumed to succeed. In the source, `await tcpSocket.close()` sits inside the `try`, so a rejected close would turn a success into the catch's failure result. The socket also stays open when an exception is caught; no result depends on that.
- Probe.CheckProxyIP: `connect(...)` runs before the `try`, so a synchronous throw from it escapes `checkProxyIP` instead of becoming a failure result. The model treats every connection fault as a `Fault` that the `try` catches.
- Handler.HandleCheck: the route has no `try` of its own, so a throw escaping `checkProxyIP` rejects the whole request. The model always sends a probe report.
- The internals of MD5 are not modelled. The digest is a parameter, so the model cannot say that the temporary token changes between buckets: that holds only as far as the digest avoids collisions.
- Scan.ScanInput: covers a run with no single target, or one whose single-target check returns normally. In the source that check runs first inside the same `try` as the range loop, so when it throws (a failed domain resolution, say) control goes to the `catch` and no range is scanned.
- Scan.ScanRanges: takes the host lists `Expansions(queries)` rather than the queries. The page calls `parseIPRange` on each query as the loop reaches it. That function is pure, so both orders give the same lists.
- Dns.ResolveDomain: when both exchanges fail, `Promise.all` rejects with whichever failure comes first. The model reports the A exchange's message.
- The concurrency of `Promise.all` within a batch is not modelled. A success's address is pushed after its IP-information lookup completes, so within a slice the recorded order follows completion order; the model records them in host order. The counters do not depend on the order.
- The 200 ms pause between batches, the toasts, the DOM updates, charts, `localStorage` and the clipboard are UI effects and are not modelled.
- The `/ip-info` route, the favicon and redirect routes, the random choice of redirect target and the HTML pages are outside the modelled routes. `Handler.HandleRequest` answers them with `OtherRoute`.
- The client validators `isValidProxyIPFormat` and `isIPAddress`, the 13-minute client timestamp and the client's `checkAndDisplayDomain` result handling are UI gatekeeping and are not modelled.
- `toLowerCase` is modelled on ASCII letters only. Other scripts' case mappings are not modelled.
- Probe.Decode: `TextDecoder` is modelled per byte. ASCII bytes decode to themselves and any other byte to U+FFFD. Multi-byte UTF-8 sequences are not assembled. The substring tests look only for ASCII patterns, so they are unaffected. The status pattern's `\s` is affected: it also matches non-ASCII white space such as U+00A0, U+2000 to U+200A, U+3000 and U+FEFF, which reach the text only as multi-byte UTF-8. For example, the bytes `HTTP/1.1`, C2 A0, `200` give status 200 in the source and no status in the model.
- Numbers are unbounded integers or NaN. Doubles, `Infinity` and digits beyond 2^53 are not modelled.
- Ranges.ParseIpRange: the regular expressions are modelled by splitting on `/`, `-` and `.`. The model accepts the same strings as the source's anchored patterns, which admit no other characters.
- Endpoint.TpMatch: the greedy `\d+` never backs off in a match, because the following `.` cannot match a digit. The model therefore tests only the full digit run at each index.

## Findings

| source | as written | input that shows it | evidently intended | confidence | as-written member | corrected member |
|---|---|---|---|---|---|---|
| _worker.js:1031 | The port is appended only when the address holds no `:`. `/resolve` returns IPv6 addresses in brackets, which always hold a colon, so they are probed without the chosen port, and the endpoint parser reads a bare `[v6]` as port 443. | Address `[2001:db8::1]` with port 8443 gives target `[2001:db8::1]`, probed on 443. | Append the port unless the address already names one (`]:` or an unbracketed `host:port`). | not executed | DomainCheck.TestTargetAsWritten, shown by DomainCheck.PortDroppedForIpv6 and DomainCheck.PortDroppedExample | DomainCheck.TestTarget, proved by DomainCheck.TestTargetKeepsPort |
