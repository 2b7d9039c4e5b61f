# vless share-links to proxy-client outbounds, in Dafny

This project models the core of a small proxy-subscription tool. The tool reads `vless://` share-links from text
files in a tracked repository. It turns each link into an endpoint descriptor, and each descriptor into an outbound
route of a proxy client's JSON configuration. It then rewrites the configuration's `outbounds` list whenever the
repository's revision changes.

The same pipeline appears twice in the source. `vless_parser.py` has it as standalone functions, and
`vless_monitor.py` has it as methods of `VlessMonitor`. The parser and the builder are identical in both places,
so each is modelled once.

Modules, one file each:

- `Wrappers` (`wrappers.dfy`): `Option`.
- `Text` (`text.dfy`): character search, ASCII lower-casing, decimal numerals, and split/join on a separator.
  Split and join are proved inverse both ways (`JoinSplit`, `SplitJoin`), and reading back a numeral gives its number.
- `Url` (`url.dfy`): the part of Python's `urllib.parse` the parser relies on.
  - `urlsplit`'s scheme, network location and query;
  - the `username`, `hostname` and port text of a network location;
  - `parse_qs` with blank values dropped and the first value winning.

  Its partner is the assembly of a link from its parts. The lemmas prove one direction: splitting an assembled
  link recovers its parts (`SplitUrlAssembled`, `SplitAuthorityAssembled`, `QueryRoundTrip`).
- `VlessParser` (`vless_parser.dfy`): `parse_vless_url`, plus `FormatVlessUrl`, its inverse on well-formed
  descriptors.
- `Outbound` (`outbound.dfy`): `create_vless_outbound`, with Reality and TLS security settings as two
  constructors of one sum type.
- `Reconcile` (`reconcile.dfy`): building the outbound list and replacing `outbounds` in a configuration.
  - The specification function is `Outbounds`, with its order, count, tag and fallback lemmas.
  - The loop that builds the list is `BuildOutbounds`.
  - The configuration update is `UpdateVlessConfig`.
- `Monitor` (`monitor.dfy`):
  - the link scanner of `extract_vless_urls`, written as a specification function and a loop proved against it;
  - the `VlessMonitor` class, with the fields `lastCommit` and `activeKeys` and the tick `CheckAndUpdate`.

Git, the file system and JSON are not modelled as calls. The revision marker, the gathered links and the loaded
configuration are parameters. The document handed to the save is a result, and `None` means no save.

The tool's stated intent differs from its code in a few places. The model follows the code:

- A link with no user part still parses, with an absent id. The stated intent is that a missing id is a parse
  failure.
- A port that is not decimal, is longer than the 4300 digits `int()` accepts, or is above 65535, fails the whole
  parse, because Python raises and the handler returns None. The stated intent is that an invalid port defaults to 443.
- `CheckAndUpdate` records the new revision even when the configuration could not be loaded, and even when the
  save failed. The stated intent is that a failed load or store leaves the revision unchanged, so that the pass
  is retried.
- `UpdateVlessConfig` saves even an empty configuration object. Only the monitor's copy skips an empty one.

## Model

| member | source | states |
|---|---|---|
| VlessParser.StripComment | vless_parser.py:17-18 | the parsed text is the longest prefix of the link without '#', ending just before the first '#' |
| VlessParser.CommentIgnored | vless_parser.py:17-18 | appending '#' and any label, even one containing more '#', does not change the parse |
| VlessParser.ParseVlessUrl | vless_parser.py:11-61 | a successful parse has a port in 1..65535 and an address that is absent or non-empty (the method copy at vless_monitor.py:67-115 is the same code) |
| VlessParser.Descriptor | vless_parser.py:37-58 | the descriptor keeps the id, address and port it is given; security, encryption and type are never empty, because their defaults `tls`, `none` and `tcp` apply when the query gives no non-blank value |
| VlessParser.ParseNeedsVlessScheme | vless_parser.py:21-24 | a successful parse implies that the text before the first ':' is `vless` in some letter case |
| VlessParser.SchemeCaseInsensitive | vless_parser.py:21-24 | any scheme whose lower-case form is `vless` parses exactly as `vless` does |
| VlessParser.EffectivePort | vless_parser.py:31 | a port that is kept lies in 1..65535; port text of more than 4300 digits, leading zeros included, is refused as `int()` refuses it |
| VlessParser.PortHandling | vless_parser.py:31 | port 0 gives 443; a port in 1..65535 is kept; a non-decimal port, one of more than 4300 digits or one above 65535 makes the parse fail |
| VlessParser.ParseAssembled | vless_parser.py:21-58 | a link assembled from user, host, port and query parses to those parts: the id is the user, the address is the lower-cased host (absent if empty), and the port is the effective port |
| VlessParser.PortText | vless_parser.py:31 | a port in 1..65535 written in decimal contains no delimiter, is within the digit limit and is read back as that same port |
| VlessParser.MinimalLinkDefaults | vless_parser.py:34-58 | a link with only id, host and port parses with security `tls`, encryption `none`, type `tcp` and empty flow, fp, pbk, sni and sid |
| VlessParser.EmptyQueryDefaults | vless_parser.py:36-58 | with no query, every parameter takes its default: security `tls`, encryption `none`, type `tcp`, and the rest empty |
| VlessParser.DescriptorOfEncoded | vless_parser.py:36-58 | a query written from a descriptor's eight fields reads back as that descriptor; a blank field reads back as its default |
| VlessParser.LowerHostFixed | vless_parser.py:30 | a host without upper-case letters or '%' is its own hostname |
| VlessParser.FormatRoundTrip | vless_parser.py:11-61 | every well-formed descriptor, including one without id or address, is what the parse of its share-link returns; well-formed query values hold no '+' or '%', so the round trip holds for `parse_qs`'s decoding too |
| Url.SplitUrl | vless_parser.py:21 | a non-empty scheme is the lower-cased text before the first ':', and the network location contains no '/', '?' or '#' |
| Url.SplitUrlAssembled | vless_parser.py:21 | splitting `scheme://netloc?query` recovers the lower-cased scheme, the network location and the query |
| Url.Username | vless_parser.py:27 | a user name exists exactly when the network location holds an '@'; it is a proper prefix of the network location and contains no ':' |
| Url.LowerHost | vless_parser.py:30 | the hostname has the host's length, and each character is kept or is an upper-case letter lower-cased; a host without '%' has no upper-case letter left |
| Url.HostAndPort | vless_parser.py:30-31 | for unbracketed host information the host contains no ':'; with a ':' the information is host, ':' and port text, and without one it is all host and the port text is empty |
| Url.SplitAuthority | vless_parser.py:27-31 | the host and the port text are absent rather than empty |
| Url.SplitAuthorityAssembled | vless_parser.py:27-31 | splitting `user@host:port` recovers the user, the lower-cased host and the port text |
| Url.FieldPair | vless_parser.py:34 | a query field yields at most one pair; a pair has a non-empty value and is the field split at its first '=' |
| Url.PairsOf | vless_parser.py:34 | no pair in the result has a blank value |
| Url.QueryPairs | vless_parser.py:34 | every pair `parse_qs` keeps has a non-blank value and a name without '=' |
| Url.FirstValue | vless_parser.py:37-44 | absent exactly when no pair has the key; otherwise the value of the first pair with that key |
| Url.Param | vless_parser.py:37-44 | a key that no pair carries reads as the default; a value other than the default is non-blank and is carried by a pair with that key; a non-empty default never reads as empty |
| Url.QueryRoundTrip | vless_parser.py:34 | parsing a query written from pairs gives back the pairs, minus those with a blank value |
| Url.FirstValueDropBlankUnique | vless_parser.py:37-44 | a key that occurs once reads its value, or reads nothing if the value is blank |
| Url.FirstValueAbsent | vless_parser.py:37-44 | a key that does not occur reads nothing, so its default applies |
| Url.ParamOfEncoded | vless_parser.py:37-44 | a parameter reads its written value, or its default when the value is blank |
| Url.ParamOfQuery | vless_parser.py:34-44 | on any query written from pairs, a parameter is the first non-blank value written for its key, or the default when there is none |
| Url.FirstNonBlankWins | vless_parser.py:34-44 | a key's first non-blank value is what the parameter reads, whatever values the key gets later |
| Text.DecimalRoundTrip | vless_parser.py:31 | reading back the decimal numeral of n gives n |
| Text.NoLeadingZero | vless_parser.py:138 | the decimal numeral of a positive number does not start with '0' |
| Text.NatToDecimalInjective | vless_parser.py:138 | distinct numbers have distinct numerals |
| Text.JoinSplit | vless_parser.py:34 | joining the pieces of a split on '&' gives back the query |
| Text.SplitJoin | vless_parser.py:34 | splitting the join of pieces without '&' gives back the pieces |
| Outbound.CreateVlessOutbound | vless_parser.py:63-121 | tag and protocol `vless`; one server with the address and port, and one user with the id and flow; network = type; Reality settings exactly when security is `reality`. Reality: serverName is sni or `www.microsoft.com`, dest is serverName + `:443`, publicKey = pbk, shortId = sid, show false, xver 0, spiderX `/`. TLS: the security label is kept, serverName is sni or else the address, allowInsecure false (the method copy at vless_monitor.py:117-173 is the same code) |
| Reconcile.Tag | vless_parser.py:138 | a tag is `vless-` followed by a decimal numeral, without a leading zero, that reads back as the position plus one |
| Reconcile.TagInjective | vless_parser.py:138 | tags `vless-(i+1)` of different indices differ |
| Reconcile.ParseAll | vless_parser.py:135-136 | one parse result per input link |
| Reconcile.ParseAllAt | vless_parser.py:135-136 | the i-th parse result is the parse of the i-th input link |
| Reconcile.OriginsPositions | vless_parser.py:135-137 | the positions of the parseable links are in range, strictly increasing, and include every link that parses |
| Reconcile.OriginsCount | vless_parser.py:135-137 | there are as many such positions as links that parse |
| Reconcile.ProxyRoutesFromOrigins | vless_parser.py:135-140 | the k-th route is built from the k-th parseable link, with the tag of that link's input index |
| Reconcile.Outbounds | vless_parser.py:133-158 | the outbound list is never empty and ends with the direct route, whether or not there are links |
| Reconcile.OutboundsFromOrigins | vless_parser.py:133-161 | the outbound list is one route per parseable link, in input order and tagged by input index, followed by the direct route |
| Reconcile.ProxyRoutesCount | vless_parser.py:135-140 | there are as many routes as parseable links |
| Reconcile.OutboundsCount | vless_parser.py:133-158 | the length of the list is the number of parseable links plus one |
| Reconcile.DirectLastAndOnly | vless_parser.py:143-158 | the last entry is the direct `freedom` route, and every other entry is a `vless` route |
| Reconcile.TagsDistinct | vless_parser.py:138 | all tags in the outbound list are distinct |
| Reconcile.NoProxyRoutesIffNoneParse | vless_parser.py:135-140 | there are no proxy routes exactly when no link parses |
| Reconcile.OnlyDirectIffNoneParse | vless_parser.py:143-158 | the list is exactly `[direct]` exactly when no link parses, which includes the empty input |
| Reconcile.RouteAt | vless_parser.py:136-140 | the i-th link contributes one route, tagged `vless-(i+1)`, when it parses, and nothing otherwise |
| Reconcile.BuildProxyRoutes | vless_parser.py:133-141 | the loop with its appends builds exactly the specified proxy routes, in input order |
| Reconcile.BuildOutbounds | vless_parser.py:133-158 | the proxy routes followed by the fallback route are exactly the specified outbound list |
| Reconcile.WithOutbounds | vless_parser.py:161 | the new configuration has the old keys plus `outbounds`, holds the new list there, and leaves every other key unchanged |
| Reconcile.ReconcileOverwrites | vless_parser.py:161 | a second reconciliation replaces the first, so repeating a pass on the same links changes nothing |
| Reconcile.UpdateVlessConfig | vless_parser.py:123-170 | a save happens exactly when the load succeeded, and it saves the loaded configuration with `outbounds` replaced |
| Monitor.AsciiSpaces | vless_monitor.py:58 | `IsSpace`, the whitespace of `\s` (the characters for which `str.isspace()` holds), includes space, tab, newline, carriage return, form feed and vertical tab, and no printable ASCII character |
| Monitor.RunEnd | vless_monitor.py:58 | the run of non-space characters from a position ends at the first whitespace character or at the end of the text |
| Monitor.Spans | vless_monitor.py:58-59 | every match lies within the text, starting at or after the scan position |
| Monitor.SpansMatch | vless_monitor.py:58-59 | each match starts with `vless://` followed by a non-space character, and extends to the end of its non-space run |
| Monitor.SpansOrdered | vless_monitor.py:59 | the matches are in order of appearance and do not overlap |
| Monitor.SpansComplete | vless_monitor.py:59 | every position where the pattern matches lies inside some match |
| Monitor.SpanShaped | vless_monitor.py:58 | a match's text starts with `vless://`, has a character after it, and contains no whitespace |
| Monitor.SpanTextsShaped | vless_monitor.py:58-60 | every extracted link has that shape |
| Monitor.FoundUrls | vless_monitor.py:58-60 | every link `re.findall` returns starts with `vless://`, has a character after it, and contains no whitespace |
| Monitor.FoundFrom | vless_monitor.py:59 | one scan step: a match contributes its text and the scan resumes at its end; otherwise the scan advances one character |
| Monitor.ScanRun | vless_monitor.py:58 | the inner loop stops exactly where the run of non-space characters ends |
| Monitor.ExtractVlessUrls | vless_monitor.py:50-65 | the loop returns exactly the specified matches, each starting with `vless://` and free of whitespace |
| Monitor.VlessMonitor.constructor | vless_monitor.py:17-21 | initially there is no last revision and no active links |
| Monitor.VlessMonitor.UpdateConfigWithKeys | vless_monitor.py:205-247 | an empty configuration, including a failed load, saves nothing; otherwise the save holds the configuration with `outbounds` replaced |
| Monitor.VlessMonitor.CheckAndUpdate | vless_monitor.py:249-271 | no revision (None or "") or an unchanged one leaves the state alone and saves nothing; a new revision is recorded with the set of gathered links, and the configuration is updated as above even when the load failed |
| Monitor.RepeatedCommitSavesOnce | vless_monitor.py:257-271 | a fresh monitor runs a pass on the first revision it sees, and a second tick on the same revision saves nothing |

## Left out

- Git, the file glob, file reads, `load_config`, `save_config` and JSON encoding are left out. They are I/O: the revision, the gathered links and the loaded configuration are parameters, and the saved document is a result.
- A save that fails is not modelled. The save is an output, and the state change after it is the same whether or not writing succeeded.
- `get_all_active_keys` is left out because it reads files. Its result is the `activeUrls` parameter.
- `start_monitoring` and both `main` functions are left out. They are a timed loop, a signal handler and hard-coded paths. The model covers single ticks.
- Console logging is left out.
- Percent-decoding and '+' as a space in `parse_qs` are not modelled. Query values are taken as written. `WellFormed` excludes '+' and '%' from query values, so `FormatRoundTrip` holds for the decoding program as well. The user name needs no such line: `username` does not unquote, and `Username` keeps it as written.
- The validation `urlsplit` applies to bracketed hosts is not modelled. As `urlsplit` does, the model checks only that '[' and ']' are both present or both absent in the network location; it does not count them.
- `urlsplit` strips leading C0 control characters and spaces, and removes tabs, carriage returns and newlines anywhere. Neither is modelled. For links the scanner finds this changes nothing: they start with `vless://` and contain no whitespace. It matters only for arbitrary strings handed to `update_vless_config`.
- The Unicode normalisation check on the network location is not modelled.
- Unicode `lower()` on the host is not modelled. Only ASCII letters are lower-cased. For the scheme this is exact, because `urlsplit` lower-cases a scheme only when all its characters are ASCII letters, digits, `+`, `-` or `.`.
- Older Python versions read the port with plain `int()`, which also accepts surrounding spaces, non-ASCII digits, a leading `+`, `_` between digits and `-0`. The model follows current `urllib`, which requires ASCII digits and then applies `int()`'s 4300-digit limit.
- A loaded JSON document that is not an object is not modelled, because `Config` is always an object. In `update_vless_config` every such document makes the `outbounds` assignment raise, which is caught, so nothing is saved: the model's `None`. In `update_config_with_keys` it depends on Python truth:
  - A false one (`null`, `[]`, `0`, `false`, `""`) takes the early return for an empty configuration. The revision is then recorded, which is what the model does for an empty `map[]`.
  - A true one (a non-empty list, a non-zero number, a non-empty string) makes the assignment raise out of `check_and_update`. `start_monitoring` catches only `KeyboardInterrupt`, so the exception ends the whole monitor, not just one tick.
- The key order of the saved JSON object is not modelled: `Config` is a map. `json.dump` writes keys in insertion order, and the assignment to `outbounds` keeps an existing key in its place or adds it last. JSON gives key order no meaning.
- Concrete parses of the sample links are not modelled. Their properties are covered by `CommentIgnored`, `ParseAssembled` and `FormatRoundTrip` for all inputs.
