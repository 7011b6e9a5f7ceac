# Edge reverse proxy — a verified model of its request-decision core

`worker.js` is a single-file edge worker. It acts as a reverse proxy reached
at `/{user}/{target}`, with an admin console at `/admin`. The worker:

- checks that the user exists and is enabled;
- repairs the target into an absolute URL;
- gates the target's origin against an optional allow-list;
- sends the request upstream with the client's address headers removed;
- handles the upstream's redirects itself. It hands a redirect back to the
  client when the redirect's host ends with a configured suffix, refuses it
  when its origin is not allowed, and otherwise follows it;
- keeps its state in a small SQL database: users, the allow-list, config
  rows, per-(user, origin) last-seen counters, a request log capped at 2000
  rows and a city cache;
- protects the admin console with an HMAC-signed session cookie.

This project models that core in Dafny and proves what the code promises.

Modules (one per concern of the worker):

| Module | File | Models |
|---|---|---|
| `Wrappers` | `wrappers.dfy` | `Option` |
| `Text` | `text.dfy` | JavaScript string primitives: `trim`, `split`/`join`, ASCII lower-casing, decimal numerals |
| `Urls` | `urls.dfy` | `parseUpstreamUrl`, `canonicalOrigin`, `normalizeOrigin`; the WHATWG URL parser is a parameter |
| `Gate` | `gate.dfy` | Routing of `fetch` and the proxy entry's checks, in the worker's order |
| `Headers` | `headers.dfy` | The Fetch `Headers` object as a class over a map keyed by lower-cased name; request and response sanitisation |
| `Redirect` | `redirect.dfy` | The redirect branch, including every failure that falls back to forwarding; log rows per outcome |
| `Session` | `session.dfy` | `b64u`, `timingSafeEqual`, the `adm` cookie regex, `Number()` on the expiry, `makeAdminCookie`, `isAdmin`; HMAC is a parameter |
| `Lists` | `lists.dfy` | `splitList`, `dedupe`, `shorten`, `escapeHtml` |
| `Store` | `store.dfy` | The tables as a class whose methods perform the worker's SQL statement sequences |
| `Admin` | `admin.dfy` | Per-isolate state: one-time seeding, the periodic cleanup, the suffix-list cache, the admin POST actions and their session gate |

Foreign calls are parameters:

- the URL parser is `string -> Option<Url>`;
- `new URL(location, base)` is `(string, Url) -> Option<Url>`;
- HMAC-SHA256 is `(string, string) -> seq<byte>`.

The clock, the 16 random nonce bytes, the client's details and the city are
inputs. Stored times are whole seconds. The worker itself stores local-time
strings of one fixed format; those order the same way.

## Model

| member | source | states |
|---|---|---|
| Urls.RepairTarget | worker.js:1182-1185 | The string handed to the URL parser always begins with `http://` or `https://` |
| Urls.RepairColonForm | worker.js:1183 | `http:/h` and `https:/h` (leading `/` or not) become `scheme://h` |
| Urls.RepairBareForm | worker.js:1184 | `http/h` and `https/h` (leading `/` or not) become `scheme://h` |
| Urls.RepairKeepsAbsolute | worker.js:1182-1185 | A target already carrying `http://` or `https://` is unchanged, apart from a dropped leading `/` |
| Urls.RepairDefaultsToHttps | worker.js:1185 | A target not starting with `http` gets `https://` in front |
| Urls.ParseUpstreamUrl | worker.js:1181-1189 | Fails exactly when the parser rejects the repaired string; otherwise keeps the parsed scheme, host, port and path, and its query is the request's own search |
| Urls.EmbeddedQueryDiscarded | worker.js:1187 | Whatever query the parsed target carries, the result is the parsed URL with the request's own query |
| Urls.CanonicalOriginDecodes | worker.js:1199-1207 | The key `proto//host[:port]` decodes back to the lower-cased scheme, the bracketed lower-cased host and the non-default port |
| Urls.CanonicalOriginIdentifiesOrigin | worker.js:1199-1207 | Two URLs get the same key iff they agree on lower-cased scheme, host and effective port |
| Urls.DefaultPortFolds | worker.js:1203-1205 | Port 443 for https and 80 for http give the same key as no port; any other port appears as `:port` |
| Urls.CanonicalOriginShape | worker.js:1200-1202 | The key starts with the lower-cased scheme and `//`; an unbracketed host containing `:` is wrapped in `[...]` |
| Urls.NormalizeBlank | worker.js:1192-1193 | Admin input gives no key iff it is empty or all white space |
| Urls.NormalizeOrigin | worker.js:1191-1193 | No key (`null`) is produced exactly when the trimmed input is empty |
| Urls.NormalizeBareHost | worker.js:1191-1196 | A padded bare host is keyed as if written with `https://` |
| Urls.NormalizeAgreesWithGate | worker.js:1191-1197 | A trimmed URL with an http(s) scheme gets the very key the gate computes for it |
| Gate.RouteOf | worker.js:52-80 | OPTIONS is answered first; only a non-root, non-admin path with the database bound reaches the proxy entry |
| Gate.Decide | worker.js:83-136 | A refusal is a deny with status 400 or 403 logged under the path's user; an admission names an enabled user and a key the policy permits |
| Gate.NonEmpty | worker.js:83 | `filter(Boolean)`: no empty segment survives and the result is no longer than the input |
| Gate.NonEmptyMembers | worker.js:83 | `filter(Boolean)` keeps exactly the non-empty items: none dropped, none added |
| Gate.PathCheckedFirst | worker.js:83-84 | The request is malformed (400) iff the path has fewer than two non-empty segments |
| Gate.UserCheckedBeforeTarget | worker.js:89-102 | An absent or disabled user is refused with 403, whatever the allow-list and the target are |
| Gate.TargetGate | worker.js:104-136 | An unparsable target gives 400; a parsed one is refused iff the allow-list is enabled and lacks its key, and that refusal is 403 `NotWhitelisted` logged with the key and the target's path; otherwise the parsed target is admitted with its key |
| Gate.NotWhitelistedMeansUnpermitted | worker.js:122-134 | An allow-list refusal is a 403 under an enforced list that does not permit the logged key |
| Gate.AdmittedMeansPermitted | worker.js:83-136 | An admitted request names an enabled user, the parsed target with the request's search, its canonical key, and an origin the policy permits |
| Gate.EntryLinkReachesTarget | worker.js:83-87 | A link `/{user}/{scheme}://{rest}` splits into that user and a rest path that repairs back to `{scheme}://{rest}` |
| Headers.GetIgnoresCase | worker.js:184 | Two names equal up to ASCII case read the same entry |
| Headers.HeaderMap.Set | worker.js:170 | Stores the value under the lower-cased name; every spelling of that name then reads the value, every other name reads what it did |
| Headers.HeaderMap.Delete | worker.js:171 | Removes exactly the lower-cased name; every spelling of it then reads nothing, every other name reads what it did |
| Headers.HeaderMap.StripClientIp | worker.js:1209-1216 | The six deletes remove exactly the four client-address headers |
| Headers.HeaderMap.PrepareUpstream | worker.js:169-172 | The new map is the client's headers with Host set and Referer and client addresses removed |
| Headers.HeaderMap.PrepareFollow | worker.js:222-224 | The followed request's headers: Host replaced and client addresses removed |
| Headers.HeaderMap.StripSecurity | worker.js:1281-1286 | Removes exactly Content-Security-Policy and X-Frame-Options |
| Headers.HeaderMap.PreparePassthrough | worker.js:191-193 | Location set to the serialised resolved redirect URL, then the framing headers removed (`cleanHeaders`, 1288-1293) |
| Headers.UpstreamSanitises | worker.js:169-172 | The upstream request carries Host = target host, no Referer, no client-address header, and every other client header unchanged |
| Headers.FollowIsUpstreamForNewHost | worker.js:222-224 | Following sends the same headers as a direct request to the redirect's host |
| Headers.StrippedExactly | worker.js:1281-1293 | Response stripping removes exactly the two framing headers, keeps all others, and is idempotent |
| Headers.PassthroughKeepsLocation | worker.js:190-193 | A passthrough keeps the rewritten Location and the upstream's other non-framing headers |
| Redirect.WebSocketAnyCase | worker.js:139-140 | A request is an upgrade iff its Upgrade header is present and equals `websocket` ignoring ASCII case |
| Redirect.BodylessMethods | worker.js:166-167 | A request is sent without a body iff its method equals GET or HEAD ignoring ASCII case |
| Redirect.RedirectBranchOnlyFor3xx | worker.js:185 | The redirect branch is entered iff the status is 300-399 and Location is non-empty |
| Redirect.Resolve | worker.js:185-258 | The answer is forwarded untouched iff it is not a redirect; a refusal needs both lists read; a followed target is permitted by the allow-list and its fetch succeeded |
| Redirect.FollowedTargetPermitted | worker.js:186-243 | A redirect is followed only to a resolved target that matches no suffix, whose origin the allow-list permits, and whose fetch succeeded |
| Redirect.PassthroughBeforeAllowList | worker.js:187-205 | A suffix match hands back the serialised resolved Location whatever the allow-list says |
| Redirect.DeniedExactly | worker.js:207-219 | The redirect is refused (403) iff no suffix matches and the allow-list rejects its origin |
| Redirect.RawForwardOnFailure | worker.js:245-258 | The raw upstream answer is returned iff resolving, reading the suffix list, reading the allow-list or the followed fetch fails |
| Redirect.SuffixWithoutBoundary | worker.js:190 | Suffix matching has no dot boundary: with the default list `evil115.com` is handed back like `cdn.115.com` |
| Redirect.LogOf | worker.js:194-256 | Every outcome is logged under the user, origin key and upstream path; only a refused redirect is a deny, with 403 |
| Session.B64u | worker.js:899-903 | The loop builds the binary string of the bytes; the result is the URL-safe, unpadded base64 of the bytes |
| Session.B64uAlphabet | worker.js:899-903 | The output uses only `A-Z a-z 0-9 - _`, never `.`, `;` or `=`, and has length `(4n+2)/3` |
| Session.B64uRoundTrip | worker.js:899-903 | Decoding the output gives back the bytes |
| Session.B64uInjective | worker.js:899-903 | Distinct byte strings give distinct outputs |
| Session.XorZero | worker.js:883-884 | The XOR of two character codes is zero iff they are equal |
| Session.TimingSafeEqual | worker.js:880-885 | True iff the strings are equal; false whenever the lengths differ |
| Session.AdmCookieFirst | worker.js:864 | A header opening with `adm=v` yields `v`, up to the first `;` |
| Session.AdmCookieSecond | worker.js:864 | `adm=v` after another cookie, a `;` and spaces yields `v` |
| Session.NoMatchBefore | worker.js:864 | No match can start inside the first cookie unless it is `adm` itself |
| Session.AdmCookie | worker.js:864 | A matched value is non-empty and holds no `;` |
| Session.JsNumberOfIntToString | worker.js:871 | `Number()` of a rendered integer gives the integer back |
| Session.TokenFields | worker.js:853-858 | A minted token is non-empty, holds no `;` and splits on `.` into expiry, nonce and signature |
| Session.AdminCookieCarriesToken | worker.js:853-860 | Reading the `adm` cookie out of the minted Set-Cookie value gives the token; the nonce is 22 characters |
| Session.MaxAgeIsLifetime | worker.js:853-860 | The cookie's Max-Age, read back as a number, is the token's expiry minus its minting time: 43200 seconds |
| Session.IsAdmin | worker.js:862-878 | The method answers exactly the session verdict |
| Session.Verdict | worker.js:862-878 | A session is accepted only for an `adm` cookie whose value splits on `.` into exactly three fields |
| Session.MintedTokenAcceptedUntilExpiry | worker.js:853-878 | A minted token, checked with the same secret, is accepted iff now in seconds is at most mint time + 43200 |
| Session.AcceptedIsSigned | worker.js:862-878 | An accepted cookie has three fields, a finite, unexpired expiry and a matching signature |
| Session.MalformedRejected | worker.js:864-869 | A missing cookie, or a value not made of exactly three `.` fields, is refused |
| Session.ExpiredRejected | worker.js:871-872 | A non-numeric or past expiry is refused |
| Lists.SplitListItems | worker.js:1218-1223 | Every item is non-empty, trimmed and free of `\n , ;` |
| Lists.SplitListOfLines | worker.js:1218-1223 | Splitting the newline-joined items gives back those items |
| Lists.Dedupe | worker.js:1231-1242 | The loop with its `seen` set computes the first-occurrence dedupe of the list |
| Lists.DedupeSpec | worker.js:1231-1242 | The result has no duplicates, holds exactly the non-empty items of the input, and keeps them in the order of their first occurrences |
| Lists.SliceTo | worker.js:1268 | `slice(0, end)` returns a prefix, counting a negative end from the back |
| Lists.Shorten | worker.js:1266-1269 | For a positive limit the result is at most that long; a string within the limit is unchanged |
| Lists.ShortenBound | worker.js:1266-1269 | For `n >= 1` the result has at most `n` characters; short strings are unchanged, long ones become `n-1` characters plus an ellipsis |
| Lists.EscapeHtmlRoundTrip | worker.js:1303-1305 | Unescaping the five entities gives back the original text |
| Lists.EscapeHtmlSafe | worker.js:1303-1305 | The escaped text holds no `<`, `>`, `"` or `'` |
| Lists.EscapeHtml | worker.js:1303-1305 | Escaping never shortens the text |
| Store.Filter | worker.js:1261 | A row-deleting statement keeps exactly the rows that pass, in order, with ids still increasing |
| Store.IncreasingWithinWindow | worker.js:1147-1148 | Strictly increasing ids inside a window of width `w` number at most `w` |
| Store.PolicyOf | worker.js:1040-1043 | The stored flag and table permit a key iff the allow-list is off (no stored "1") or the key is listed |
| Store.EnabledOf | worker.js:1075-1079 | The gate sees a user as enabled iff the user row exists with its flag set |
| Store.Store.EnsureSeeded | worker.js:985-999 | Missing config rows get the default suffix list and "off"; `ikun` is inserted unless present |
| Store.Store.SetWhitelistEnabled | worker.js:1045-1050 | Only the flag row changes |
| Store.Store.SetManualDomains | worker.js:1034-1039 | Only the suffix-list row changes |
| Store.Store.UpsertUser | worker.js:1053-1060 | Insert enabled, or update only the note and update time |
| Store.Store.ToggleUser | worker.js:1062-1068 | Flips the flag of a present user; an absent user changes nothing |
| Store.Store.DeleteUser | worker.js:1070-1073 | Removes the user and every last-seen row of that user; logs stay |
| Store.Store.AddWhitelist | worker.js:1086-1089 | Insert-or-ignore: an existing entry keeps its creation time |
| Store.Store.DeleteWhitelist | worker.js:1091-1093 | Removes exactly that origin |
| Store.Store.LookupAgreesWithPolicy | worker.js:1100-1103 | With the gate's test `enabled && !isWhitelisted(key)`, the table lookup refuses exactly the keys the stored policy does not permit |
| Store.Store.TouchLastSeen | worker.js:1105-1118 | The last-seen table becomes the counter upsert; nothing else changes |
| Store.Store.WriteLog | worker.js:1131-1151 | Appends under the next id, then prunes ids at most the new id minus 2000; the invariant (increasing ids, at most 2000 rows) is kept |
| Store.Store.CleanupOldData | worker.js:1258-1264 | The tables become the seven-day cleanup of the old tables |
| Store.TouchCounts | worker.js:1105-1118 | A new pair starts at count 1, an existing pair's count grows by exactly 1, and every other row is untouched |
| Store.PrunedKeepsNewest | worker.js:1141-1149 | After pruning at most 2000 rows remain: exactly those with an id above the new id minus 2000, the new row among them |
| Store.LoggedRowIsNewest | worker.js:1131-1151 | After a log write the new row is last, at most 2000 rows remain, and only rows 2000 or more ids older are gone |
| Store.CleanupExactly | worker.js:1258-1264 | All three tables keep exactly the rows stamped at or after one instant: seven days before now, in whole seconds |
| Store.CleanupIdempotent | worker.js:1258-1264 | A second cleanup at the same instant removes nothing more |
| Store.SeedingFillsGaps | worker.js:985-999 | Seeding twice is seeding once; afterwards `ikun` and both config rows exist, and a stored `ikun` keeps its row |
| Store.UpsertKeepsFlag | worker.js:1053-1060 | An upsert sets the note; an existing user keeps its flag and creation time, a new user starts enabled |
| Store.ToggleTwice | worker.js:1062-1068 | Toggling twice restores the flag; toggling an absent user changes nothing |
| Store.ToggleFlipsAdmission | worker.js:1062-1068 | After a toggle the gate admits the user iff it did not before |
| Store.DeletedUserRefused | worker.js:1070-1073 | After deletion, every proxy request under that user's path is refused with 403 |
| Store.AllowListEditsReachGate | worker.js:1086-1093 | An added origin passes the gate; a deleted one fails it while the list is enforced |
| Admin.CleanDomains | worker.js:357-360 | The stored suffixes are non-empty, and there are no more of them than input items |
| Admin.CleanDomainsTrimmed | worker.js:357-360 | Every stored suffix is trimmed and is the cleaned form of some input item |
| Admin.CleanDomain | worker.js:357-360 | A cleaned suffix is trimmed |
| Admin.CleanDomainStripsPrefixes | worker.js:357-360 | A domain behind `http://` or `https://` and `www.`, in any case, is stored bare |
| Admin.NormalizeAllSpec | worker.js:386 | The batch fails iff some item is unparsable, and otherwise holds exactly the items' keys |
| Admin.NormalizeAll | worker.js:386 | A successful batch holds no more keys than items |
| Admin.AddedAllSpec | worker.js:387 | After the insert loop every item is listed and earlier entries keep their creation time |
| Admin.AddedOriginsPermitted | worker.js:383-389 | After a successful `add_wl` every origin typed in passes the gate, and every origin allowed before still does |
| Admin.StoredDomains | worker.js:1021-1031 | The suffix list read from the store never holds an empty suffix |
| Admin.EmptySuffixMatchesAll | worker.js:190 | An empty suffix would match every host |
| Admin.NewUserName | worker.js:367-369 | `add_user` creates the trimmed name, or `ikun` when it is blank |
| Admin.Acted | worker.js:343-396 | An action can fail only as `add_wl` or `del_wl` under an enforced allow-list; no action touches the log, its id counter or the city cache |
| Admin.LoggedOutRejected | worker.js:329-337 | The cleared cookie sent back as `adm=` is refused |
| Admin.Service.EnsureDb | worker.js:907-999 | On the first request of an isolate the tables are seeded, then cleaned; later requests change nothing |
| Admin.Service.MaybeCleanup | worker.js:63-67 | Cleanup runs iff more than 30 minutes passed since the last one, and then records the time |
| Admin.Service.Admit | worker.js:83-136 | The outcome is the gate's decision on the current tables; a refusal is logged, an admission counted, a malformed path leaves no trace; an admitted key is in the table unless the list is off, and an allow-list refusal's key is absent from the enforced table |
| Admin.Service.Record | worker.js:1131-1151 | The response's log row is written with the log's prune |
| Admin.Service.ManualDomains | worker.js:1018-1032 | The cache is served while under a minute old; otherwise the stored list is read and cached; no suffix is ever empty |
| Admin.Service.SetWhitelistEnabledAction | worker.js:344-347 | Only the value "1" turns the allow-list on |
| Admin.Service.SetManualDomainsAction | worker.js:361-363 | The list the handler cleaned is stored and cached at once, with the current time; nothing else changes |
| Admin.Service.AddUserAction | worker.js:366-371 | Upserts the trimmed (or default) name with the trimmed note |
| Admin.Service.ToggleUserAction | worker.js:373-376 | A blank name does nothing; otherwise the trimmed name is toggled |
| Admin.Service.DeleteUserAction | worker.js:378-381 | A blank name does nothing; otherwise the trimmed name is deleted |
| Admin.Service.AddWhitelistAction | worker.js:383-389 | Ignored while the list is off; one unparsable item fails the action before any insert; otherwise every key is inserted |
| Admin.Service.DeleteWhitelistAction | worker.js:391-396 | Ignored while the list is off; an unparsable field fails; a key is deleted |
| Admin.Service.Perform | worker.js:342-396 | For every action except `set_manual_domains`, which HandlePost runs itself, the dispatch on `action` leaves the tables as `Acted` says, and reports failure exactly when `Acted` has no result |
| Admin.Service.HandlePost | worker.js:313-401 | Without a configured password: 500 and nothing changes. Login and logout need no session. Any other action needs a valid session cookie, else 401 and nothing changes; behind one, the tables become `Acted` of the old tables with a 303 and no cookie, or stay unchanged with a 500 when the action throws. Only an authorized `set_manual_domains` refills the suffix cache |

## Left out

- HTML rendering of the root page, login page and admin page, and the embedded browser script: presentation only.
- The WHATWG URL parser, `new URL(location, base)`, HMAC-SHA256 and `crypto.getRandomValues`: these are parameters or inputs. `btoa` is modelled concretely.
- D1 SQL text, schema creation and the column migrations of `ensureDb`: the tables are maps and sequences. Statement failures that `writeLog` and `cleanupOldData` swallow are not modelled; their statements always succeed.
- The upstream `fetch` calls and the WebSocket passthrough body: network I/O. The log row of the WebSocket branch is written through `Admin.Service.Record`.
- The geo lookup and the `proxy_ipgeo` cache writes (`getCity`, `getCityForIp`): network I/O. The city is an input; only the cache's expiry in cleanup is modelled.
- `cors` and `Response` construction, `text`, `html`: response framing only.
- `ctx.waitUntil` scheduling and the `DB_INIT` promise: the model runs these steps in order. `DB_INIT` is a boolean set on the first request.
- Timezone formatting (`nowLocal`, `tsFromMs`): times are integer seconds.
- Base domains (`set_base_domains`, `safeBase`, `getBaseDomains`, `setBaseDomains`): they only feed the admin page's display.
- Listing queries (`listUsers`, `listWhitelist`, `listLastSeen`, `listLogs`, `getSummary`): they are read-only displays.
- The stored suffix list is always a list. The worker's fallback to the default list when the stored JSON is not an array is not modelled.
- Session.JsNumber: decimal integers only. Exponent, hexadecimal, octal, binary and fractional numerals count as non-numeric. Double rounding and overflow to Infinity are not modelled. Tokens minted by the worker only ever hold decimal integers.
- Text.Lower: ASCII lower-casing only. In the WebSocket check JavaScript's `toLowerCase` also folds some non-ASCII letters to ASCII ones (the Kelvin sign to `k`), so such a spelling of `websocket` is an upgrade for the worker and not for the model. The key of `canonicalOrigin` lower-cases the parser's scheme and host, which the URL parser already gives in ASCII lower case for http(s). The `/i` regular expressions need no more: without the `u` flag they never fold a non-ASCII character to an ASCII one.
- Redirect.SendsBody: ASCII upper-casing only; JavaScript's `toUpperCase` also maps non-ASCII letters.
- Lists.Shorten: lengths and slices count Unicode scalar values, while JavaScript counts UTF-16 code units. For text with characters outside the Basic Multilingual Plane the cut falls elsewhere, and the worker may split a surrogate pair. Strings holding lone surrogates cannot be represented.
- Session.TimingSafeEqual: compares characters where the worker compares UTF-16 code units; the strings it compares are base64url text, where the two coincide.
- Lists.SliceTo: counts Unicode scalar values, not UTF-16 code units, for the same reason.
- Headers.HeaderMap.PreparePassthrough: a `Url` carries no username, password or fragment, so the Location handed back (`Href`) drops the `user:pass@` and `#fragment` that `redirectUrl.toString()` keeps; `https://cdn.115.com/a#p` is handed back as `https://cdn.115.com/a`.
- Redirect.Resolve: for the same reason the `Passthrough` and `Followed` targets it resolves have no credentials or fragment.
- Admin.Service.HandlePost: a failing D1 statement inside an admin action is not modelled. The worker then answers 500 with the error text (worker.js:397-398), and `add_wl` keeps the rows it inserted before the failure (worker.js:387).
- Admin.Service.Admit: a failing read of the user row or of the allow-list escapes `fetch` unhandled in the worker; the model's reads always succeed.
- Store.PolicyOf: a failure to read the allow-list at the proxy entry escapes `fetch` unhandled in the worker; the model always reads it.
- Headers.StrippedExactly: follows the code, which removes only Content-Security-Policy and X-Frame-Options from responses; Strict-Transport-Security and other policy headers pass through.
- Store.Store.EnsureSeeded: follows the code, so a deleted `ikun` is re-created enabled the next time an isolate starts.
