# Web Request TLS Monitor — client-side logic in Dafny

This project models the client-side logic of the "Web Request TLS Monitor and
Recryptor" frontend and proves properties about it:

- the activity-entropy pool and nonce generation of `encryption.ts`, with the
  base64 helpers built on `btoa`/`atob`;
- the inactivity state machine of `useUserLiveliness`, which feeds the pool;
- the countdown text and the badge choice of the liveliness indicator;
- the browser classification from the user-agent string;
- the sixteen change handlers of the filter panel, with Apply and Clear;
- the pending/processed split and the status labels of the decryption-request dialog;
- the "new items" counters and the no-actor guards of the query hooks;
- the classification helpers and view selection of the dashboard page and the
  request-details dialog.

Modules, one per source file, plus four helper modules:

- `Wrappers` holds `Option` and `Result`.
- `JsText` models the JavaScript string operations the code uses:
  - `trim`, ASCII `toLowerCase`, `includes` and `slice`;
  - `BigInt(string)` and integer-to-decimal text.
- `Base64` models `btoa`/`atob`:
  - the alphabet of section 4 of RFC 4648 over Latin-1 strings;
  - the forgiving decoder of the HTML standard: ASCII whitespace is removed, up to two `=` are stripped, and `InvalidCharacterError` is returned otherwise.
- `BackendTypes` holds the records the backend sends: `RequestData`,
  `DecryptionRequest`, and the filter record as a map from field to value.

State that the source changes in place is modelled imperatively:

- The module-level timestamp array is the `seq` field of the class `Encryption.ActivityEntropyPool`.
- `generateNonce` fills two arrays in loops.
- `base64ToArray` fills its output in a loop.
- The liveliness hook is the class `UserLiveliness.LivelinessMonitor`. Timer ticks and activity events are explicit calls with `now` as a parameter.
- Each `previousCountRef` is a `Queries.NewItemsTracker`.

The UI files that only compute values are modelled as functions and lemmas.

In the nonce, the code indexes `entropySource[i % entropySource.length]`, and `entropySource` always has length 12, so no sample is reused. Positions at or past the number of stored samples keep the random byte. Bytes 10 and 11 are therefore always the random bytes.

## Model

| member | source | states |
|---|---|---|
| Encryption.RecentWindow | frontend/src/lib/encryption.ts:16-17 | The pool of a history of n recordings holds min(n, 10) timestamps. |
| Encryption.RecentWindowSuffix | frontend/src/lib/encryption.ts:24-27 | Those are the last recorded timestamps in recording order, the newest last. |
| Encryption.RecordedWindow | frontend/src/lib/encryption.ts:23-28 | One push and at most one shift turn the window of a history into the window of the history extended by the new timestamp. |
| Encryption.RecordAllWindow | frontend/src/lib/encryption.ts:23-28 | After any run of recordings the pool is the last (at most 10) timestamps of the whole history. |
| Encryption.RecordedNewestLast | frontend/src/lib/encryption.ts:24-27 | After a recording the pool holds at most 10 timestamps, the newest last; a full pool drops its oldest entry. |
| Encryption.ActivityEntropyPool.RecordActivityEntropy | frontend/src/lib/encryption.ts:23-28 | Appends the timestamp to the history and keeps the pool equal to the window of the history; at most 10 samples, the new one last. |
| Encryption.ActivityEntropyPool.GenerateNonce | frontend/src/lib/encryption.ts:39-62 | Returns MixedNonce of the random draw and the pool, so the draw unchanged for an empty pool and bytes 10 and 11 as drawn; it only reads the pool. |
| Encryption.FillEntropySource | frontend/src/lib/encryption.ts:48-53 | The first loop leaves the entropy byte of each of the first (up to 12) samples in a fresh array, zeros after them. |
| Encryption.MixInto | frontend/src/lib/encryption.ts:56-58 | The second loop XORs byte i of the nonce with byte i of the entropy array (`i % 12 == i`: no sample is reused) and changes nothing else. |
| Encryption.MixedWithEntropyVector | frontend/src/lib/encryption.ts:48-58 | XORing the draw with the whole entropy array, zeros included, gives MixedNonce. |
| Encryption.MixedNonceProperties | frontend/src/lib/encryption.ts:40-58 | The nonce has 12 bytes. An empty pool gives the draw unchanged. Byte i is the random byte XOR the entropy byte of sample i for every i below the sample count. Every byte from the sample count up to 11 keeps the random draw, so a pool of at most 10 never touches bytes 10 and 11. |
| Encryption.EntropyByteInt32 | frontend/src/lib/encryption.ts:52 | The entropy byte `(t & 0xFF) ^ ((t >> 8) & 0xFF)` depends only on t modulo 2^32, which is what ToInt32 keeps, so it equals `(t mod 256) XOR ((t div 256) mod 256)` for every integer timestamp. |
| Encryption.EncryptData | frontend/src/lib/encryption.ts:88-109 | The caller's nonce is returned unchanged beside the ciphertext; a failing cipher call fails the whole operation. |
| Encryption.ArrayToBase64 | frontend/src/lib/encryption.ts:170-172 | The result is `btoa` of the Latin-1 string of the bytes, 4·⌈n/3⌉ characters long. |
| Encryption.DecodedBytes | frontend/src/lib/encryption.ts:177-184 | Succeeds exactly when `atob` does; one byte per decoded character, each the character's code. |
| Encryption.Base64ToArray | frontend/src/lib/encryption.ts:177-184 | The loop fills the array with the char codes of `atob(base64)`, i.e. computes DecodedBytes. |
| Encryption.ArrayBase64RoundTrip | frontend/src/lib/encryption.ts:170-184 | `base64ToArray(arrayToBase64(a)) == a` for every byte array. |
| Encryption.StoredLatin1 | frontend/src/lib/encryption.ts:171 | Storing the char codes of the Latin-1 string of a byte array gives the array back. |
| Base64.BtoARoundTrip | frontend/src/lib/encryption.ts:171 | `btoa` succeeds on every Latin-1 string and `atob` inverts it. |
| Base64.DecodeEncodeGroups | frontend/src/lib/encryption.ts:178 | Decoding the sextet groups of any byte sequence gives the bytes back. |
| Base64.EncodeLengths | frontend/src/lib/encryption.ts:171 | Encoded text is 4·⌈n/3⌉ characters, a multiple of four. |
| Base64.AtoBEncode | frontend/src/lib/encryption.ts:178 | `atob` accepts every `btoa` output and returns the encoded bytes. |
| UserLiveliness.AfterActivity | frontend/src/hooks/useUserLiveliness.ts:20-25 | Activity sets lastActivity to now, isActive to true, showWarning to false and the countdown to 300000 ms. |
| UserLiveliness.CheckCountdown | frontend/src/hooks/useUserLiveliness.ts:41-45 | After a tick the countdown is max(0, 300000 − (now − lastActivity)); for now ≥ lastActivity it lies in [0, 300000]. |
| UserLiveliness.CheckInactive | frontend/src/hooks/useUserLiveliness.ts:47-52 | The inactive branch of a tick (the one that calls onInactive when a callback is given) runs exactly when the inactive time is at least 300000 ms, and it clears isActive and showWarning. |
| UserLiveliness.CheckWarning | frontend/src/hooks/useUserLiveliness.ts:53-54 | An inactive time in [240000, 300000) sets showWarning and leaves isActive as it was. |
| UserLiveliness.CheckQuiet | frontend/src/hooks/useUserLiveliness.ts:55-57 | An inactive time below 240000 clears showWarning, keeps isActive and fires nothing. |
| UserLiveliness.ChecksNeverActivate | frontend/src/hooks/useUserLiveliness.ts:40-58 | No run of ticks sets isActive back to true or moves lastActivity; only recordActivity does. |
| UserLiveliness.WarningCountdown | frontend/src/hooks/useUserLiveliness.ts:43-54 | While the warning shows, the countdown is in (0, 60000]. |
| UserLiveliness.LivelinessMonitor.constructor | frontend/src/hooks/useUserLiveliness.ts:11-15 | Starts active, without warning, with the full countdown and lastActivity = now. |
| UserLiveliness.LivelinessMonitor.RecordActivity | frontend/src/hooks/useUserLiveliness.ts:20-29 | The new state is AfterActivity(now) and the timestamp is recorded in the entropy pool. |
| UserLiveliness.LivelinessMonitor.CheckInactivity | frontend/src/hooks/useUserLiveliness.ts:40-58 | The new state and whether onInactive fired are those of AfterCheck on the old state. |
| LivelinessIndicator.CeilSecondsBounds | frontend/src/components/LivelinessIndicators.tsx:15 | seconds = ⌈ms/1000⌉: (seconds − 1)·1000 < ms ≤ seconds·1000. |
| LivelinessIndicator.MinutesDecompose | frontend/src/components/LivelinessIndicators.tsx:16-17 | minutes·60 + remainingSeconds = seconds with 0 ≤ remainingSeconds < 60. |
| LivelinessIndicator.FormatTimeForm | frontend/src/components/LivelinessIndicators.tsx:19-22 | "<m>m <s>s" exactly when ms > 59000, "<seconds>s" otherwise. |
| LivelinessIndicator.FormatTimeZero | frontend/src/components/LivelinessIndicators.tsx:14-23 | formatTime(0) is "0s". |
| LivelinessIndicator.FormatTimeLastSecond | frontend/src/components/LivelinessIndicators.tsx:14-23 | Any ms in (0, 1000] gives "1s". |
| LivelinessIndicator.WarningLabel | frontend/src/components/LivelinessIndicators.tsx:14-23 | For a countdown in (0, 60000] the text is "1m 0s" or "<s>s" with 1 ≤ s ≤ 59. |
| LivelinessIndicator.SelectBadge | frontend/src/components/LivelinessIndicators.tsx:25-48 | Inactive wins over the warning; an active warning shows the countdown; otherwise "Active". |
| BrowserDetection.DetectCaseInsensitive | frontend/src/lib/browserDetection.ts:10 | The result depends only on the lower-cased user agent. |
| BrowserDetection.FirefoxFirst | frontend/src/lib/browserDetection.ts:13-19 | A user agent containing "firefox" is Firefox, even if it also contains "chrome". |
| BrowserDetection.ChromeFamily | frontend/src/lib/browserDetection.ts:23-28 | Otherwise "chrome", "chromium" or "edg" gives the Chrome type, named "Edge" exactly when "edg" occurs. |
| BrowserDetection.UnsupportedOtherwise | frontend/src/lib/browserDetection.ts:31-35 | Any other user agent is unsupported, named "Unsupported Browser", with an empty URL. |
| BrowserDetection.ExtensionUrlIffSupported | frontend/src/lib/browserDetection.ts:17-34 | The extension URL is non-empty exactly when the browser is supported. |
| BrowserDetection.FirefoxExample | frontend/src/lib/browserDetection.ts:13-19 | Example: one real Firefox user agent string is classified Firefox. |
| JsText.ParseIntToString | frontend/src/components/RequestFilters.tsx:73 | `BigInt` parses the decimal text of every integer back to it. |
| JsText.TrimEmpty | frontend/src/components/RequestFilters.tsx:60 | `trim()` is empty exactly for whitespace-only text. |
| RequestFilters.HandleChangeLocal | frontend/src/components/RequestFilters.tsx:50-192 | Every handler leaves every other field's presence and value unchanged. |
| RequestFilters.HandleChangeClears | frontend/src/components/RequestFilters.tsx:50-57 | "all" in a select, or blank text in domain, endpoint or hops, removes exactly the handler's field. |
| RequestFilters.HandleChangeSets | frontend/src/components/RequestFilters.tsx:55-190 | Any other value sets the field: strings untrimmed, booleans as value == "true", numbers as parsed by BigInt, which throws on non-integer text. |
| RequestFilters.HandleChangeWellTyped | frontend/src/components/RequestFilters.tsx:50-192 | Handlers keep every field at its declared type. |
| RequestFilters.SelectShowsChoice | frontend/src/components/RequestFilters.tsx:50-192 | Choosing an option of a select shows that option again. |
| RequestFilters.Edit | frontend/src/components/RequestFilters.tsx:50-192 | A change edits the local record only; the applied record is untouched. |
| RequestFilters.Apply | frontend/src/components/RequestFilters.tsx:40-42 | Apply hands the local record over unchanged. |
| RequestFilters.Clear | frontend/src/components/RequestFilters.tsx:44-48 | Clear empties both records, so no filter is active and the count is 0. |
| RequestFilters.ActiveIffCount | frontend/src/components/RequestFilters.tsx:37-38 | hasActiveFilters holds exactly when activeFilterCount > 0. |
| RequestFilters.EditsThenApply | frontend/src/components/RequestFilters.tsx:40-192 | No run of edits reaches the page before Apply; after Apply the page has what the edits built. |
| DecryptionRequestsDialog.PendingRequests | frontend/src/components/DecryptionRequestsDialog.tsx:28 | Every element is pending; no longer than the input. |
| DecryptionRequestsDialog.ProcessedRequests | frontend/src/components/DecryptionRequestsDialog.tsx:29 | No element is pending; no longer than the input. |
| DecryptionRequestsDialog.PartitionCounts | frontend/src/components/DecryptionRequestsDialog.tsx:28-29 | The two lists together hold each request exactly as often as the input (lengths and multisets). |
| DecryptionRequestsDialog.PartitionMembership | frontend/src/components/DecryptionRequestsDialog.tsx:28-29 | A request is in the pending list iff it is in the input and pending, in the processed list iff it is in the input and not pending. |
| DecryptionRequestsDialog.PendingConcat | frontend/src/pages/DashboardPage.tsx:49 | Filtering distributes over concatenation, so input order is kept. |
| DecryptionRequestsDialog.StatusLabelMeaning | frontend/src/components/DecryptionRequestsDialog.tsx:31-44 | The four known statuses get a capitalised label that lower-cases back to them; any other status is echoed. |
| DecryptionRequestsDialog.TriggerBadge | frontend/src/components/DecryptionRequestsDialog.tsx:61-65 | The count shows exactly when some request is pending, and it is the pending count. |
| DecryptionRequestsDialog.PendingNonEmpty | frontend/src/components/DecryptionRequestsDialog.tsx:61 | The pending list is non-empty exactly when some request is pending. |
| DecryptionRequestsDialog.Buttons | frontend/src/components/DecryptionRequestsDialog.tsx:244-254 | Approve and Deny are both disabled whenever either mutation is in flight, and both enabled otherwise. |
| DecryptionRequestsDialog.Body | frontend/src/components/DecryptionRequestsDialog.tsx:95-114 | Loading first, then the empty message for no requests; any other list shows exactly the pending and the processed requests (which together hold every request), separated exactly when both are non-empty. |
| DecryptionRequestsDialog.PendingAlertNoun | frontend/src/components/DecryptionRequestsDialog.tsx:89 | The plural "s" appears exactly when more than one request is pending. |
| Queries.ListQuery | frontend/src/hooks/useQueries.ts:17-20 | With no actor a list query returns [], otherwise the actor's answer. |
| Queries.GetRequest | frontend/src/hooks/useQueries.ts:190 | With no actor `getRequest` returns null. |
| Queries.Mutation | frontend/src/hooks/useQueries.ts:144 | With no actor every mutation fails with "Actor not initialized". |
| Queries.ReEncryptedFilters | frontend/src/hooks/useQueries.ts:79-80 | The re-encrypted query filters by exactly `{reEncrypted: true}`. |
| Queries.ReEncryptedFiltersFromPanel | frontend/src/hooks/useQueries.ts:79 | That record is what the panel builds when "Re-encrypted: true" is chosen on an empty record. |
| Queries.CountStepMeaning | frontend/src/hooks/useQueries.ts:55-66 | The stored count becomes each defined result's length. An announcement happens exactly when that length exceeds the stored count, and it reports the difference, at least 1. |
| Queries.DecryptionStepMeaning | frontend/src/hooks/useQueries.ts:118-133 | The decryption counter also needs a pending request in the new list before it announces. |
| Queries.CountRunTotal | frontend/src/hooks/useQueries.ts:55-66 | Over a run of results the announcements add up to at least the net growth, and exactly to it when the list never shrinks. |
| Queries.NewItemsTracker.constructor | frontend/src/hooks/useQueries.ts:42 | The stored count starts at 0. |
| Queries.NewItemsTracker.ObserveRequests | frontend/src/hooks/useQueries.ts:55-66 | One effect run of the TLS-alert or re-encrypted hook: CountStep on the stored count. |
| Queries.NewItemsTracker.ObserveDecryptionRequests | frontend/src/hooks/useQueries.ts:118-133 | One effect run of the decryption-request hook: DecryptionStep on the stored count. |
| DashboardPage.StatusColorByClass | frontend/src/pages/DashboardPage.tsx:79-84 | For codes 100–599 the colour depends only on the class (section 15 of RFC 9110). Everything outside 200–499, including 1xx and 5xx, is red. |
| DashboardPage.StatusColorsDistinct | frontend/src/pages/DashboardPage.tsx:79-84 | The four colour classes are pairwise distinct. |
| DashboardPage.MethodColor | frontend/src/pages/DashboardPage.tsx:68-77 | A method in the table gets its own class, which is never the default; any other method gets the default. |
| DashboardPage.MethodColorTable | frontend/src/pages/DashboardPage.tsx:68-77 | Exactly GET, POST, PUT, DELETE and PATCH get a non-default class. |
| DashboardPage.ProtocolColor | frontend/src/pages/DashboardPage.tsx:86-94 | Violet exactly for "HTTP/3", cyan exactly for "HTTP/2", slate exactly for anything else. |
| DashboardPage.ShortPrincipalShape | frontend/src/pages/DashboardPage.tsx:51-52 | Empty exactly for an empty principal. Otherwise it is the first (up to) 8 characters, then "...", then the last (up to) 6. |
| DashboardPage.ShortPrincipalLength | frontend/src/pages/DashboardPage.tsx:52 | A principal of 14 or more characters is shortened to 17 characters. |
| DashboardPage.DisplayedRequests | frontend/src/pages/DashboardPage.tsx:37-48 | The filtered list while any filter is defined, the full list otherwise. |
| DashboardPage.ExportDisabled | frontend/src/pages/DashboardPage.tsx:119 | Export is disabled exactly when an export is pending or there are no requests. |
| DashboardPage.ListView | frontend/src/pages/DashboardPage.tsx:259-282 | Loading exactly while loading; after that, the list exactly when the displayed requests are non-empty, otherwise the empty message, whose title and hint mention filters exactly when some are active. |
| DashboardPage.PageAlerts | frontend/src/pages/DashboardPage.tsx:152-186 | The pending alert shows, with its count, exactly when something is pending. The TLS alert shows exactly when there are TLS alerts, with their count. The re-encryption note shows, with the number of re-encrypted requests, exactly when there are both TLS alerts and re-encrypted requests, and only inside the TLS alert. |
| DashboardPage.ReEncryptedNoteNeedsTlsAlert | frontend/src/pages/DashboardPage.tsx:173-183 | Without TLS alerts the re-encryption note never shows. |
| RequestDetailsDialog.ColorHelpersAgree | frontend/src/components/RequestDetailsDialog.tsx:35-61 | The dialog's three colour helpers agree with the dashboard's on every input. |
| RequestDetailsDialog.HeaderRows | frontend/src/components/RequestDetailsDialog.tsx:429-436 | One entry per header, with its name and value; a separator follows exactly the entries before the last. |
| RequestDetailsDialog.HeaderSeparators | frontend/src/components/RequestDetailsDialog.tsx:429-436 | A list of n > 0 headers draws n − 1 separators, none after the last entry. |
| RequestDetailsDialog.SeparatorsBeforeLast | frontend/src/components/RequestDetailsDialog.tsx:452-459 | Entries with a separator everywhere but the last have exactly one separator fewer than entries. |
| RequestDetailsDialog.Section | frontend/src/components/RequestDetailsDialog.tsx:425-459 | An empty header list shows the placeholder text, a non-empty one its entries. |
| RequestDetailsDialog.Details | frontend/src/components/RequestDetailsDialog.tsx:29-462 | The dialog shows nothing exactly when the request is null. The TLS alert shows iff the request is TLS-terminated. The QUIC note shows iff the request is TLS-terminated, the protocol is "HTTP/3", quicData is present and its handshake failed. The re-encryption alert shows iff the request is re-encrypted. Its payload line shows iff encryptedPayloadType is non-empty. The badges use the dashboard colours. The HTTP/3 header list shows only when non-empty. |
| RequestDetailsDialog.QuicNoteInsideTlsAlert | frontend/src/components/RequestDetailsDialog.tsx:77-92 | The QUIC note never shows without the TLS alert. |

## Left out

- The Web Crypto calls are not modelled: key generation, `crypto.subtle.encrypt`/`decrypt`, and key export/import (frontend/src/lib/encryption.ts:69-165). ChaCha20-Poly1305 is not implemented in the repository. The cipher call of `encryptData` is a function parameter.
- `crypto.getRandomValues` is a foreign random source. The 12 random bytes are a parameter of GenerateNonce, and nothing is claimed about uniqueness.
- The backend actor is not part of this model:
  - the approve/deny/retrieve workflow;
  - ownership checks;
  - ciphertext storage;
  - filtering on the server.
  
  Actor calls are function parameters.
- Timers, window event listeners and the 30-second backend heartbeat are scheduling and I/O. Ticks and activity are explicit method calls with `now` as a parameter.
- React Query (polling, caching, invalidation) is left out, and so are toasts and their wording and the Blob/anchor download of exports. The announcement count a toast would show is modelled.
- Dates are formatted from floating-point milliseconds (`format`, `formatDistanceToNow`), and that formatting is left out.
- `RequestData` keeps only the fields the modelled code reads. The timestamp and the security metadata fields shown verbatim in the details dialog (authentication, key agreement, CA status, end-to-end, mutual authentication, forward secrecy, protected data type, endpoint, hops) are left out.
- Encryption.EntropyByte: models the bitwise operations arithmetically, for integer timestamps. Encryption.EntropyByteInt32 shows that only the value modulo 2^32 matters, as under ToInt32. Non-integer timestamps are not modelled; `Date.now()` always returns an integer.
- Encryption.EntropyByteInt32: reads the `&` and `>>` operations as arithmetic on integers (modulo and division by 256), not as 32-bit bitwise operations; it proves only that reducing the timestamp modulo 2^32 leaves the entropy byte unchanged.
- JsText.ToLower: lower-cases ASCII letters only. Non-ASCII case mapping is left out.
- RequestFilters.HandleChange: the `SyntaxError` that `BigInt` throws on non-integer text escapes the event handler in the source, and what React then does is not modelled. The model returns the error as a `Failure`, and the local record stays as it was.
- DashboardPage.MethodColor: the JavaScript object lookup would also find inherited prototype keys such as "constructor", which would return a function rather than a class string. The model treats only the five own keys as present.
- DashboardPage.MethodColorTable: "only the five methods get their own colour" holds of the model, which treats inherited prototype keys as absent; in the source such a key would give a non-default (function) value.
- Encryption.ArrayToBase64: engine limits on the argument count of `String.fromCharCode(...array)` are not modelled.
- Concurrent mutations are not modelled. The only protection is that the buttons are disabled, and that is modelled.
- Static documentation pages, the login and extension pages, the banner and proxy-config dialogs, and the browser extension scripts are not part of this model.
