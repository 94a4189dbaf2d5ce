# Treino-Wal: weekly check-in reset and offline asset cache

A Dafny model of the two pieces of client-side logic in the WR Consultoria training page:

- **Weekly check-in reset** (`script.js`). Every check-in box is persisted in
  `localStorage` under the key `checkin_<table>_<item>`, with the value `"true"` or
  `"false"`. On each page load `checkAndReset` checks the clock. On Sunday (weekday 0),
  during the 22:00 hour, it runs `resetCheckins` unless the marker
  `last_checkin_reset_date` already holds today's date. `resetCheckins` unchecks every
  box. It then walks the store's keys from the last position down to 0, removing every key
  that starts with `checkin_`. Last, it writes today's date as the marker. The file-icon
  rule of the upload list (`handleFileUpload`) is modelled too.
- **Offline asset cache** (`sw.js`). The service worker's install handler opens the cache
  `wr-treino-v1` and adds the seven-asset manifest with `cache.addAll`. Its activate
  handler deletes every cache with another name. Its fetch handler answers from the
  caches when one of them holds the request. Otherwise it forwards the request to the
  network, returns the result unchanged and does not store it.

Modules:

- `WebStorage` (web_storage.dfy) models the `localStorage` object. It is a class `Store`
  over an ordered `seq<Entry>` with distinct keys, and has `key`, `getItem`, `setItem`
  and `removeItem`. The pure functions `Lookup`, `Put` and `Remove` specify these calls.
- `Checkins` (checkins.dfy) holds the key and value encoding, the guard, the reset as a
  function (`AfterReset`), and the page's methods that follow the source loop by loop:
  `ResetCheckins`, `SweepCheckins`, `CheckAndReset`, `SaveCheckin`, `RestoreTable` and
  `RestoreCheckins`. It also holds the lemmas relating them.
- `FileIcons` (file_icons.dfy) holds the extension and icon rule.
- `OfflineCache` (offline_cache.dfy) models Cache Storage as defined by the W3C Service
  Workers specification. It is a class `CacheStorage` with cache names in creation order
  and a map from name to cache, plus the worker's `Install`, `Activate` and `HandleFetch`.
  Pure functions specify each step.
- `Text` (text.dfy) holds the string helpers: `startsWith`, ASCII lower-casing and
  decimal numerals. `Wrappers` (wrappers.dfy) holds `Option`, which stands for
  JavaScript's `null`.

Inputs that come from the host are parameters:

- the weekday and hour (local time, `getDay`/`getHours`);
- the date string (UTC, `toISOString().split("T")[0]`), taken independently of the two
  above;
- the network, an oracle `Request -> Fetched`;
- the page's check-in boxes, arrays of booleans.

## Model

| member | source | states |
|---|---|---|
| `Checkins.IsCheckinKey` | script.js:83 | a key is swept exactly when it is `checkin_` followed by some rest |
| `Checkins.ShouldReset` | script.js:106 | the guard of `checkAndReset`: it holds only on weekday 0 in hour 22, and never when the marker already equals today |
| `Checkins.Swept` | script.js:81-86 | the store with the check-in entries removed: no remaining key starts with `checkin_`, and it is no longer than before |
| `Checkins.AfterReset` | script.js:81-93 | the store as `resetCheckins` leaves it; its marker reads today's date |
| `Checkins.Fires` | script.js:99-108 | a page load resets only on Sunday in the 22:00 hour with a marker other than today's date |
| `Checkins.AfterLoad` | script.js:99-108 | after a load that resets, the marker is today's date; a load that does not reset leaves the store as it was |
| `Checkins.ResetCount` | script.js:99-108 | a run of page loads resets at most once per load |
| `Checkins.AfterLoads` | script.js:99-108 | a run of page loads that performs no reset leaves the store as it was |
| `Checkins.EncodeChecked` | script.js:120 | `String(checked)` is a text that `=== "true"` reads back as `checked` |
| `Checkins.DecodeChecked` | script.js:118 | an absent key reads unchecked; a box reads checked only when the stored text is exactly `"true"` |
| `Checkins.RestoredState` | script.js:116-118 | a box restores checked only when its own key holds `"true"` |
| `Checkins.ParseCheckinKey` | script.js:117 | an inverse of the key template that exists in the model only (the source never parses keys): only keys starting with `checkin_` parse |
| `Checkins.MarkerIsNotCheckinKey` | script.js:4 | the marker key `last_checkin_reset_date` does not start with `checkin_`, so the sweep never removes it |
| `Checkins.CheckinKey` | script.js:117 | every key built from a (table, item) pair starts with `checkin_`, so a reset always clears it |
| `Checkins.CheckinKeyRoundTrip` | script.js:117 | the key `checkin_<t>_<i>` reads back as exactly the pair (t, i) |
| `Checkins.CheckinKeyInjective` | script.js:117 | distinct (table, item) pairs give distinct keys |
| `Checkins.DecodeEncode` | script.js:118-120 | a state saved as `"true"`/`"false"` and read back with `=== "true"` is the state saved |
| `Checkins.SaveThenRestore` | script.js:117-121 | after the change handler saves a box, a reload restores that box to the saved state and every other box to its earlier state |
| `Checkins.GuardWindow` | script.js:99-108 | the guard fires only on weekday 0 in hour 22; it never fires once the marker equals today; it fires in the window when the marker is absent (`null`) |
| `Checkins.SweptLookup` | script.js:81-86 | the sweep removes exactly the `checkin_` keys; every other key keeps its value |
| `Checkins.SweptNoCheckins` | script.js:81-86 | sweeping a store without check-in keys leaves it unchanged |
| `Checkins.SweptIdempotent` | script.js:81-86 | sweeping twice gives the same store as sweeping once |
| `Checkins.SweptPut` | script.js:81-93 | writing a key outside the check-in namespace commutes with the sweep |
| `Checkins.SweptDistinct` | script.js:81-86 | the sweep keeps the store's keys distinct |
| `Checkins.ResetClearsCheckins` | script.js:81-86 | after `resetCheckins` no key beginning with `checkin_` remains |
| `Checkins.ResetUnchecksEveryBox` | script.js:81-118 | after a reset, every box reloads unchecked |
| `Checkins.ResetKeepsOthers` | script.js:81-93 | a reset leaves every key outside the check-in namespace, and its value, unchanged, apart from the marker |
| `Checkins.ResetDisarmsGuard` | script.js:90-106 | after a reset the marker equals today's date, so the guard does not fire again that date |
| `Checkins.ResetIdempotent` | script.js:75-94 | resetting twice with the same date gives the same store as resetting once |
| `Checkins.NoResetOnceMarked` | script.js:99-108 | once the marker holds a date, no page load with that date resets or changes the store |
| `Checkins.ResetOncePerDate` | script.js:99-108 | over any sequence of page loads with the same date, the reset runs at most once; it runs exactly once if the marker is not yet that date and some load falls on Sunday in the 22:00 hour |
| `Checkins.UncheckAll` | script.js:76-78 | every check-in box on the page ends unchecked |
| `Checkins.WalkStep` | script.js:81-86 | visiting position i of the downward walk, and removing its key if it is a check-in key, leaves positions below i untouched and extends the swept part by one, so removals never make the walk skip a key |
| `Checkins.SweepCheckins` | script.js:81-86 | the downward `removeItem` loop leaves exactly the swept store (every original key visited once, other entries in their order) and keeps keys distinct |
| `Checkins.ResetCheckins` | script.js:75-94 | `resetCheckins` unchecks all boxes and leaves the store swept, with the marker set to today |
| `Checkins.CheckAndReset` | script.js:99-108 | the store after a page load: reset when the guard holds, otherwise untouched (boxes too) |
| `Checkins.SaveCheckin` | script.js:119-121 | the change handler writes `String(checked)` under the box's key and changes nothing else |
| `Checkins.RestoreTable` | script.js:116-118 | each box of a table gets `getItem(key) === "true"` for its own key |
| `Checkins.RestoreCheckins` | script.js:115-123 | every box of every table gets the state stored under `checkin_<table>_<item>` |
| `Text.StartsWith` | script.js:83 | `s.startsWith(prefix)` holds exactly when the prefix is no longer than `s` and matches it character by character |
| `Text.Decimal` | script.js:117 | the numeral of an index is non-empty, all digits, and has no leading zero |
| `Text.LowerChar` | script.js:232 | an ASCII capital moves 32 code points to its small letter; every other character is kept; no result is a capital |
| `Text.DecimalRoundTrip` | script.js:117 | the decimal numeral of an index reads back as that index |
| `Text.ToLower` | script.js:232 | lower-casing keeps the length and lower-cases each ASCII capital in place |
| `FileIcons.Extension` | script.js:232 | the extension is no longer than the name and holds neither a `.` nor an upper-case ASCII letter |
| `FileIcons.IconForExtension` | script.js:234-236 | only an extension of three or four lower-case letters gets a specific icon |
| `FileIcons.IconFor` | script.js:231-236 | the icon of a file name; lower-casing the whole name before splitting at the last `.` picks the same icon |
| `FileIcons.LastSegmentLower` | script.js:232 | splitting at the last `.` commutes with lower-casing |
| `FileIcons.Glyph` | script.js:231-236 | the glyph rendered for each icon; only the image glyph ends in the variation selector U+FE0F |
| `FileIcons.GlyphsDistinct` | script.js:231-236 | the four icons render as four different glyphs |
| `FileIcons.LastSegment` | script.js:232 | `split('.').pop()` is a suffix of the name without a `.`, and it is the whole name or is preceded by a `.` |
| `FileIcons.LastSegmentAfterDot` | script.js:232 | whatever precedes the last `.`, the extension is the text after it |
| `FileIcons.LastSegmentNoDot` | script.js:232 | a name without a `.` is its own extension |
| `FileIcons.IconOfDottedName` | script.js:231-236 | only the text after the last `.`, lower-cased, decides the icon |
| `FileIcons.IconOfUndottedName` | script.js:231-236 | a name without a `.` is matched in full, lower-cased |
| `FileIcons.TrailingDotIsDefault` | script.js:231-236 | a name ending in `.` gets the default icon |
| `FileIcons.IconClasses` | script.js:231-236 | jpg/jpeg/png/gif give the image icon, pdf gives the PDF icon, doc/docx give the document icon, and every other extension gives the default |
| `WebStorage.Lookup` | script.js:103 | `getItem` gives `null` exactly when no entry has the key, else the value of an entry with that key |
| `WebStorage.Put` | script.js:120 | `setItem` keeps the length when the key is present, and appends one entry for a new key |
| `WebStorage.LookupPut` | script.js:120 | after `setItem(k, v)`, `getItem(k)` is `v` and every other key reads as before |
| `WebStorage.LookupRemove` | script.js:84 | `removeItem(k)` leaves every other key reading as before |
| `WebStorage.Remove` | script.js:84 | after `removeItem(k)` the key is absent |
| `WebStorage.PutPut` | script.js:90-93 | writing a key twice keeps only the second value |
| `WebStorage.PutDistinct` | script.js:120 | `setItem` keeps keys distinct |
| `WebStorage.RemoveDistinct` | script.js:84 | `removeItem` keeps keys distinct |
| `WebStorage.Store.Length` | script.js:81 | `localStorage.length` is the number of stored keys |
| `WebStorage.Store.Key` | script.js:82 | `key(i)` is the key at position i, or `null` past the end |
| `WebStorage.Store.GetItem` | script.js:103 | `getItem` reads the entry of the key |
| `WebStorage.Store.SetItem` | script.js:90-93 | `setItem` replaces a present key's value in place or appends a new entry |
| `WebStorage.Store.RemoveItem` | script.js:84 | `removeItem` drops the key's entry |
| `OfflineCache.Storable` | sw.js:18 | `addAll` accepts a fetch result only when it is a response whose status is in 200-299 and is not 206 |
| `OfflineCache.AllStorable` | sw.js:18 | `addAll` succeeds only when every request fetched a response |
| `OfflineCache.OpenedNames` | sw.js:16 | `caches.open` keeps the existing names in order and adds the opened name if it is new |
| `OfflineCache.OpenedTables` | sw.js:16 | `caches.open` adds the opened name and leaves every existing cache unchanged |
| `OfflineCache.InstalledTables` | sw.js:16-18 | after a successful install, `wr-treino-v1` holds every manifest asset with its fetched response, and every other cache is unchanged |
| `OfflineCache.Respond` | sw.js:50-53 | a hit returns the cached response; a network error reaches the page only on a miss when the network failed |
| `OfflineCache.ManifestDistinct` | sw.js:2-10 | the manifest lists seven distinct assets |
| `OfflineCache.Batch` | sw.js:18 | `addAll` writes one entry per manifest request, each holding the response fetched for it |
| `OfflineCache.InstallCachesManifest` | sw.js:1-19 | after a successful install the cache `wr-treino-v1` holds an entry for each of the 7 manifest paths, with the fetched response |
| `OfflineCache.CacheStorage.Open` | sw.js:16 | `caches.open` creates an empty cache under a new name (appended to the names) and changes nothing otherwise |
| `OfflineCache.CacheStorage.AddAll` | sw.js:18 | `addAll` succeeds exactly when the requests are distinct and every fetch gives a storable response; it then stores all of them, and otherwise stores none |
| `OfflineCache.CacheStorage.Install` | sw.js:13-22 | install opens `wr-treino-v1` and, if every asset fetches, fills it with the manifest; otherwise the cache stays as opened |
| `OfflineCache.Kept` | sw.js:28-36 | the names activate keeps are exactly those equal to `wr-treino-v1` |
| `OfflineCache.Retained` | sw.js:27-36 | after activate only `wr-treino-v1` can remain, and its cache is not altered |
| `OfflineCache.KeptIsCurrent` | sw.js:27-36 | with distinct names, activate leaves exactly `[wr-treino-v1]` if it existed, else no cache |
| `OfflineCache.ActivateIdempotent` | sw.js:27-36 | a second activate sweep leaves the cache table unchanged |
| `OfflineCache.Without` | sw.js:33 | `caches.delete(name)` removes that name and keeps every other name |
| `OfflineCache.WithoutDistinct` | sw.js:33 | deleting a cache keeps cache names distinct |
| `OfflineCache.SweepingStep` | sw.js:30-35 | one step of activate's pass over the name list it took removes that name unless it is current |
| `OfflineCache.CacheStorage.Delete` | sw.js:33 | `caches.delete` reports whether the cache existed and removes it and only it |
| `OfflineCache.CacheStorage.Keys` | sw.js:28 | `caches.keys()` lists the cache names in creation order |
| `OfflineCache.CacheStorage.Activate` | sw.js:25-40 | after activate the names are the kept names and the table is the retained table |
| `OfflineCache.MatchAll` | sw.js:49 | `caches.match` finds nothing exactly when no cache holds the request; a found response is the one stored under the request in the first cache, in creation order, that holds it |
| `OfflineCache.CacheStorage.Match` | sw.js:49 | `caches.match` gives the first match in creation order |
| `OfflineCache.RespondHit` | sw.js:49-51 | on a cache hit the cached response is returned, whatever the network would give |
| `OfflineCache.RespondMiss` | sw.js:52-53 | on a miss the network's result is returned unchanged, a network error included |
| `OfflineCache.CacheStorage.HandleFetch` | sw.js:43-56 | the fetch handler returns the cached response when one exists, else the network's result; it has no `modifies` clause, so the network result is never stored |
| `OfflineCache.ServedOffline` | sw.js:13-55 | after a successful install and an activate, every manifest asset is served from the cache as fetched at install, whatever the network does later |

## Left out

- Presentation: the content and video toggles (script.js:9-70), the modal (script.js:270-304), the Chart.js dashboards (script.js:130-201), building the file list's `innerHTML` (script.js:238-243) and every `console` call. None of them touches the store or the caches.
- `handleFileUpload` is modelled only through its icon rule. `Glyph` gives the glyph it renders.
- Text.ToLower: lower-cases ASCII letters only, where JavaScript's `toLowerCase` also folds non-ASCII letters. The icon chosen can differ from the source's only for an extension that holds non-ASCII letters.
- Checkins.CheckAndReset: the model reads the date once and uses it both for the guard and for the marker. The source reads the clock twice: `checkAndReset` takes `now` (script.js:100, 104), and `resetCheckins` builds a second `new Date()` for the marker (script.js:92). If UTC midnight passes between the two reads, the source writes the next day's date as the marker, and the model does not capture that. The guard's window is already over by then, so no proved property depends on it.
- Date arithmetic and time zones: the weekday, hour and date string are independent inputs, as the source reads them from local time and from UTC.
- The page's `.checkin` boxes are arrays of booleans. `ResetCheckins` takes all of them in document order. `RestoreCheckins` takes them per table. The DOM elements that back both views are not modelled.
- WebStorage.Remove / Checkins.WalkStep: the model assumes that `removeItem` keeps the remaining keys in their order. The HTML Storage interface fixes the key order only while the number of keys stays the same, so it does not promise this. The proof that the downward loop of script.js:81-86 visits every key holds only under that assumption. A user agent that reorders keys on removal could make the source's loop skip a key.
- The key order of `localStorage` is user-agent defined. The model appends new keys and updates present keys in place. Storage quota errors and storage-access exceptions are not modelled.
- Cross-tab concurrency on the shared store is not modelled, since each store call is one atomic step.
- Promises and asynchrony are not modelled: every Cache Storage call is one atomic step. Activate deletes the stale caches one after another in the order of `caches.keys()`, where the source issues them together with `Promise.all`. The failure of a single `caches.delete` is not modelled.
- `cache.addAll` follows the W3C definition: it stores all entries or none, and rejects duplicate requests and responses that are not ok or are 206. It does not model the rejection of `Vary: *` responses or opaque responses. An unsuccessful install therefore leaves the opened cache without new entries, rather than partly filled.
- Requests are identified by their URL string, and the manifest's relative paths are taken as those URLs. Resolution against the worker's scope, request methods, and `Vary` matching are not modelled.
- Service-worker registration (script.js:256-265), `event.waitUntil`, `self.skipWaiting()` and `self.clients.claim()` (sw.js:15, 21, 39) only signal the host's lifecycle.
- The network is an oracle function. Whether it was consulted is shown by the result not depending on it (`RespondHit`, `ServedOffline`), not by counting calls.
