# Power BI viewer — a Dafny model of its scripts

The viewer is a static page that embeds a Power BI report in an iframe. Three scripts carry its
behaviour, and this project models each of them and proves what they promise:

- `version.js` is a build-time script. For each configured file it replaces the version in every
  `href="styles.css?v=…"` and `src="script.js?v=…"` reference with the configured version. A
  missing file is reported and skipped.
  - `version_rewrite.dfy` models the two global regular-expression replacements as a
    left-to-right scan (`MatchAt`, `ReplaceAll`, `Stamp`).
  - `version_script.dfy` models the configuration, the directory as a `Disk` object whose file
    map is overwritten in place, and the update loop.
- `service-worker.js` is the offline cache.
  - Install opens the versioned store and adds the bootstrap resources. Only then does it skip
    waiting.
  - Activate deletes every other store and claims the clients.
  - Fetch bypasses the Power BI host. Otherwise it answers from the cache. On a miss it goes to
    the network and stores a `basic` 200 reply.
  - A `skipWaiting` message skips waiting.
  - The cache storage is a value: the store names in creation order plus a map from each name to
    its store. `caches.match` searches the stores in that order. The worker is a class whose
    fields the event handlers update.
- `script.js` is the page script.
  - Device detection is a case-insensitive search for the mobile tokens in the user agent.
  - The container layout depends on the window size and the device.
  - The double-tap detector of the report frame is registered only on mobile devices. It is a
    class whose `lastTap` changes with every touchend. Touchend times are wall-clock readings in
    milliseconds since the epoch, a different clock from the timeline's.
  - The loader is hidden when the frame loads, or after a safety delay. It is replaced by an
    error message if it is still displayed at the error check. This timeline is a queue of timers
    ordered by due time. The page object dispatches the timers one by one.

`text.dfy` holds substring search and ASCII case folding. `wrappers.dfy` holds `Option`.

Three behaviours of the code are easy to misread:

- A fetched reply is cached only when it has status 200 and `type === 'basic'`, which rejects
  opaque and CORS replies alike (`ServiceWorker.Cacheable`).
- Install skips waiting only after every resource was added, so a failed install never skips
  waiting (`ServiceWorker.Worker.Install`).
- Activate only deletes stores. The own store remains if it existed
  (`ServiceWorker.ActivateKeepsOnlyOwnStore`). After a successful install it always exists
  (`ServiceWorker.BootstrapServedOffline`).

## Model

| member | source | states |
|---|---|---|
| VersionScript.ConfigVersionIsVersion | version.js:16-21 | The shipped version `1.0` is made of digits and dots, so the stamp accepts it, and one file is configured. |
| VersionRewrite.VersionRun | version.js:41 | The longest run of digits and dots at the start of a text: every character in it is a version character, and the one after it is not. |
| VersionRewrite.MatchAt | version.js:41 | The pattern matches at the start of a text with version `x` exactly when the text starts with the prefix, a non-empty run of digits and dots `x` and a double quote. |
| VersionRewrite.ReplaceAll | version.js:40-43 | One global replacement, as a left-to-right scan. Its meaning is stated by `PassRewritesOnlyVersions`, `PassWithoutReferences`, `PassOverReference`, `PassLeavesOnlyVersion` and `PassIdempotent`. |
| VersionRewrite.MatchedVersionIsRun | version.js:41 | A match's version is the whole run of version characters after the prefix; greedy matching has only one choice. |
| VersionRewrite.VersionRunMatches | version.js:41 | A prefix followed by a non-empty run of version characters and a quote is a match. |
| VersionRewrite.PassRewritesOnlyVersions | version.js:40-43 | A text splits into literal characters (where no match starts) and references. The pass replaces the version of every reference with the configured one and changes nothing else. |
| VersionRewrite.PassWithoutReferences | version.js:40-43 | A text with no match anywhere is left unchanged by the pass. |
| VersionRewrite.RejectedReferenceUntouched | version.js:41 | A reference whose version is empty or holds characters other than digits and dots is not matched, and the pass leaves it as it is. This is stated for versions that hold no double quote and not the first letter of the prefix. |
| VersionRewrite.PassOverReference | version.js:40-43 | A reference at the start of the text becomes prefix, new version, quote; the scan then continues after the quote. |
| VersionRewrite.SkipForeignReference | version.js:46-49 | The script pass leaves a stylesheet reference, already rewritten or not, as it is. |
| VersionRewrite.FixedReference | version.js:40-43 | If the pass leaves a reference unchanged, its version already was the configured one. |
| VersionRewrite.PassLeavesOnlyVersion | version.js:40-43 | After a pass, every match of its pattern carries the configured version. |
| VersionRewrite.PassIdempotent | version.js:40-43 | Running one pass twice gives the same text as running it once. |
| VersionRewrite.OtherPassKeepsStamped | version.js:46-49 | The script pass does not create a stylesheet reference with another version in a text the styles pass would leave unchanged. |
| VersionRewrite.PrefixesSeparated | version.js:41-47 | No occurrence of either prefix can start strictly inside an occurrence of a prefix, and the script prefix does not contain the first letter of the styles prefix. |
| VersionRewrite.StampIdempotent | version.js:40-49 | Stamping a stamped text again changes nothing: running the script twice is harmless. |
| VersionRewrite.Stamp | version.js:40-49 | The stylesheet pass, then the script pass. Its meaning is stated by `StampIdempotent`, `StampLeavesOnlyVersion`, `StampWithoutReferences` and `StampRewritesBothReferences`. |
| VersionRewrite.StampLeavesOnlyVersion | version.js:40-49 | After stamping, every stylesheet and every script reference carries the configured version. |
| VersionRewrite.StampWithoutReferences | version.js:40-49 | A text without references is left unchanged. |
| VersionRewrite.StampRewritesBothReferences | version.js:40-49 | A page with one stylesheet and one script reference, and no other quote or `h` around them, gets both versions replaced and nothing else. |
| VersionRewrite.StampExample | version.js:40-49 | The `<link>`/`<script>` pair with version `1.0` is rewritten to the configured version. |
| VersionScript.StampFiles | version.js:27-54 | The update of a list of files keeps the set of files. |
| VersionScript.ReportFor | version.js:31-33 | The report of a file names it, and it says updated exactly when the file exists. |
| VersionScript.Reports | version.js:27-54 | One report per configured file, in order, each updated exactly when its file exists. |
| VersionScript.Disk.constructor | version.js:28 | The directory holds the given files. |
| VersionScript.Disk.Write | version.js:52 | Writing a file sets its contents and leaves the others. |
| VersionScript.Disk.UpdateFile | version.js:28-53 | A missing file is reported and nothing changes; an existing file is replaced by its stamped contents. |
| VersionScript.UpdateVersionReferences | version.js:24-58 | The script leaves the directory as `StampFiles` of the configured list and returns `Reports` of it. |
| VersionScript.StampFilesAt | version.js:27-54 | With a version of digits and dots, a listed existing file holds its stamped original once, however often it is listed; an unlisted file is untouched. |
| VersionScript.StampFilesUnlisted | version.js:27-54 | Whatever the version, a file the list does not name is untouched. |
| VersionScript.StampFilesOnce | version.js:27-54 | Whatever the version, a file the list names once holds its stamped original. |
| VersionScript.RunTwiceSameFiles | version.js:27-54 | A second run of the script changes no file. |
| VersionScript.ShippedRunTwiceSameFiles | version.js:16-54 | With the shipped configuration, a second run changes no file. |
| VersionScript.UpdatedFilesCarryVersion | version.js:40-52 | After a run, every stylesheet and script reference in an updated file carries the configured version. |
| VersionScript.ShippedRun | version.js:16-21 | With the shipped configuration, `index.html` is stamped with `1.0` and reported updated when it exists; otherwise it is reported missing and nothing changes. |
| Text.Contains | service-worker.js:49 | Substring search: true exactly when the text occurs at some position. |
| Text.PairFreeNotContains | service-worker.js:49 | A text lacking two adjacent characters of a word does not contain that word. |
| ServiceWorker.Open | service-worker.js:21 | Opening a missing store creates it empty and appends its name to the creation order; opening an existing store changes nothing. Every other store is kept. |
| ServiceWorker.Put | service-worker.js:75-78 | Putting a response sets that one entry of the named store and leaves every other store. |
| ServiceWorker.PutAll | service-worker.js:24 | After adding a list, the store holds each listed URL with its delivered response and keeps its other entries. |
| ServiceWorker.AddAll | service-worker.js:24 | Adding all succeeds exactly when every URL was delivered with an ok status other than 206. On success only the named store changes; on failure nothing is stored. |
| ServiceWorker.Without | service-worker.js:39 | Removing a name from the creation order keeps every other name and no duplicates. |
| ServiceWorker.WithoutAbsent | service-worker.js:39 | Removing a name that is not listed leaves the order as it is. |
| ServiceWorker.WithoutListedOnce | service-worker.js:39 | Removing a name listed once cuts out that one entry and keeps the other names in their order. |
| ServiceWorker.WithoutKeepsOrder | service-worker.js:39 | Both cases of removing a name from a list without duplicates. |
| ServiceWorker.Delete | service-worker.js:39 | Deleting a store removes exactly that store and leaves the others' contents. Its name leaves the creation order, and the other names keep their order. |
| ServiceWorker.MatchIn | service-worker.js:54 | A lookup finds a response exactly when some store holds the URL. The answer comes from the first store in creation order that holds it. |
| ServiceWorker.MatchOnlyHolder | service-worker.js:54 | When a single store holds the URL, the lookup returns that store's response. |
| ServiceWorker.DeleteOld | service-worker.js:33-41 | Deleting the enumerated stores other than the own one keeps exactly the own store and the stores that were not enumerated, with their contents. |
| ServiceWorker.Worker.constructor | service-worker.js:1-91 | A new worker sees the existing stores and has neither skipped waiting nor claimed clients. |
| ServiceWorker.Worker.Install | service-worker.js:19-28 | Install reports success exactly when every bootstrap resource arrived with an ok status other than 206. Its storage is the opened and filled store. It skips waiting only on success. |
| ServiceWorker.Worker.Activate | service-worker.js:31-44 | Activate deletes, one by one, every enumerated store but the own one, then claims the clients. |
| ServiceWorker.Worker.HandleFetch | service-worker.js:47-84 | A fetch gives the outcome and the storage of the fetch rule: bypass, cache hit, or network reply stored when cacheable. |
| ServiceWorker.Worker.HandleMessage | service-worker.js:87-91 | A `skipWaiting` action skips waiting; any other message changes nothing. |
| ServiceWorker.InstallStoresResources | service-worker.js:19-28 | After install the own store exists and the other stores are untouched. After a successful one, the own store holds every bootstrap resource as delivered. |
| ServiceWorker.FailedInstallStoresNothing | service-worker.js:20-26 | A failed install adds nothing but the own store, empty if it was new. |
| ServiceWorker.Installed | service-worker.js:19-28 | The storage after install is well formed and holds the own store. `InstallStoresResources` and `FailedInstallStoresNothing` state its contents. |
| ServiceWorker.Respond | service-worker.js:47-84 | A fetch is left to the browser exactly on the excluded host. A cached answer is the stored match; a network answer is the reply, given only on a miss. |
| ServiceWorker.AfterFetch | service-worker.js:47-84 | The storage stays well formed, and changes only on a miss with a cacheable reply. `MissStoresCacheable` states what is stored. |
| ServiceWorker.ActivateKeepsOnlyOwnStore | service-worker.js:33-42 | After activate, only the own store remains, if it existed, with its contents. |
| ServiceWorker.BootstrapServedAfterInstall | service-worker.js:9-59 | Right after a successful install, every bootstrap resource is answered from the cache. |
| ServiceWorker.BootstrapServedOffline | service-worker.js:9-44 | After a successful install and activate, every bootstrap resource is answered from the cache with the response delivered at install. |
| ServiceWorker.NoInitialResourceExcluded | service-worker.js:9-16 | No bootstrap resource is on the excluded Power BI host. |
| ServiceWorker.ExcludedBypassed | service-worker.js:49-51 | A request whose URL contains `powerbi.com` is left to the network and changes no store. |
| ServiceWorker.HitServedFromCache | service-worker.js:54-59 | A request for a stored URL is answered from the cache and stores nothing; with one holder, with that holder's response. |
| ServiceWorker.MissStoresCacheable | service-worker.js:65-80 | On a miss, a 200 `basic` reply is returned and stored in the own store under the URL. |
| ServiceWorker.MissPassesOtherReplies | service-worker.js:67-69 | On a miss, any other reply, or a failed fetch, is passed on and nothing is stored. |
| ServiceWorker.StoredResponseServedNext | service-worker.js:54-80 | After a miss stored a reply, the next request for that URL is answered from the cache with it. |
| PageScript.MentionsAny | script.js:17 | True exactly when some token occurs in the user agent, case ignored. |
| Text.ContainsIgnoringCase | script.js:17 | True exactly when the word occurs somewhere in the text, ASCII letters compared without case. |
| PageScript.IsMobile | script.js:17 | A mobile device exactly when one of the eight tokens occurs in the user agent, case ignored. |
| PageScript.IsMobileIgnoresCase | script.js:17 | Lower-casing the user agent does not change the result. |
| PageScript.TokenMarksMobile | script.js:17 | Any user agent containing one of the tokens is a mobile device. |
| PageScript.AdjustContainerSize | script.js:39-67 | A small height gives 100vh by 100%; otherwise a mobile gets 98, a desktop 95. Header and footer are hidden exactly on a small landscape mobile and shown otherwise. The classes follow the device and orientation. |
| PageScript.SquareIsPortrait | script.js:40 | A square window is not landscape, so its bars are shown. |
| PageScript.HiddenBarsOnlyFullWindow | script.js:44-62 | Whenever the bars are hidden, the container fills the window. |
| PageScript.Stops | script.js:121-130 | Each touchend stops propagation exactly when it comes less than 500 ms, and more than 0 ms, after the previous one. |
| PageScript.TripleTapStopsTwice | script.js:121-130 | In three quick taps, the second and the third stop propagation. |
| PageScript.FirstTouchEndPassesThrough | script.js:121-129 | Because `lastTap` starts at 0 and touchend times are wall-clock readings, the first touchend of a session does not stop propagation; the rest are judged against it. |
| PageScript.TapTracker.constructor | script.js:121 | The last tap starts at time 0. |
| PageScript.TapTracker.TouchEnd | script.js:122-130 | A touchend stops propagation exactly on a double tap and records its time. |
| PageScript.Insert | script.js:23-25 | Scheduling a timer adds exactly that timer and keeps the queue ordered by due time. It goes right after every timer due no later than it and before the first later one, so timers due together fire in the order they were scheduled. |
| PageScript.InsertPosition | script.js:23-25 | The place of a new timer: every timer before it is due no later, the one at it is due later. |
| PageScript.Step | script.js:20-27 | When the first timer fires, the queue stays ordered and loses weight, and only a hide that finds the loader schedules a timer: the end of its fade, 500 ms later. The loader stays present or absent. It fades only at a hide, is hidden only at the end of a fade, and shows the error only at an error check that finds it displayed. A hidden loader stays hidden and an error stays shown. |
| PageScript.Fire | script.js:20-106 | What one timer does to the loader: a hide fades it, the end of the fade hides it, and the error check shows the error while it is displayed. An absent loader is never changed. |
| PageScript.Requeue | script.js:23-25 | The queue after its head fired: the rest, plus the end of the fade when a hide found the loader; it stays ordered and loses weight. |
| PageScript.Run | script.js:20-106 | The timeline runs to the end. The loader stays present or absent, a hidden loader stays hidden and a shown error stays. `RunHides`, `RunGuarded` and `RunWithoutLoader` state the rest. |
| PageScript.InitialTimers | script.js:30-110 | The page starts with exactly the error check, plus the safety hide and the frame's load event when there is a frame, in due order. Without a frame only the error check is queued. |
| PageScript.LoadEventAfterTies | script.js:31-35 | The frame's load event joins the queue after every timer due no later than it and before every later one. |
| PageScript.FinalLoader | script.js:8-110 | The loader after the whole timeline is present exactly when the page has one. `ErrorShownIffNoFrame` and `LoaderHiddenIffFrame` state the rest. |
| PageScript.StepKeepsGuard | script.js:86-106 | Once a hide or its fade is due before every pending error check, each step keeps that so and shows no error. |
| PageScript.RunGuarded | script.js:86-106 | A guarded timeline runs to the end without showing the error. |
| PageScript.RunHides | script.js:20-27 | A present loader with a pending hide ends hidden. |
| PageScript.RunWithoutLoader | script.js:21-26 | Without a loader, no timer changes anything. |
| PageScript.ErrorShownIffNoFrame | script.js:33-106 | The error message appears exactly when the loader is present and the page has no report frame: the safety hide always finishes before the error check. |
| PageScript.LoaderHiddenIffFrame | script.js:20-36 | The loader ends hidden exactly when it is present and there is a report frame. |
| PageScript.LoaderElement.constructor | script.js:11 | The loader starts with no inline style and no error. |
| PageScript.Page.constructor | script.js:30-36 | The page starts with the initial timers. |
| PageScript.Page.HideLoader | script.js:20-27 | When there is a loader, its opacity becomes `0` and the end of the fade is queued. Without a loader nothing changes. |
| PageScript.Page.FinishHide | script.js:23-25 | The end of the fade sets the loader's display to `none`. |
| PageScript.Page.CheckError | script.js:88-106 | The error check shows the error on a loader that is still displayed. |
| PageScript.Page.Dispatch | script.js:20-27 | Firing the first pending timer changes the loader and the queue as `Step` says. |

## Left out

- VersionRewrite.Stamp: the version is inserted literally. JavaScript would expand `$` patterns
  in a configured version. The shipped version `1.0` contains none.
- The model has no console output. It has no file system beyond a map from path to contents.
  A missing file is the `Missing` report instead of an error line.
- Texts are sequences of Dafny characters rather than UTF-16 code units. Reading and writing as
  UTF-8 is not modelled.
- The service worker's promises are not modelled, and neither is `waitUntil`. Each event handler
  is one atomic step.
- ServiceWorker.Worker.HandleFetch: the cache write of a miss is not awaited in the code. The
  model stores it before the next event, so it does not capture a request that overtakes the
  write. A failed write is not modelled.
- `skipWaiting` and `clients.claim` are flags on the worker. Their effect on the browser's
  worker lifecycle is outside the model.
- Requests are identified by their URL alone. Request methods, `Vary` headers, cloning and
  response bodies are not modelled.
- A rejected network fetch is a missing reply (`None`), passed on to the page.
- ServiceWorker.AddAll: the only failure is a resource delivered without an ok status, or with
  status 206. The other ways the platform rejects `addAll` are not modelled: duplicate requests,
  non-GET requests, and `Vary: *`.
- ServiceWorker.Worker.HandleMessage: a message without data throws in the code. The model
  treats the action as absent and changes nothing.
- The page's DOM is not modelled: the error message's markup, the retry button and the reload
  it triggers. The error is one flag on the loader.
- The resize debounce (100 ms) and the orientation-change delay (200 ms) are not modelled. Both
  only re-run `AdjustContainerSize`.
- The `touchmove` listener that prevents pinch zoom is not modelled.
- PageScript.AdjustContainerSize: the header and footer are assumed to exist.
- On a mobile page without a report frame, the code throws when it attaches the touchend listener
  (script.js line 122). By then the error check, the only timer of such a page, is already
  scheduled, so the timeline model is unaffected. The double-tap model assumes a frame.
- PageScript.ErrorShownIffNoFrame: the `.container` element is assumed to exist. Without it,
  `adjustContainerSize` throws during its first call (script.js line 70). That is before the
  error check is scheduled (line 110), so no error would ever show. The same holds for
  `LoaderHiddenIffFrame` on a page without a frame.
- PageScript.InitialTimers: a load event due at the same millisecond as a timer runs after that
  timer (`LoadEventAfterTies`). Browsers do not fix this order between an event and a timer.
- URLs are not resolved. A relative URL of the bootstrap list stands for the URL the browser
  resolves it to. `NoInitialResourceExcluded` reads the list as written, so it assumes the
  viewer is not deployed under a URL that contains `powerbi.com`.
- Clock readings and the user agent are parameters.
