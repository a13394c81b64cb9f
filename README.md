# Breathing pacer: phase cycler and offline cache, modelled in Dafny

The breathing pacer is a single web page. It shows four breathing phases in a
fixed loop and counts cycles. A service worker keeps the page's assets
available offline. This project models the two pieces of logic in it and
proves their properties:

- `breathing.dfy`, module `Breathing` (script.js). `startBreathingCycle`
  captures the four phase durations once. It keeps a phase index into `PHASES`
  and a cycle counter, and runs `nextPhase`. `nextPhase` publishes the current
  phase name. It arms one timer for that phase's dwell. It bumps and publishes
  the counter when the index is 0. When the timer fires, the index advances
  modulo 4 and `nextPhase` runs again. The module has two layers:
  - pure functions giving the state after any number of timer firings
    (`AfterTicks`), with the lemmas about them;
  - the class `BreathingCycle`, whose fields are the closure variables.
    Its constructor `Start` is `startBreathingCycle`, and `Tick` is one timer
    firing. Its invariant `Valid()` ties the fields to `AfterTicks`.
- `offline_cache.dfy`, module `OfflineCache` (sw.js). The class
  `CacheStorage` models Cache Storage. It holds a map from cache name to
  cache (request path to response) and the cache names in creation order.
  - `Install` opens `breathing-v3` and adds every asset to it.
  - `Activate` deletes, one by one, every cache not named `breathing-v3`.
  - `Fetch` is a function that reads the storage. It returns the first cached
    response and falls back to the network.
  The network is a function parameter `string -> R`. Responses have an opaque
  type `R`.

What script.js does, and so what the model does:
- It counts cycles begun, so the counter reads 1 before any timer fires.
- It reads the durations once, at start.
- It arms a zero duration like any other.
- It has no pause/resume, no counter reset and no session timer.
- It has no fallback for a non-numeric field.

## Model

| member | source | states |
|---|---|---|
| `Breathing.PhaseEntered` | script.js:43-46 | definition of `nextPhase`'s effect on the index and counter (the counter is bumped when the index is 0); its properties are stated by `TickStep`, `ClosedForm` and `PhaseOrder` |
| `Breathing.TimerFired` | script.js:42 | definition of one timeout callback (advance the index modulo 4, then `nextPhase`); its properties are stated by `TickStep`, `ClosedForm` and `PhaseOrder` |
| `Breathing.AfterTicks` | script.js:35-49 | definition of the closure state after k timer firings since start; its properties are stated by `ClosedForm`, `TickStep`, `CountNeverDecreases`, `FourTicksOneCycle` and `PhaseOrder` |
| `Breathing.Started` | script.js:35-49 | right after start the index is 0 and the counter is already 1, because `nextPhase` runs once with index 0 |
| `Breathing.ClosedForm` | script.js:42-46 | after k timer firings the index is k mod 4 and the counter is k div 4 + 1 (cycles begun) |
| `Breathing.IndexInRange` | script.js:42 | the phase index always stays within the four phases |
| `Breathing.TickStep` | script.js:42-46 | each firing sets the index to (index + 1) % 4; the counter grows by exactly 1 when the new index is 0 and is unchanged otherwise (the step rule of `AfterTicks`, i.e. `TimerFired` and `PhaseEntered` unfolded once) |
| `Breathing.CountNeverDecreases` | script.js:43-45 | the counter after j firings is at most the counter after any k >= j firings |
| `Breathing.FourTicksOneCycle` | script.js:42-46 | every four firings return the index to where it was and add exactly one to the counter |
| `Breathing.ShownAfter` | script.js:40-41 | the phase published after any number of firings is one of the names in `PHASES` |
| `Breathing.PhaseOrder` | script.js:23-42 | the first published phase is inhale; after k firings it is `PHASES[k % 4]`; each next one is the independently written `Successor` of the previous (inhale, inhale_hold, exhale, exhale_hold, inhale, ...) |
| `Breathing.CaptureDurations` | script.js:27-33 | the durations record has exactly the four phase names as keys; the four lookups spell out which form field each phase is keyed to |
| `Breathing.BreathingCycle.Start` | script.js:25-49 | after start the durations are those captured from the form; index 0, counter 1; inhale and 1 are published; exactly one timer is pending, with the inhale dwell |
| `Breathing.BreathingCycle.NextPhase` | script.js:38-47 | publishes `PHASES[index]`, appends one timer with that phase's captured dwell, and increments and publishes the counter exactly when the index is 0 |
| `Breathing.BreathingCycle.Tick` | script.js:42 | the fired timer is gone and exactly one new one is pending, with the new phase's captured dwell; the index becomes (index + 1) % 4; the counter grows by 1 exactly on index 0; the published phase is the successor of the previous one; after `ticks` firings the index is ticks mod 4 and the counter ticks div 4 + 1; the durations never change |
| `OfflineCache.Without` | sw.js:23 | `keys.filter(k => k !== x)`: exactly the elements other than x survive, a list without repeats stays without repeats, and a list without x is returned unchanged |
| `OfflineCache.WithoutMultiset` | sw.js:23 | the filter drops every occurrence of x and keeps every other name exactly as often as it occurs |
| `OfflineCache.WithoutSingleton` | sw.js:23 | a one-name list keeps its name exactly when it is not x |
| `OfflineCache.WithoutConcat` | sw.js:23 | the filter distributes over concatenation, so with `WithoutSingleton` the survivors keep their original order |
| `OfflineCache.AddAll` | sw.js:13 | `cache.addAll`: the cache gains every path, each with the network's response for it, and keeps its entries for other paths |
| `OfflineCache.AfterInstall` | sw.js:11-16 | after install the cache `breathing-v3` exists and holds the network's response for every asset; its other entries are kept; its key set is exactly its old keys (none if it is new) plus the assets; every other cache is untouched |
| `OfflineCache.Match` | sw.js:33 | `caches.match`: no answer exactly when no stored cache holds the request; otherwise the response of the first cache, in creation order, that holds it |
| `OfflineCache.AfterActivate` | sw.js:21-23 | after activate every remaining cache is named `breathing-v3`; that cache, if it existed, is kept with its contents unchanged; every surviving cache is unchanged |
| `OfflineCache.ActivateIdempotent` | sw.js:21-23 | activating a second time leaves the same caches as activating once |
| `OfflineCache.AssetsServedAfterUpgrade` | sw.js:1-33 | after install followed by activate, every asset is found in the cache with the response install stored for it |
| `OfflineCache.ActivateOutcome` | sw.js:21-23 | deleting every filtered key leaves exactly `AfterActivate`, and the name list is then just `breathing-v3` when it existed and empty otherwise |
| `OfflineCache.CacheStorage.Open` | sw.js:13 | `caches.open`: returns the named cache, creating it empty and listing it last when absent; nothing else changes |
| `OfflineCache.CacheStorage.Delete` | sw.js:23 | `caches.delete`: the named cache is removed from the map and from the name list; reports whether it existed |
| `OfflineCache.CacheStorage.Install` | sw.js:11-16 | the new storage is `AfterInstall` of the old one; `breathing-v3` is listed last if it was new; the storage invariant is kept |
| `OfflineCache.CacheStorage.Activate` | sw.js:19-28 | deleting the filtered keys one at a time leaves `AfterActivate` of the old storage, listed as just `breathing-v3` when it existed and as nothing otherwise |
| `OfflineCache.CacheStorage.Fetch` | sw.js:31-35 | on a miss in every cache the answer is the network's response; on a hit it is the response of the first cache holding the request; being a function, it writes nothing back |
| `OfflineCache.FetchHitIgnoresNetwork` | sw.js:33 | on a hit the network is not consulted: any two networks give the same answer |
| `OfflineCache.FetchServesCurrentCache` | sw.js:33 | once only `breathing-v3` is left, a path it holds is served from it whatever the network would answer |

## Left out

- The page's DOM effects (`dataset.phase`, the counter's `textContent`) are modelled only as the published values `shownPhase` and `shownCount`.
- Real timing is not modelled: `setTimeout`, the conversion of seconds to milliseconds and `parseFloat`. A duration has an opaque type `D`, and a timer firing is an abstract `Tick`. A NaN from a non-numeric field is not handled by the script, so no fallback is modelled.
- The settings in local storage are not modelled: loading them with `JSON.parse` into the form and saving them on submit (script.js:6-20). This is browser storage and form plumbing. `Start` receives the four form values as parameters.
- The service-worker lifecycle and promise plumbing are not modelled: `waitUntil`, `skipWaiting`, `clients.claim`, `respondWith`. The deletes issued by `Promise.all` in activate are modelled as running one after another; they touch different caches, so the final state is the same.
- `addAll` atomicity is not modelled: every asset fetch is taken to succeed. A network failure is just one of the values of `R`, so a failed fetch on a miss is not told apart from a response.
- Request-matching rules of the Cache API are not modelled: a request is identified by its path string.
- Storage before the worker runs is whatever the constructor of `CacheStorage` is given. It stands for caches left behind by earlier versions.
