# URL shortener link store, modelled in Dafny

This project models the core of a single-machine URL shortener. The core is
the link service (`UrlShortenerService`) and the short-link record
(`ShortLink`). Each owner (a nickname) keeps a map from original URL to short
link. A link carries a short code, a click count, an optional click limit, a
creation time, an expiry time and an active flag. Every service operation
loads the whole data file, changes the loaded copy and saves it back.

The Dafny modules follow the source:

- `ShortLinks` (`short_link.dfy`) holds the record.
  - `ShortLink` is a class whose click count and active flag are updated in
    place.
  - `Link` is its value.
  - `ShortLink.Restore` rebuilds a saved record the way loading the data file
    does.
- `CodeGenerator` (`code_generator.dfy`) holds the three code generators, as
  methods with loops.
  - Digit extraction is specified by the function `Digits`.
  - The corrected generator `GenerateFreshCode` is here too.
- `LinkStore` (`link_store.dfy`) holds the value-level specification.
  - The store is a nested map, with `Put`, `RemoveEntry` and the sweep `Sweep`.
  - `Resolve` performs the checks of `getOriginalUrl` on one link.
  - `StatusOf` states the outcome of `getLinkStatus`.
  - The invariants the service keeps are: one link per (owner, URL) filed
    under its own owner and URL, no empty owner entry, unique codes, and
    clicks within limits.
- `Service` (`url_shortener_service.dfy`) holds the class
  `UrlShortenerService`.
  - Its field `userLinks` is the content of the data file, so reading and
    assigning it stand for loading and saving.
  - Each method states the new content as a function of the old, and states
    that it keeps `Consistent`.

Inputs from outside the program are modelled as follows:

- **Parameters:** the wall clock is the parameter `now`, and the time-to-live
  `ttl` is in the same unit.
- **Nondeterministic choices:** `SecureRandom.nextInt` is `NextInt`, and
  `System.currentTimeMillis` is `CurrentTimeMillis`.
- **Functions given to the service's constructor:** `String.hashCode` and the
  `java.net.URL` well-formedness test.
- **Error results:** exceptions become values of `Result`.

## Model

| member | source | states |
|---|---|---|
| ShortLinks.NewLink | src/main/java/com/urlshortener/model/ShortLink.java:18-28 | a new link has no clicks, is active, was created at `now`, keeps the given code, URL, owner, limit and expiry, and is unexpired exactly when `now <= expiresAt` |
| ShortLinks.ShortLink.constructor | src/main/java/com/urlshortener/model/ShortLink.java:18-28 | the constructed object's value is that new link |
| ShortLinks.ShortLink.IncrementClickCount | src/main/java/com/urlshortener/model/ShortLink.java:46-48 | the click count goes up by one and no other field changes |
| ShortLinks.ShortLink.SetActive | src/main/java/com/urlshortener/model/ShortLink.java:66-68 | the active flag takes the given value and no other field changes |
| ShortLinks.ExpiryIsPermanent | src/main/java/com/urlshortener/model/ShortLink.java:70-72 | a link expired at one time stays expired at every later time |
| ShortLinks.ExpiryBoundary | src/main/java/com/urlshortener/model/ShortLink.java:70-72 | expiry is strict: still valid at `expiresAt`, expired just after it |
| ShortLinks.LimitExceededMeaning | src/main/java/com/urlshortener/model/ShortLink.java:74-76 | no limit is never exceeded; a limit is exceeded once the count reaches it, and stays exceeded after a further click |
| LinkStore.InaccessibleStaysInaccessible | src/main/java/com/urlshortener/model/ShortLink.java:78-80 | a link that cannot be accessed now stays inaccessible at every later time after a resolution attempt; a resolution that succeeds on such a link leaves it inactive |
| CodeGenerator.Digits | src/main/java/com/urlshortener/service/UrlShortenerService.java:68-71 | digit extraction yields exactly `length` characters, all from the alphabet |
| CodeGenerator.EncodeSeed | src/main/java/com/urlshortener/service/UrlShortenerService.java:65-73 | the digit loop builds exactly `Digits(alphabet, seed, length)` |
| CodeGenerator.DigitsAt | src/main/java/com/urlshortener/service/UrlShortenerService.java:68-71 | character `i` of the code is digit `i` of the seed in base \|alphabet\| |
| CodeGenerator.DigitsCover | src/main/java/com/urlshortener/service/UrlShortenerService.java:68-71 | every code of a given length over the alphabet is the digit string of some seed below \|alphabet\|^length |
| CodeGenerator.GenerateShortCode | src/main/java/com/urlshortener/service/UrlShortenerService.java:56-74 | the code has the configured length, uses only the alphabet, and is the digit string of \|hash(nickname + url)\| plus a perturbation below 1000000 |
| CodeGenerator.GenerateRandomCode | src/main/java/com/urlshortener/service/UrlShortenerService.java:77-85 | the code has the configured length and uses only the alphabet |
| CodeGenerator.GenerateUniqueCode | src/main/java/com/urlshortener/service/UrlShortenerService.java:88-111 | at most ten passes of the retry loop; a code of the configured length is never an existing one and is the digit string of \|hash(nickname + url)\| or \|hash(nickname + url + clock reading)\| plus a perturbation below 1000000; the code of the last pass is content-derived; it is returned when it is not an existing code, and otherwise, only then and only after all ten passes, the code is the unchecked fallback of length codeLength + 2 |
| CodeGenerator.DuplicateFallbackWitness | src/main/java/com/urlshortener/service/UrlShortenerService.java:106-108 | with alphabet "a", length 2 and codes {"aa", "aaaa"} stored, the generator returns "aaaa", which is already stored |
| CodeGenerator.GenerateFreshCode | src/main/java/com/urlshortener/service/UrlShortenerService.java:88-111 | corrected generator: a returned code is never an existing one, uses the alphabet and has length codeLength or codeLength + 2, and one of length codeLength comes from a content-derived attempt; a code of length codeLength + 2, or a failure, comes only after a content-derived code collided with an existing one; it fails only when every code of length codeLength + 2 is taken |
| LinkStore.Put | src/main/java/com/urlshortener/service/UrlShortenerService.java:141-164 | storing a link under (owner, URL) creates the owner's map when missing, adds exactly that key, leaves every other entry as it was, and leaves every other owner's map unchanged |
| LinkStore.RemoveEntry | src/main/java/com/urlshortener/service/UrlShortenerService.java:263-269 | removing (owner, URL) removes exactly that entry, drops the owner exactly when nothing else of theirs is left, and leaves every other entry as it was |
| LinkStore.AllCodesMeaning | src/main/java/com/urlshortener/service/UrlShortenerService.java:114-122 | a code is in the collected set exactly when some stored link carries it |
| LinkStore.ResolveChecksExpiryFirst | src/main/java/com/urlshortener/service/UrlShortenerService.java:182-187 | an expired link is deactivated and not resolved, its click count unchanged, whatever its limit |
| LinkStore.ResolveRefusesAtLimit | src/main/java/com/urlshortener/service/UrlShortenerService.java:189-192 | an unexpired link at its limit is refused and left unchanged |
| LinkStore.ResolveCountsOneClick | src/main/java/com/urlshortener/service/UrlShortenerService.java:194-205 | otherwise the count rises by exactly one, the original URL is returned, and the link is deactivated exactly when this click reaches the limit |
| LinkStore.ResolveSucceedsIff | src/main/java/com/urlshortener/service/UrlShortenerService.java:173-206 | resolution returns a URL if and only if the link is unexpired and below its limit; an accessible link always resolves to its own URL |
| LinkStore.ResolveKeepsLimit | src/main/java/com/urlshortener/service/UrlShortenerService.java:194-200 | resolution never pushes the count past a limit, and a link whose count reached its limit ends inactive |
| LinkStore.ResolveTimesCount | src/main/java/com/urlshortener/service/UrlShortenerService.java:173-206 | k resolutions before expiry add k clicks without a limit, and min(k, remaining) clicks with one |
| LinkStore.LimitOfTwoExample | src/main/java/com/urlshortener/service/UrlShortenerService.java:189-200 | with limit 2 the first two resolutions succeed, the second deactivates the link, and the third is refused |
| LinkStore.StatusOf | src/main/java/com/urlshortener/service/UrlShortenerService.java:311-328 | a stored link's status is never "not found" |
| LinkStore.StatusAgreesWithResolve | src/main/java/com/urlshortener/service/UrlShortenerService.java:311-328 | the status is active exactly when resolution would succeed, expired exactly when past expiry, and exhausted exactly when resolution would refuse without a change |
| LinkStore.ResolvedIsDeterministic | src/main/java/com/urlshortener/service/UrlShortenerService.java:209-218 | with unique codes, whichever entry the search finds, resolving a code has a single outcome |
| LinkStore.ResolvePreservesConsistent | src/main/java/com/urlshortener/service/UrlShortenerService.java:173-206 | resolving a stored link keeps every store invariant |
| LinkStore.CreatePreservesConsistent | src/main/java/com/urlshortener/service/UrlShortenerService.java:154-169 | inserting a link under a fresh code and a new (owner, URL) keeps every store invariant |
| LinkStore.PutKeepsShape | src/main/java/com/urlshortener/service/UrlShortenerService.java:141-164 | filing a link under its own owner and URL, within its limit, keeps keys matching, no empty owner, and clicks within limits |
| LinkStore.PutFreshCodeKeepsUnique | src/main/java/com/urlshortener/service/UrlShortenerService.java:154-164 | a link whose code no link carries, put under a new key, keeps codes unique |
| LinkStore.CreateThenResolve | src/main/java/com/urlshortener/service/UrlShortenerService.java:155-205 | after creation the new code names exactly one link, and resolving it before expiry returns the original URL unless the limit is zero or less |
| LinkStore.RemovePreservesConsistent | src/main/java/com/urlshortener/service/UrlShortenerService.java:263-269 | removing one entry keeps every store invariant |
| LinkStore.DeleteThenNotFound | src/main/java/com/urlshortener/service/UrlShortenerService.java:263-269 | with unique codes, after removing a link no stored link carries its code |
| LinkStore.Sweep | src/main/java/com/urlshortener/service/UrlShortenerService.java:278-308 | after the sweep no expired link remains; every unexpired link is kept unchanged; empty owners are gone when anything was removed; the store is untouched when nothing was expired |
| LinkStore.SweepIsIdempotent | src/main/java/com/urlshortener/service/UrlShortenerService.java:278-308 | a second sweep at the same time changes nothing |
| LinkStore.SweepPreservesConsistent | src/main/java/com/urlshortener/service/UrlShortenerService.java:278-308 | the sweep keeps every store invariant |
| Service.NormalizeUrlMeaning | src/main/java/com/urlshortener/service/UrlShortenerService.java:131-133 | a normalised URL always has an http or https scheme and is never blank; a URL that already has a scheme is unchanged; otherwise https:// is prepended; normalising twice is the same as once |
| Service.UrlShortenerService.constructor | src/main/java/com/urlshortener/service/UrlShortenerService.java:24-26 | the service starts with an empty, consistent store and the given configuration |
| Service.UrlShortenerService.GetAllExistingCodes | src/main/java/com/urlshortener/service/UrlShortenerService.java:114-122 | the result is exactly the set of codes carried by stored links |
| Service.UrlShortenerService.FindLinkByCode | src/main/java/com/urlshortener/service/UrlShortenerService.java:209-218 | a returned place holds a link with the code; none is returned only when no stored link carries it |
| Service.UrlShortenerService.CreateShortLink | src/main/java/com/urlshortener/service/UrlShortenerService.java:125-170 | the URL is rejected as empty exactly when it is blank, and as malformed exactly when it is not blank and its normalised form is not well formed; every failure leaves the store unchanged; an existing (owner, URL) yields the base URL plus its code with no change; capacity is exceeded only when every code of length codeLength + 2 is taken; otherwise the store gains exactly one link, with a fresh code over the alphabet (content-derived when of the configured length, and of length codeLength + 2 only after a content-derived code collided), no clicks, active, and expiring `ttl` after `now`, and the result is the base URL plus that code; every store invariant is kept |
| Service.UrlShortenerService.GetOriginalUrl | src/main/java/com/urlshortener/service/UrlShortenerService.java:173-206 | an unknown code yields none and changes nothing; otherwise the found link is replaced by its resolution and the result is the resolution's URL; every store invariant is kept |
| Service.UrlShortenerService.GetUserLinks | src/main/java/com/urlshortener/service/UrlShortenerService.java:232-236 | an unknown owner gets an empty list; otherwise the list has one element per stored link and holds exactly the owner's links |
| Service.UrlShortenerService.DeleteLink | src/main/java/com/urlshortener/service/UrlShortenerService.java:239-275 | only the requester's own links are searched; a deletion removes exactly one entry with that code (pruning an owner left empty), and a refusal changes nothing; with keys matching, the result is true exactly when the requester owns a link with that code; every store invariant is kept |
| Service.UrlShortenerService.RemoveExpiredLinks | src/main/java/com/urlshortener/service/UrlShortenerService.java:278-308 | the saved store is exactly the sweep of the loaded one (saved only when something expired), and every store invariant is kept |
| Service.UrlShortenerService.GetLinkStatus | src/main/java/com/urlshortener/service/UrlShortenerService.java:311-328 | not found exactly when no link carries the code; otherwise the status of a link that carries it |

## Left out

- **Concurrency.** The model has no concurrency. The file locks and the
  lost-update race between concurrent load/mutate/save cycles are not
  modelled, and neither is the background sweep timer (TTLService). Every
  call runs alone, as one transaction.
- **File storage.** JSON serialisation (Gson) and the file-storage service are
  not part of this model. Neither is the swallowing of save errors: a save
  always succeeds.
- **The rest of the program.** The text menu (Main), the configuration
  loading and the active-user counter are not part of this model.
- **Object identity across calls.** Each call in the source loads fresh
  objects, so the model stores values. `GetUserLinks` returns copies, and
  `GetOriginalUrl` works on a restored `ShortLink` that it writes back.
  Aliasing between the objects of one loaded graph is not modelled.
- **Iteration order.** Map iteration order is a nondeterministic choice.
  The specifications state what holds for every order.
- **Java null.** A null URL, a null nickname and the null returned by
  `findLinkByCode` are not representable. The last becomes `None`.
- `Service.UrlShortenerService.CreateShortLink`:
  - The source reads the clock twice, once for `expiresAt` and once for
    `createdAt`. The model uses one reading, so `expiresAt = createdAt +
    ttl` exactly.
  - `generateUniqueCode` reloads the file. In a sequential model that load
    returns the same content.
  - The blank re-check inside `validateUrl` can never fire after
    normalisation (`Service.NormalizeUrlMeaning`), so it is not modelled.
  - It uses the corrected generator. It therefore has the extra error
    `CapacityExceeded`, which the source as written never returns (see
    Findings).
- `Service.UrlShortenerService.RemoveExpiredLinks`: the model takes one clock reading, `now`, for the whole sweep. In the source each `isExpired()` call reads the clock again, so links in one sweep are checked at slightly different times.
- `Service.UrlShortenerService.GetLinkStatus`: returns a `LinkStatus` value
  instead of the formatted message text.
- `CodeGenerator.GenerateShortCode`: the seed is `|hash| + r` over unbounded
  integers. Java's 32-bit overflow of that sum is not modelled, and neither
  is `Math.abs(Integer.MIN_VALUE)` being negative. In Java these could give a
  negative seed, and then a negative index into the alphabet.
- `ShortLinks.ShortLink.IncrementClickCount`: the count is unbounded. Java's
  `int` overflow is not modelled.
- `CodeGenerator.GenerateUniqueCode`: which attempt produced a returned code
  (the plain one or the one with the clock reading appended) is not stated,
  only that it is one of them. The randomness of codes is not stated, only
  that any outcome satisfies the contract.

## Findings

| source | as written | input that shows it | evidently intended | confidence | as-written member | corrected member |
|---|---|---|---|---|---|---|
| src/main/java/com/urlshortener/service/UrlShortenerService.java:106-108 | when every content-derived code collides, the random fallback `generateRandomCode() + generateRandomCode().substring(0, 2)` is returned without checking it against the existing codes | alphabet "a", code length 2, stored codes {"aa", "aaaa"}: every attempt yields "aa", and the fallback can only be "aaaa", which is already stored | a code not in use, or a capacity error when none is left | not executed | CodeGenerator.DuplicateFallbackWitness | CodeGenerator.GenerateFreshCode |
