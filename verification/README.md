# URL shortener: verified model

A Dafny 4.11 model of the four hand-written algorithms of the URL shortener server, with proofs about
whole runs of them.  `dafny verify dfyconfig.toml` checks the project.

1. **The slug store.**  A slug is a window of the base-b digits of a 256-bit hash (`Digits`,
   `UrlShortening`).  A create probes the windows of its URL in the database until one is free or
   already holds the URL (`SlugStore`): an open-addressing hash table without deletion.  `StoreRuns`
   proves the permanence of redirects over whole runs, `ConcurrentCreates` says what survives when
   workers interleave, `RequestPaths` models path parsing and routing, and `EndToEnd` joins a create
   to a later visit.
2. **Static file streaming.**  A reader thread and an event loop that exchange a queue of events
   (`StaticStreaming`), the handler object (`StaticHandler`), the cache filled on the way
   (`StaticCache`), and the path checks (`StaticPaths`).
3. **The rate limiter** (`RateLimiter`): a table of counts in a recycled window, and what it admits.
4. **Configuration parsers** (`AppConfig`): the hexadecimal hash key and comma-separated lists.

Methods and classes follow the code that updates variables in place; each is proved against a function,
and the results about runs are lemmas about these functions.

## What is assumed

- The hash is any function from URLs to four 64-bit words; a URL always has the same hash.
- A database operation is atomic and either works or fails without effect; `Faults` says which fail.
- A configured alphabet has 2 to 58 characters and a slug length is 1 to 255.  `DoShortenUrl` is called
  with a non-empty URL, as its only caller does; `StoreRuns.Apply` answers the empty one.
- A request path and a document root are not empty.
- Clock readings are parameters.  Where a clock must not go back (`Forward`), or where the window at
  hand must hold fewer than 2^32 accesses, a lemma says so.  Runs and their number of windows are unbounded.
- The theorems about the store hold for any probe sequence whose slugs are not empty and whose
  hundredth try fails (`Probes.Safe`).  That a policy is of this kind is proved, not assumed
  (`ExhaustingIsSafe`), and `NeverOverwritesIff` shows that nothing less will do.

## Where the code differs from what it says or intends

- `generate_slug` gives up when the word index is *above* four (url_shortening.cc:132).  The model gives
  up *at* four.  `GuardAsWritten` proves that the two agree on every request the hash can serve, and
  that on every other one the written guard reads past the four words.  `CreateReadsPastIff` says when a
  create gets there: database errors aside, exactly when the model's create answers nothing because the candidates ran out.
- The configured alphabet counts only by its length; symbols come from the built-in one
  (url_shortening.cc:122 and 138).  `SlugsStayInIff` says when slugs still are words over the configured
  alphabet.
- Reading and writing a slug are two steps, and creates run on several threads.  Concurrent creates of
  some URLs never lose an entry, in any interleaving, exactly when no two of the URLs would alone be answered
  one slug (`ConcurrentCreates.PermanentIff`).
- A file is cached chunk by chunk while it streams, so that two responses for one path can both append and a
  stopped one leaves a part.  `SettledIff`, `OverlapIff` and `AloneIff` say exactly when the cache is right.
- Probing starts at try 2, because the counter is incremented before its first use
  (make_url_request_handler.cc:216-220).
- After 100 colliding tries the loop falls through to the write (line 255) and overwrites.  With slugs of
  length 3 or more, of length 2 over at least 3 symbols, or of length 1 over at least 7, this cannot
  happen; with any other policy it can (`ExhaustingIff`, `NeverOverwritesIff`, `OverwrittenRun`).
- `onEgressResumed` starts a reader without setting `read_file_scheduled_` (static_handler.cc:165-169).
  `StaticStreaming` takes this as the parameter `mark` and proves its results for both variants.  A run is
  correct throughout exactly when no callback of it *races*: resumes an open file, or finishes the
  request, while the flag is unset although a reader or its final event is outstanding (`CorrectIff`).
  With the flag set on resuming no run races (`MarkedIsRaceFree`); for the code as written two runs show the
  handler deleted under its reader and bytes sent out of order.
- The comment in `create_highwayhash_key` says little-endian; the code reads a big-endian value.
- The configuration calls the limit one per minute.  The code divides by whole minutes of the window and
  does not limit the window's first second at all (`FirstSecondAdmitted`).

## Model

| member | source | states |
|---|---|---|
| `UrlShortening.GenerateSlug` | url_shortener/url_shortening.cc:115-143 | the try succeeds exactly when its window of digits exists, and then `dst` is that window as symbols; zero tries leave `dst` alone; a failed try leaves the digits after the last whole window |
| `UrlShortening.AppendDigits` | url_shortener/url_shortening.cc:127-140 | one try succeeds exactly when enough digits remain, appends their symbols, and leaves the words holding exactly the digits not taken; a failed one appends all that remain |
| `UrlShortening.CandidateIsFetched` | url_shortener/url_shortening.cc:119-141 | the slugs told by the digit loop with the guard as written alone: try n exists if and only if the loop gets n * L digits out of the four words, from the first word on, and its slug is the last L of them as symbols |
| `UrlShortening.TakeDigit` | url_shortener/url_shortening.cc:128-139 | the word rules (first word by its digits, later words at least one digit) are what one pass of the in-place division does |
| `UrlShortening.WindowIs` | url_shortener/url_shortening.cc:124-141 | try n exists exactly when n * L digits do, and is digits (n-1)*L to n*L; so failure is monotone in n |
| `UrlShortening.GuardAsWritten` | url_shortener/url_shortening.cc:129-136 | the guard `> 4` reads past the words exactly when more digits are asked for than exist; the guard `>= 4` gives up exactly then; otherwise both give the stream's prefix |
| `UrlShortening.StreamBound` | url_shortener/url_shortening.cc:124-141 | a hash supplies at most four times the digits of the largest word, and some hash supplies that many |
| `UrlShortening.Base58Words` | url_shortener/url_shortening.cc:13-14 | a 64-bit word has at most 11 base-58 digits, four words at most 44 |
| `UrlShortening.ExhaustingIff` | url_shortener/make_url_request_handler.cc:216-218 | exactly which alphabet sizes and slug lengths make the hundredth try fail for every hash |
| `UrlShortening.ExhaustingIsSafe` | url_shortener/make_url_request_handler.cc:216-218 | such a policy gives probes with non-empty slugs and a failing hundredth try |
| `UrlShortening.SlugsStayInIff` | url_shortener/url_shortening.cc:122-138 | all slugs of all policies with an alphabet are words over it if and only if it holds the first built-in symbols |
| `UrlShortening.GenerateShortenedUrl` | url_shortener/url_shortening.cc:95-102 | the loop computes the seven low base-58 digits of the hash as symbols |
| `UrlShortening.DecodeShortenedUrl` | url_shortener/url_shortening.cc:95-102 | reading the seven characters back gives the hash modulo 58^7 = 2207984167552 |
| `UrlShortening.SameShortenedUrl` | url_shortener/url_shortening.cc:95-102 | two hashes share a fixed-length slug if and only if they are congruent modulo 58^7 |
| `Digits.ValueOf` | url_shortener/url_shortening.cc:137-139 | the digits that repeated division yields stand for the number |
| `Digits.LengthBound` | url_shortener/url_shortening.cc:137-139 | a number has at most k digits if and only if it is below b^k |
| `Digits.ValueFixed` | url_shortener/url_shortening.cc:97-101 | k digits of repeated division stand for the number modulo b^k |
| `SlugStore.ShortenedUrlsDatabase.Get` | url_shortener/db.cc:91-115 | the entry, a missing key as an error of its own, or the failure |
| `SlugStore.ShortenedUrlsDatabase.Put` | url_shortener/db.cc:69-89 | the entry is set, or the failure is reported and nothing changes |
| `SlugStore.DoShortenUrl` | url_shortener/make_url_request_handler.cc:212-262 | the loop's answer and the new database are those of `Shorten`, for every policy, store and pattern of failures |
| `SlugStore.CreateReadsPastIff` | url_shortener/make_url_request_handler.cc:218-227 | with the guard as written, some try of a create reads past the hash words if and only if the create with the intended guard answers nothing |
| `SlugStore.LoopEnds` | url_shortener/make_url_request_handler.cc:216-218 | with a safe policy the loop ends by one of its exits, never by running out of tries |
| `SlugStore.CreateKeepsEntries` | url_shortener/make_url_request_handler.cc:212-262 | no create changes a non-empty entry; a failed one changes nothing; a successful one sets exactly the answered slug |
| `SlugStore.NeverOverwritesIff` | url_shortener/make_url_request_handler.cc:216-255 | for an alphabet and a slug length: no create under any hash, store and failures overwrites an entry if and only if the exhaustion bound holds |
| `SlugStore.OverwriteExample` | url_shortener/make_url_request_handler.cc:254-255 | for every policy outside the bound, a store and a hash for which a create does overwrite |
| `SlugStore.AnswerIsCandidate` | url_shortener/make_url_request_handler.cc:218-261 | an answered slug is a candidate of the URL from try 2 on |
| `SlugStore.CreateKeepsChain` | url_shortener/make_url_request_handler.cc:218-261 | every create keeps the invariant that each stored pair ends a probe chain of its URL whose earlier candidates hold other URLs |
| `SlugStore.ChainedInjective` | url_shortener/make_url_request_handler.cc:243-247 | under the chain invariant no URL has two slugs |
| `SlugStore.Recreate` | url_shortener/make_url_request_handler.cc:243-247 | creating a stored URL answers its slug and changes nothing, read failures aside |
| `SlugStore.ProbingComplete` | url_shortener/make_url_request_handler.cc:218-261 | without failures the answer is the first usable candidate, and it is empty exactly when other URLs hold every candidate the hash supplies |
| `SlugStore.FaultEnds` | url_shortener/make_url_request_handler.cc:221-260 | a read that fails at the first try not taken by another URL, or a write that fails there, ends the create without answer and without effect |
| `SlugStore.LastTryWrites` | url_shortener/make_url_request_handler.cc:217-255 | when tries 2 to 99 are taken by other URLs, the create writes the slug of try 100, whatever it holds |
| `StoreRuns.RunKeeps` | url_shortener/make_url_request_handler.cc:212-262 | over any part of any run, non-empty entries stay and the chain invariant stays |
| `StoreRuns.SlugPermanent` | url_shortener/make_url_request_handler.cc:212-262 | once a slug is answered for a URL, the store maps it to that URL in every later state of every run |
| `StoreRuns.RedirectPermanent` | url_shortener/url_shortener_handler.cc:34-74 | every later redirect of an answered slug goes to its URL, which is what a 301 promises (section 15.4.2 of RFC 9110) |
| `StoreRuns.CreateAgain` | url_shortener/make_url_request_handler.cc:243-247 | after any requests in between, creating the URL again answers the same slug and changes nothing, read failures aside |
| `StoreRuns.SlugsIdentifyUrls` | url_shortener/make_url_request_handler.cc:212-262 | two creates of a run get the same slug if and only if they ask for the same URL |
| `StoreRuns.EntriesWereAnswered` | url_shortener/make_url_request_handler.cc:255-261 | every entry was there at the start or was answered to a create of that URL |
| `StoreRuns.RedirectAnswers` | url_shortener/url_shortener_handler.cc:49-74 | on a store that began empty a redirect moves if and only if a create was answered its slug, is not found if and only if none was or the database fails, and is a bad request if and only if it names no slug |
| `StoreRuns.CreateAnswers` | url_shortener/make_url_request_handler.cc:307-313 | without failures a create is refused if and only if it has no URL or other URLs hold all its candidates |
| `StoreRuns.OverwrittenRun` | url_shortener/make_url_request_handler.cc:254-255 | a run with a policy outside the bound in which a second create takes over the first one's slug |
| `ConcurrentCreates.PutRace` | url_shortener/make_url_request_handler.cc:228-255 | in every interleaving a worker about to write finds its slug taken if and only if another worker wrote it after this worker's read, and it replaces a URL if and only if the last such write was for another URL |
| `ConcurrentCreates.RaceLosesEntry` | url_shortener/make_url_request_handler.cc:228-255 | two URLs with one first candidate: an interleaving answers both creates and keeps only one entry |
| `ConcurrentCreates.StepAdvances` | url_shortener/make_url_request_handler.cc:218-261 | each step of a worker brings it nearer to its answer, no other step changes it, and a failing one answers nothing at once and leaves the store alone |
| `ConcurrentCreates.AnsweredAfterOwnSteps` | url_shortener/make_url_request_handler.cc:216-261 | in every interleaving a create is answered after at most 99 reads and a write of its own, whatever the others do |
| `ConcurrentCreates.OneUrlOneSlug` | url_shortener/make_url_request_handler.cc:333-339 | any number of concurrent creates of one URL answer the slug and leave the store of a single create |
| `ConcurrentCreates.EffectIsSerial` | url_shortener/make_url_request_handler.cc:228-255 | a step that completes a create, by success or failure, without replacing a URL does what the whole create does alone at that moment |
| `ConcurrentCreates.CleanRunIsSerial` | url_shortener/make_url_request_handler.cc:228-255 | an interleaving in which no write replaces a URL has the store and the answers of a serial run of its creates, failed ones included |
| `ConcurrentCreates.CleanRunAnswers` | url_shortener/make_url_request_handler.cc:228-261 | in such an interleaving two answered slugs are equal if and only if the URLs are |
| `ConcurrentCreates.PermanentIff` | url_shortener/make_url_request_handler.cc:228-255 | for any set of URLs and any store: entries are kept through all interleavings of any creates of these URLs, with any failures, if and only if no two of the URLs would alone be answered one slug |
| `ConcurrentCreates.UncontendedIsClean` | url_shortener/make_url_request_handler.cc:333-339 | creates of URLs that do not contend run as in a serial run, whatever the interleaving |
| `RequestPaths.IsOkRequestPath` | url_shortener/url_shortening.cc:19-33 | true exactly for at most 1000 characters of the alphabet |
| `RequestPaths.FindSymbol` | url_shortener/url_shortening.cc:24-27 | the scan ends inside the alphabet exactly for its symbols |
| `RequestPaths.SymbolIff` | url_shortener/url_shortening.cc:13-14 | the symbol ranges are the 58 characters of the alphabet |
| `RequestPaths.SlugSymbols` | url_shortener/url_shortening.cc:137-138 | every slug that is generated consists of symbols |
| `RequestPaths.ParseOutRequestStr` | url_shortener/url_shortening.cc:35-64 | the scan computes `Parsed` |
| `RequestPaths.ParsedIff` | url_shortener/url_shortening.cc:35-64 | a path parses to a slug if and only if it is a slash and the slug, alone or followed by `?` and anything, and not too long |
| `RequestPaths.RedirectIff` | url_shortener/web_server.cc:75-109 | a request is routed to the redirect of a slug if and only if it is a GET of a path of that slug that the frontend does not serve |
| `RequestPaths.MakeUrlIff` | url_shortener/web_server.cc:92-100 | a request creates a short URL if and only if it is a POST or PUT of "/api/v1/create" and the frontend does not hold that file |
| `RequestPaths.StaticFilesIff` | url_shortener/web_server.cc:87-91 | a request is for static files if and only if it is a GET below "/static/" that the frontend does not hold |
| `RequestPaths.FrontendIff` | url_shortener/frontend_handler.cc:61-84 | the frontend serves a key if and only if it holds it and the path is the slash and the key, or a directory whose index page is the key |
| `EndToEnd.ShortenThenVisit` | url_shortener/web_server.cc:84-107 | after a create, in every later state of every run, each path of the slug redirects to the URL unless the frontend has that path |
| `EndToEnd.VisitWasCreated` | url_shortener/web_server.cc:101-107 | conversely a visit leads only to a URL whose create was answered the slug that the path names |
| `StaticStreaming.StepKeepsSafe` | url_shortener/static_handler.cc:116-208 | every step of every thread but a racing callback keeps one reader and pending bytes that continue the sent ones in file order, with or without marking |
| `StaticStreaming.StreamingSafe` | url_shortener/static_handler.cc:108-208 | in every interleaving without a race: at most one reader or final event, deletion only when there is none, sent bytes a prefix of the file, at most one end, and a complete end only after the whole file |
| `StaticStreaming.CorrectIff` | url_shortener/static_handler.cc:108-208 | for the code as written and with marking: a run is correct in this sense at every moment if and only if no callback of it races |
| `StaticStreaming.MarkedIsRaceFree` | url_shortener/static_handler.cc:108-173 | with the flag set on resuming, in every interleaving the flag is set exactly while a reader or final event is outstanding, and nothing races |
| `StaticStreaming.NoLostWakeup` | url_shortener/static_handler.cc:147-173 | with or without the flag set on resuming, an open file that is neither paused nor finished has a reader or a final event coming, and so has a finished handler until it is deleted |
| `StaticStreaming.InternalStepWorks` | url_shortener/static_handler.cc:119-155 | a measure of remaining bytes, reader and queued events falls with every step of the reader or the event loop, with or without marking |
| `StaticStreaming.ResponseCompletes` | url_shortener/static_handler.cc:116-173 | from every state reached without a race, with no further callbacks, runs are bounded by the measure, and a run that cannot go on has ended the response once: with an abort if some read failed, and else with the whole file |
| `StaticStreaming.FinishedIsDeleted` | url_shortener/static_handler.cc:148-208 | in every run, with or without races, a finished handler without readers and events is deleted |
| `StaticStreaming.FinishedEnds` | url_shortener/static_handler.cc:148-208 | from every finished state reached without a race, with no further callbacks, runs are bounded by the measure, and a run that cannot go on has deleted the handler |
| `StaticStreaming.PauseStops` | url_shortener/static_handler.cc:119-198 | after a pause, or the end of the request, at most one more read happens before the next callback, and only by a reader past its test |
| `StaticStreaming.ResumeGoesOn` | url_shortener/static_handler.cc:162-173 | a resume of an unfinished response reaches a state from which it completes |
| `StaticStreaming.CompletingRun` | url_shortener/static_handler.cc:116-173 | a run of the reader and the event loop that cannot go on exists from every such state |
| `StaticStreaming.DeliveryContinues` | url_shortener/static_handler.cc:131-144 | in every interleaving without a race the next chunk to be sent is not empty and is the next part of the file, and an end is sent only after the whole file |
| `StaticStreaming.UnmarkedDeletedEarly` | url_shortener/static_handler.cc:162-208 | as written, a run that deletes the handler while its reader is queued |
| `StaticStreaming.UnmarkedMisorders` | url_shortener/static_handler.cc:116-173 | as written, a run with two readers that sends the two bytes of a file in the wrong order |
| `StaticHandler.Handler.OnRequest` | url_shortener/static_handler.cc:100-113 | the request of a file that could be opened starts one marked reader |
| `StaticHandler.Handler.OnEgressPaused` | url_shortener/static_handler.cc:157-160 | is the protocol's pause step |
| `StaticHandler.Handler.OnEgressResumed` | url_shortener/static_handler.cc:162-173 | is the protocol's resume step |
| `StaticHandler.Handler.CheckForCompletion` | url_shortener/static_handler.cc:201-208 | deletes exactly when finished with no reader scheduled, and reports it |
| `StaticHandler.Handler.RequestComplete` | url_shortener/static_handler.cc:187-199 | is the protocol's finish step |
| `StaticHandler.Handler.RunNextEvent` | url_shortener/static_handler.cc:125-154 | running the next posted event is the protocol's delivery step |
| `StaticHandler.Handler.PostRead` | url_shortener/static_handler.cc:121-145 | acting on a read of the only reader is one read step and one post step of the protocol |
| `StaticHandler.Handler.ReadFile` | url_shortener/static_handler.cc:116-155 | the reader's loop is a run of reader steps and leads to `AfterReading` of the values that its reads return |
| `StaticHandler.ReadingIs` | url_shortener/static_handler.cc:116-155 | `AfterReading` of an open file that is not paused posts chunks of the sizes read, which make up the file from the first offset to the last, then an abort if and only if the read there failed, or an end at the end of the file, and the final event; else it posts the final event alone |
| `StaticCache.StaticFileCache.GetCopy` | url_shortener/static_handler.cc:218-225 | the cached bytes, and an empty file for a missing path |
| `StaticCache.StaticFileCache.Set` | url_shortener/static_handler.cc:252-267 | an entry is inserted but never replaced |
| `StaticCache.StaticFileCache.AppendData` | url_shortener/static_handler.cc:232-250 | bytes are appended to the entry, which is started when missing |
| `StaticCache.DeliveryIsServerStep` | url_shortener/static_handler.cc:131-144 | what the streaming protocol delivers, in any interleaving without a race, is an enabled step of the server of many responses: same bytes sent, same bytes appended to the cache |
| `StaticCache.CacheAgrees` | url_shortener/static_handler.cc:88-144 | while no response joined another's entry and none was truncated, whatever happens on other paths, a hit answers the whole file if and only if no response is in the middle of it, and else what that response delivered |
| `StaticCache.SettledIff` | url_shortener/static_handler.cc:88-144 | when all responses for a path are over and there was not both a join and a truncation, a hit answers the file if and only if there was neither |
| `StaticCache.OverlapIff` | url_shortener/static_handler.cc:88-144 | when every response delivers the whole file, a later hit answers the file if and only if no uncached requests for it overlapped |
| `StaticCache.AloneIff` | url_shortener/static_handler.cc:88-144 | without overlapping requests, a later hit answers the file if and only if no response that delivered something stopped early |
| `StaticCache.ChanceFile` | url_shortener/static_handler.cc:135-144 | with a join and a truncation the entry can be the file by chance |
| `StaticCache.HitsAfterEnd` | url_shortener/static_handler.cc:88-144 | once a response for a non-empty file ended and while none joins, every later hit answers the whole file |
| `StaticCache.CachePrefix` | url_shortener/static_handler.cc:135-144 | even with early stops, while none joins a hit answers a non-empty prefix of the file |
| `StaticCache.OverlapDuplicates` | url_shortener/static_handler.cc:88-144 | two overlapping uncached requests leave the file twice in the cache |
| `StaticCache.StopTruncates` | url_shortener/static_handler.cc:135-144 | a response that stops early leaves a truncated file in the cache |
| `StaticPaths.FileIsUnderDir` | url_shortener/static_handler.cc:26-38 | true exactly when the directory's components, empty ones aside, are the first ones of the file |
| `StaticPaths.ExpectedFileIs` | url_shortener/static_handler.cc:45-63 | the file of a request is the document root, one slash and what follows the prefix |
| `StaticPaths.ComponentsSpell` | url_shortener/static_handler.cc:26-38 | the components of a path without repeated slashes spell the path, and none but the root has a slash |
| `StaticPaths.JoinedComponents` | url_shortener/static_handler.cc:56-59 | a joined path has the root's components and then the appended names, with or without trailing or repeated slashes |
| `StaticPaths.NamesNoParent` | url_shortener/static_handler.cc:23 | a path without two neighbouring dots has no `..` component |
| `StaticPaths.AcceptedIff` | url_shortener/static_handler.cc:19-87 | for every document root, exactly the paths below "/static/" of fewer than 1000 characters and without `//` or `..` pass both checks |
| `StaticPaths.AcceptedStaysInside` | url_shortener/static_handler.cc:45-87 | following the components of an accepted file lexically never leaves the document root |
| `StaticPaths.WalkPlain` | url_shortener/static_handler.cc:23 | without parent components, following a path appends its plain names |
| `StaticPaths.WalkParent` | url_shortener/static_handler.cc:23 | a parent component undoes the name before it and stays at the root |
| `RateLimiter.IPAccessCountService.constructor` | url_shortener/ddos_protection.cc:24-25 | an empty table whose window begins now |
| `RateLimiter.IPAccessCountService.LogAccess` | url_shortener/ddos_protection.cc:27-36 | one more access modulo 2^32, or an empty table when the window is too old |
| `RateLimiter.IPAccessCountService.CheckRecycle` | url_shortener/ddos_protection.cc:62-68 | empties the table exactly when the window's whole-second age exceeds the time to live |
| `RateLimiter.IPAccessCountService.Recycle` | url_shortener/ddos_protection.cc:58-61 | an empty table and a new window |
| `RateLimiter.IPAccessCountService.HitsPerMinute` | url_shortener/ddos_protection.cc:37-57 | accesses per whole minute of the window with every early zero of the source |
| `RateLimiter.OnRequest` | url_shortener/ddos_protection.cc:141-204 | a protected request is logged and then judged, one whose address cannot be trusted or parsed is rejected and not logged, and any other is admitted and leaves the table alone |
| `RateLimiter.ProtectedIff` | url_shortener/ddos_protection.cc:147-149 | the limiter looks at exactly the POST, PUT and DELETE requests and those below "/api/" |
| `RateLimiter.CreatesAreProtected` | url_shortener/ddos_protection.cc:147-149 | every request that creates a short URL is among them |
| `RateLimiter.EntriesAreAccesses` | url_shortener/ddos_protection.cc:27-36 | in every run each entry is the number of that address's accesses since the last recycle, without the one that triggered it, modulo 2^32 |
| `RateLimiter.WindowIsSuffix` | url_shortener/ddos_protection.cc:58-68 | the window holds the accesses after the last one that found the previous window a whole second older than its time to live, and began when that one was checked |
| `RateLimiter.SumIsWindow` | url_shortener/ddos_protection.cc:27-68 | the entries sum to all accesses of the window |
| `RateLimiter.AgeBound` | url_shortener/ddos_protection.cc:62-68 | after every access the window is younger than a second more than its time to live |
| `RateLimiter.RejectedIff` | url_shortener/ddos_protection.cc:190-199 | in every run an address is rejected if and only if the window is at least a second old and holds (limit+1)*m of its accesses, m = max(1, age/60) |
| `RateLimiter.SecondsIs` | url_shortener/ddos_protection.cc:50-52 | durations are truncated toward zero to whole seconds of 10^9 nanoseconds |
| `RateLimiter.RejectedInTime` | url_shortener/ddos_protection.cc:50-56 | the same in nanoseconds: rejected if and only if the window is 10^9 old and holds (limit+1)*m accesses, m the whole multiples of 60 * 10^9 in its age, at least 1 |
| `RateLimiter.AdmissionBound` | url_shortener/ddos_protection.cc:190-199 | an address admitted when its window is at least 10^9 and m whole minutes old made at most limit*m + m - 1 accesses in it |
| `RateLimiter.AdmittedPerWindow` | url_shortener/ddos_protection.cc:27-68 | over every run, any set of accesses of one address that one window admitted after its first second has at most limit*m + m - 1 members, m the whole minutes of the time to live |
| `RateLimiter.FirstSecondAdmitted` | url_shortener/ddos_protection.cc:50-55 | all accesses in the first whole second of a window are in the table and admitted, whatever their number and the limit |
| `AppConfig.CreateHighwayhashKey` | url_shortener/app_config.cc:21-35 | the array of the four parsed parts, or the failure of the length check or of a part |
| `AppConfig.StoullHex` | url_shortener/app_config.cc:32 | on hexadecimal digits alone the number parser's spaces, sign, prefix and range rules do not apply |
| `AppConfig.HexDigitIff` | url_shortener/app_config.cc:32 | a digit is one of 0 to 9 and a to f, in either case |
| `AppConfig.StoullReads` | url_shortener/app_config.cc:32 | a number is read through white space, one sign and one base prefix up to the first other character; it must fit 64 bits, and a minus negates modulo 2^64 |
| `AppConfig.StoullNeedsDigit` | url_shortener/app_config.cc:32 | without a digit there is no number |
| `AppConfig.KeyIff` | url_shortener/app_config.cc:24-33 | a key parses if and only if it has 64 characters and each 16 of them are read as a number |
| `AppConfig.KeyIsBigEndian` | url_shortener/url_shortening.cc:66-80 | 64 hexadecimal digits always parse, and the words form their big-endian 256-bit value |
| `AppConfig.ParsePrinted` | url_shortener/app_config.cc:29-33 | parsing the printed form of any four words gives them back |
| `AppConfig.PrintParsed` | url_shortener/app_config.cc:29-33 | printing the parse of 64 digits gives them back in lower case |
| `AppConfig.SplitCsvString` | url_shortener/app_config.cc:37-51 | the loop computes `Fields` |
| `AppConfig.JoinSplit` | url_shortener/app_config.cc:37-51 | joining the fields gives the list back, less one delimiter at its end |
| `AppConfig.FieldsLackDelimiter` | url_shortener/app_config.cc:43-45 | no field holds a delimiter |
| `AppConfig.SplitJoinIff` | url_shortener/app_config.cc:47-49 | splitting joined fields gives them back if and only if the last one is not empty |

## Left out

- Captcha client, TLS, JSON bodies and the promise chain around a create; its outcome is the request itself.
- RocksDB inside an operation; HighwayHash inside, and likelihoods of collisions.
- The cut of the input of `generate_shortened_url` at its first zero character.
- YAML and environment loading, logging, start and stop of the server, crawling of the frontend directory.
- RateLimiter.OnRequest: which headers are trusted and how addresses and ranges are parsed is left out; it gets the resolved address, or none when the headers decide the rejection.
- StaticCache.SettledIff: says nothing of runs with both a join and a truncation for the path, because whether the bytes then make up the file depends on the file's contents (`ChanceFile`).
- Mime types and the user interface.
- UrlShortening.GenerateSlug: gives up at word index four, as intended, where the guard as written goes on to a read past the words; `GuardAsWritten` and `CreateReadsPastIff` say exactly when, and what such a read yields is not modelled.
- UrlShortening.AppendDigits: the same.
- StaticHandler.Handler.ReadFile: the loop as a method runs without interference of other threads; the interleavings are those of the step system, whose reader steps it is proved to be.
- StaticHandler.Handler.PostRead: adopts the step in which a read at the end or in error closes the file and posts; a second reader that then reads the closed file is not a step of the model.
- Sends of a response after the client is gone, 405, 400 and 404 answers of the static handler, and the size of a chunk (any size is allowed).
- Changes of a file while it is streamed or cached.
- Reads past an array, use of freed memory and iterator invalidation as such: where the source could do so, the model says that the point is reached (`GuardAsWritten`, `UnmarkedDeletedEarly`) or excludes it by a precondition.
- Percent-decoding, symbolic links and root names of file systems in static paths; containment is lexical.
- SplitCsvString: the delimiter is one character, as every caller passes.
