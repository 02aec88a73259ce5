/** From a create to a visit of its slug: generator, store, path parser and router together. */
module EndToEnd {
  import opened UrlShortening
  import opened SlugStore
  import opened StoreRuns
  import opened RequestPaths
  import opened Wrappers

  /** What a GET of `path` answers when the redirect handler serves it and the database works. */
  function Visit(p: Probes, store: Store, frontend: set<string>, path: string): Option<Response>
    requires path != ""
  {
    match Route(frontend, path, GET)
    case UrlRedirect(slug) => Some(Apply(p, store, Redirect(slug, false)).1)
    case _ => None
  }

  lemma VisitStored(p: Probes, store: Store, frontend: set<string>, path: string, slug: string, url: string)
    requires slug != "" && AllSymbols(slug) && Names(path, slug) && |path| <= 1000
    requires slug in store && store[slug] == url
    ensures Visit(p, store, frontend, path) == if Route(frontend, path, GET).Frontend? then None else Some(Moved(url))
  {
    RedirectIff(frontend, path, GET, slug);
  }

  /** An answered slug is a non-empty word over the alphabet, short enough for a path. */
  lemma CreatedSymbols(cfg: UrlShorteningConfig, store: Store, req: Request)
    requires cfg.Valid() && ProbesOf(cfg).Safe() && req.Create? && Apply(ProbesOf(cfg), store, req).1.Created?
    ensures var slug := Apply(ProbesOf(cfg), store, req).1.slug;
      slug != "" && AllSymbols(slug) && |slug| == cfg.slugLength
  {
    AnswerIsCandidate(ProbesOf(cfg), store, req.url, req.faults);
    var slug := Apply(ProbesOf(cfg), store, req).1.slug;
    var k :| 2 <= k && ProbesOf(cfg).Has(req.url, k) && ProbesOf(cfg).Candidate(req.url, k) == slug;
    SlugSymbols(cfg, req.url, k);
  }

  /**
   After a create answered a slug, in every later state of every run, every path of that slug (not
   too long) redirects to the URL of the create, unless the frontend serves that path.
   */
  lemma ShortenThenVisit(
      cfg: UrlShorteningConfig, frontend: set<string>, start: Store, reqs: seq<Request>, i: nat, j: nat, path: string)
    requires cfg.Valid() && Exhausting(|cfg.alphabet|, cfg.slugLength) && i < j <= |reqs|
    requires reqs[i].Create? && ResponseAt(ProbesOf(cfg), start, reqs, i).Created?
    requires Names(path, ResponseAt(ProbesOf(cfg), start, reqs, i).slug) && |path| <= 1000
    ensures AllSymbols(ResponseAt(ProbesOf(cfg), start, reqs, i).slug)
    ensures Visit(ProbesOf(cfg), StoreAt(ProbesOf(cfg), start, reqs, j), frontend, path)
         == if Route(frontend, path, GET).Frontend? then None else Some(Moved(reqs[i].url))
  {
    var p := ProbesOf(cfg);
    ExhaustingIsSafe(cfg);
    SlugPermanent(p, start, reqs, i, j);
    var slug, url := ResponseAt(p, start, reqs, i).slug, reqs[i].url;
    CreatedSymbols(cfg, StoreAt(p, start, reqs, i), reqs[i]);
    VisitStored(p, StoreAt(p, start, reqs, j), frontend, path, slug, url);
  }

  /** Starting from an empty store, a visit only ever leads to a URL whose create was answered the
      slug that the path names. */
  lemma VisitWasCreated(p: Probes, frontend: set<string>, reqs: seq<Request>, n: nat, path: string, url: string)
    requires p.Safe() && n <= |reqs| && path != ""
    requires Visit(p, StoreAt(p, map[], reqs, n), frontend, path) == Some(Moved(url))
    ensures exists i, slug ::
              0 <= i < n && reqs[i].Create? && reqs[i].url == url
              && ResponseAt(p, map[], reqs, i) == Created(slug) && Names(path, slug)
  {
    var slug := Route(frontend, path, GET).slug;
    RedirectIff(frontend, path, GET, slug);
    EntriesWereAnswered(p, map[], reqs, n, slug);
    var i :| 0 <= i < n && reqs[i].Create? && reqs[i].url == url && ResponseAt(p, map[], reqs, i) == Created(slug);
  }
}
