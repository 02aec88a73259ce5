/** Whole runs of creates and redirects, one after the other, on one store. */
module StoreRuns {
  import opened SlugStore
  import opened UrlShortening
  import opened Digits
  import opened Wrappers

  datatype Request = Create(url: string, faults: Faults) | Redirect(slug: string, fails: bool)

  datatype Response = Created(slug: string) | Moved(location: string) | BadRequest | NotFound

  /** One request; a create without a URL is refused before probing starts. */
  function Apply(p: Probes, store: Store, req: Request): (r: (Store, Response))
  {
    match req
    case Create(url, faults) =>
      if url == "" then (store, BadRequest)
      else
        var o := Shorten(p, store, url, faults);
        (o.store, if o.answer == "" then BadRequest else Created(o.answer))
    case Redirect(slug, fails) =>
      if slug == "" then (store, BadRequest)
      else if fails || slug !in store then (store, Response.NotFound)
      else (store, Moved(store[slug]))
  }

  /** The store after the first `n` requests. */
  function StoreAt(p: Probes, start: Store, reqs: seq<Request>, n: nat): Store
    requires n <= |reqs|
  {
    if n == 0 then start else Apply(p, StoreAt(p, start, reqs, n - 1), reqs[n - 1]).0
  }

  function ResponseAt(p: Probes, start: Store, reqs: seq<Request>, n: nat): Response
    requires n < |reqs|
  {
    Apply(p, StoreAt(p, start, reqs, n), reqs[n]).1
  }

  lemma RequestKeeps(p: Probes, store: Store, req: Request)
    requires p.Safe()
    ensures Keeps(store, Apply(p, store, req).0)
    ensures Chained(p, store) ==> Chained(p, Apply(p, store, req).0)
  {
    if req.Create? && req.url != "" {
      CreateKeepsEntries(p, store, req.url, req.faults);
      if Chained(p, store) {
        CreateKeepsChain(p, store, req.url, req.faults);
      }
    }
  }

  lemma AnswerStored(p: Probes, store: Store, req: Request)
    requires p.Safe() && req.Create? && Apply(p, store, req).1.Created?
    ensures var (after, response) := Apply(p, store, req);
      req.url != "" && response.slug in after && after[response.slug] == req.url
  {
    CreateKeepsEntries(p, store, req.url, req.faults);
  }

  /** Non-empty entries survive every part of a run, and so does the chain invariant. */
  lemma {:induction false} RunKeeps(p: Probes, start: Store, reqs: seq<Request>, i: nat, j: nat)
    requires p.Safe() && i <= j <= |reqs|
    ensures Keeps(StoreAt(p, start, reqs, i), StoreAt(p, start, reqs, j))
    ensures Chained(p, StoreAt(p, start, reqs, i)) ==> Chained(p, StoreAt(p, start, reqs, j))
    decreases j
  {
    if i < j {
      RunKeeps(p, start, reqs, i, j - 1);
      RequestKeeps(p, StoreAt(p, start, reqs, j - 1), reqs[j - 1]);
    }
  }

  /** Once a slug is answered for a URL, the store maps the slug to the URL for ever. */
  lemma SlugPermanent(p: Probes, start: Store, reqs: seq<Request>, i: nat, j: nat)
    requires p.Safe() && i < j <= |reqs|
    requires reqs[i].Create? && ResponseAt(p, start, reqs, i).Created?
    ensures var s := ResponseAt(p, start, reqs, i).slug;
      s in StoreAt(p, start, reqs, j) && StoreAt(p, start, reqs, j)[s] == reqs[i].url
  {
    AnswerStored(p, StoreAt(p, start, reqs, i), reqs[i]);
    RunKeeps(p, start, reqs, i + 1, j);
  }

  /** Every later redirect of an answered slug goes to its URL, database errors aside. */
  lemma RedirectPermanent(p: Probes, start: Store, reqs: seq<Request>, i: nat, j: nat)
    requires p.Safe() && i < j < |reqs|
    requires reqs[i].Create? && ResponseAt(p, start, reqs, i).Created?
    requires reqs[j] == Redirect(ResponseAt(p, start, reqs, i).slug, false)
    ensures ResponseAt(p, start, reqs, j) == Moved(reqs[i].url)
  {
    SlugPermanent(p, start, reqs, i, j);
  }

  /** Creating the same URL again later answers the same slug, or fails, and changes nothing. */
  lemma CreateAgain(p: Probes, start: Store, reqs: seq<Request>, i: nat, j: nat)
    requires p.Safe() && Chained(p, start) && i < j < |reqs|
    requires reqs[i].Create? && ResponseAt(p, start, reqs, i).Created?
    requires reqs[j].Create? && reqs[j].url == reqs[i].url
    ensures StoreAt(p, start, reqs, j + 1) == StoreAt(p, start, reqs, j)
    ensures ResponseAt(p, start, reqs, j) in {ResponseAt(p, start, reqs, i), BadRequest}
    ensures reqs[j].faults.onGet == map[] ==>
              ResponseAt(p, start, reqs, j) == ResponseAt(p, start, reqs, i)
  {
    SlugPermanent(p, start, reqs, i, j);
    RunKeeps(p, start, reqs, 0, j);
    var s := ResponseAt(p, start, reqs, i).slug;
    Recreate(p, StoreAt(p, start, reqs, j), reqs[j].url, s, reqs[j].faults);
  }

  /** In one run, two creates are answered one slug exactly when they ask for one URL. */
  lemma SlugsIdentifyUrls(p: Probes, start: Store, reqs: seq<Request>, i: nat, j: nat)
    requires p.Safe() && Chained(p, start) && i < |reqs| && j < |reqs|
    requires reqs[i].Create? && ResponseAt(p, start, reqs, i).Created?
    requires reqs[j].Create? && ResponseAt(p, start, reqs, j).Created?
    ensures ResponseAt(p, start, reqs, i) == ResponseAt(p, start, reqs, j)
      <==> reqs[i].url == reqs[j].url
  {
    var last := StoreAt(p, start, reqs, |reqs|);
    SlugPermanent(p, start, reqs, i, |reqs|);
    SlugPermanent(p, start, reqs, j, |reqs|);
    RunKeeps(p, start, reqs, 0, |reqs|);
    if reqs[i].url == reqs[j].url {
      ChainedInjective(p, last, ResponseAt(p, start, reqs, i).slug, ResponseAt(p, start, reqs, j).slug);
    }
  }

  /** The store holds nothing but its first entries and the answered pairs. */
  lemma {:induction false} EntriesWereAnswered(p: Probes, start: Store, reqs: seq<Request>, n: nat, s: string)
    requires p.Safe() && n <= |reqs| && s in StoreAt(p, start, reqs, n)
    ensures (s in start && StoreAt(p, start, reqs, n)[s] == start[s])
      || exists i :: 0 <= i < n && reqs[i].Create? && reqs[i].url == StoreAt(p, start, reqs, n)[s]
                     && ResponseAt(p, start, reqs, i) == Created(s)
  {
    if n > 0 {
      var before, req := StoreAt(p, start, reqs, n - 1), reqs[n - 1];
      if req.Create? && req.url != "" {
        CreateKeepsEntries(p, before, req.url, req.faults);
      }
      if ResponseAt(p, start, reqs, n - 1) == Created(s) {
        assert StoreAt(p, start, reqs, n)[s] == req.url;
      } else {
        assert s in before && before[s] == StoreAt(p, start, reqs, n)[s];
        EntriesWereAnswered(p, start, reqs, n - 1, s);
      }
    }
  }

  /** Some one of the first `n` requests is a create that was answered `slug`. */
  ghost predicate WasCreated(p: Probes, start: Store, reqs: seq<Request>, n: nat, slug: string)
    requires n <= |reqs|
  {
    exists i :: 0 <= i < n && reqs[i].Create? && ResponseAt(p, start, reqs, i) == Created(slug)
  }

  /**
   On a store that began empty, a redirect finds its slug exactly when a create was answered it; a
   slug that no create was answered is not found, and neither is any slug when the database fails.
   */
  lemma RedirectAnswers(p: Probes, reqs: seq<Request>, j: nat)
    requires p.Safe() && j < |reqs| && reqs[j].Redirect?
    ensures var r, slug, fails := ResponseAt(p, map[], reqs, j), reqs[j].slug, reqs[j].fails;
      && (r == BadRequest <==> slug == "")
      && (r.Moved? <==> slug != "" && !fails && WasCreated(p, map[], reqs, j, slug))
      && (r == Response.NotFound <==> slug != "" && (fails || !WasCreated(p, map[], reqs, j, slug)))
  {
    var slug, store := reqs[j].slug, StoreAt(p, map[], reqs, j);
    if slug in store {
      EntriesWereAnswered(p, map[], reqs, j, slug);
    }
    if WasCreated(p, map[], reqs, j, slug) {
      var i :| 0 <= i < j && reqs[i].Create? && ResponseAt(p, map[], reqs, i) == Created(slug);
      SlugPermanent(p, map[], reqs, i, j);
    }
  }

  /** A create is refused exactly without a URL, or when other URLs hold all its candidates. */
  lemma CreateAnswers(p: Probes, start: Store, reqs: seq<Request>, j: nat)
    requires p.Safe() && j < |reqs| && reqs[j].Create? && reqs[j].faults == NO_FAULTS
    ensures var r, url, store := ResponseAt(p, start, reqs, j), reqs[j].url, StoreAt(p, start, reqs, j);
      && (r.Created? || r == BadRequest)
      && (r == BadRequest <==>
            url == "" || forall k :: 2 <= k && p.Has(url, k) ==> Collides(store, p.Candidate(url, k), url))
  {
    if reqs[j].url != "" {
      ProbingComplete(p, StoreAt(p, start, reqs, j), reqs[j].url);
    }
  }

  // ---------- An unsafe policy ----------

  /** Two symbols and slugs of length 1: 256 digits at most, so 100 tries can all succeed. */
  const TINY_POLICY := UrlShorteningConfig("12", 1, _ => [MAX_WORD, MAX_WORD, MAX_WORD, MAX_WORD])

  function TinyProbes(): Probes {
    ProbesOf(TINY_POLICY)
  }

  predicate OnesOnly(ds: seq<nat>) {
    forall d :: d in ds ==> d == 1
  }

  lemma {:induction false} AllOnes(k: nat)
    ensures 1 <= Pow(2, k) && OnesOnly(Of(Pow(2, k) - 1, 2))
  {
    PowPositive(2, k);
    if k > 0 {
      AllOnes(k - 1);
      assert (Pow(2, k) - 1) % 2 == 1 && (Pow(2, k) - 1) / 2 == Pow(2, k - 1) - 1;
    }
  }

  lemma MaxWordIsOnes()
    ensures OnesOnly(Of(MAX_WORD, 2))
  {
    Square(2, 8, 256);
    Square(2, 16, 65536);
    Square(2, 32, 4294967296);
    AllOnes(64);
  }

  lemma {:induction false} LaterAllOnes(ws: seq<nat>, v: nat)
    requires v > 0 && OnesOnly(Of(v, 2)) && forall w :: w in ws ==> w == v
    ensures OnesOnly(LaterDigits(ws, 2))
  {
    if ws != [] {
      assert ws[0] in ws && forall w :: w in ws[1..] ==> w in ws;
      LaterAllOnes(ws[1..], v);
    }
  }

  /** All candidates of the tiny policy are one slug. */
  lemma TinyCandidates(url: string, n: nat)
    requires 1 <= n <= MAX_TRIES
    ensures TinyProbes().Has(url, n) && TinyProbes().Candidate(url, n) == "2"
  {
    var stream := TINY_POLICY.StreamOf(url);
    StreamBound(TINY_POLICY.hash(url), 2);
    DigitsOfMaxWord(2);
    WindowIs(stream, 1, n);
    MaxWordIsOnes();
    LaterAllOnes(TINY_POLICY.hash(url)[1..], MAX_WORD);
    var window := Window(stream, 1, n);
    WindowWithin(stream, 1, n);
    assert window[0] in window;
    assert Text(window)[0] == '2';
  }

  lemma TinyCreate(store: Store, url: string)
    requires url != "" && ("2" in store ==> store["2"] != url)
    ensures Shorten(TinyProbes(), store, url, NO_FAULTS) == Outcome(store["2" := url], "2")
  {
    forall j | 2 <= j <= MAX_TRIES
      ensures TinyProbes().Has(url, j) && TinyProbes().Candidate(url, j) == "2"
    {
      TinyCandidates(url, j);
    }
    if Collides(store, "2", url) {
      ShortenNever(TinyProbes(), store, url, NO_FAULTS);
    } else {
      ShortenAt(TinyProbes(), store, url, NO_FAULTS, 2);
    }
  }

  /** Without the bound permanence fails: the second of two creates takes the first one's slug. */
  lemma OverwrittenRun()
    ensures !Exhausting(|TINY_POLICY.alphabet|, TINY_POLICY.slugLength)
    ensures var reqs := [Create("a", NO_FAULTS), Create("b", NO_FAULTS), Redirect("2", false)];
      && ResponseAt(TinyProbes(), map[], reqs, 0) == Created("2")
      && ResponseAt(TinyProbes(), map[], reqs, 1) == Created("2")
      && ResponseAt(TinyProbes(), map[], reqs, 2) == Moved("b")
  {
    DigitsOfMaxWord(2);
    var reqs := [Create("a", NO_FAULTS), Create("b", NO_FAULTS), Redirect("2", false)];
    var s1, s2 := map["2" := "a"], map["2" := "a"]["2" := "b"];
    TinyCreate(map[], "a");
    TinyCreate(s1, "b");
    assert StoreAt(TinyProbes(), map[], reqs, 0) == map[];
    assert StoreAt(TinyProbes(), map[], reqs, 1) == s1;
    assert StoreAt(TinyProbes(), map[], reqs, 2) == s2;
  }
}
