/**
 Creating short URLs: candidates of a long URL are probed in the store, from try 2 on, until one
 is free or already holds the URL.  The store is an open-addressing table without deletion.
 */
module SlugStore {
  import opened UrlShortening
  import opened Digits
  import opened Wrappers

  type Store = map<string, string>

  datatype DbError = NotFound | TryAgain | IOError | InternalRocksDbError

  type Failure = e: DbError | !e.NotFound? witness IOError

  datatype GetResult = Got(value: string) | GetFailed(error: DbError)

  /** What the database does wrong during one create: per try for reads, once for the write. */
  datatype Faults = Faults(onGet: map<nat, Failure>, onPut: Option<Failure>)

  const NO_FAULTS := Faults(map[], None)

  /** The key-value store; a failed operation leaves it unchanged. */
  class ShortenedUrlsDatabase {
    var entries: Store

    constructor (entries: Store)
      ensures this.entries == entries
    {
      this.entries := entries;
    }

    method Get(slug: string, fault: Option<Failure>) returns (r: GetResult)
      ensures fault.Some? ==> r == GetFailed(fault.value)
      ensures fault.None? && slug in entries ==> r == Got(entries[slug])
      ensures fault.None? && slug !in entries ==> r == GetFailed(NotFound)
    {
      if fault.Some? {
        return GetFailed(fault.value);
      }
      r := if slug in entries then Got(entries[slug]) else GetFailed(NotFound);
    }

    method Put(slug: string, url: string, fault: Option<Failure>) returns (err: Option<Failure>)
      modifies this
      ensures err == fault
      ensures entries == if fault.Some? then old(entries) else old(entries)[slug := url]
    {
      if fault.None? {
        entries := entries[slug := url];
      }
      err := fault;
    }
  }

  // ---------- One create, as a function ----------

  /** The slug is taken by another URL. */
  predicate Collides(store: Store, slug: string, url: string) {
    slug in store && store[slug] != "" && store[slug] != url
  }

  /** Whether the probe loop ends at try `k`. */
  predicate Stops(p: Probes, store: Store, url: string, faults: Faults, k: nat)
    requires 1 <= k
  {
    !p.Has(url, k) || k in faults.onGet || !Collides(store, p.Candidate(url, k), url)
  }

  /** The first try from `k` on at which the loop ends; 101 when all tries up to 100 collide. */
  function StopTry(p: Probes, store: Store, url: string, faults: Faults, k: nat): (r: nat)
    requires 2 <= k <= MAX_TRIES + 1
    ensures k <= r <= MAX_TRIES + 1
    ensures forall j :: k <= j < r ==> !Stops(p, store, url, faults, j)
    ensures r <= MAX_TRIES ==> Stops(p, store, url, faults, r)
    decreases url, MAX_TRIES + 1 - k
  {
    if k > MAX_TRIES || Stops(p, store, url, faults, k) then k
    else StopTry(p, store, url, faults, k + 1)
  }

  /** The store after a create and the slug answered; the empty answer means failure. */
  datatype Outcome = Outcome(store: Store, answer: string)

  function PutOutcome(store: Store, slug: string, url: string, fault: Option<Failure>): Outcome {
    if fault.Some? then Outcome(store, "") else Outcome(store[slug := url], slug)
  }

  /** The outcome of a create whose probe loop ends at try `k`. */
  function StopOutcome(p: Probes, store: Store, url: string, faults: Faults, k: nat): Outcome
    requires 1 <= k
  {
    if !p.Has(url, k) || k in faults.onGet then Outcome(store, "")
    else
      var slug := p.Candidate(url, k);
      if slug in store && store[slug] == url then Outcome(store, slug)
      else PutOutcome(store, slug, url, faults.onPut)
  }

  function Shorten(p: Probes, store: Store, url: string, faults: Faults): Outcome
  {
    var k := StopTry(p, store, url, faults, 2);
    if k > MAX_TRIES then
      // every try collided: the last candidate is overwritten
      assert !Stops(p, store, url, faults, MAX_TRIES);
      PutOutcome(store, p.Candidate(url, MAX_TRIES), url, faults.onPut)
    else StopOutcome(p, store, url, faults, k)
  }

  lemma ShortenAt(p: Probes, store: Store, url: string, faults: Faults, k: nat)
    requires 2 <= k <= MAX_TRIES && Stops(p, store, url, faults, k)
    requires forall j :: 2 <= j < k ==> !Stops(p, store, url, faults, j)
    ensures Shorten(p, store, url, faults) == StopOutcome(p, store, url, faults, k)
  {
  }

  lemma ShortenNever(p: Probes, store: Store, url: string, faults: Faults)
    requires forall j :: 2 <= j <= MAX_TRIES ==> !Stops(p, store, url, faults, j)
    ensures p.Has(url, MAX_TRIES)
    ensures Shorten(p, store, url, faults)
         == PutOutcome(store, p.Candidate(url, MAX_TRIES), url, faults.onPut)
  {
    assert !Stops(p, store, url, faults, MAX_TRIES);
  }

  /** What the loop finds at try `k` of a policy, up to the try where it ends. */
  lemma PolicyTry(cfg: UrlShorteningConfig, store: Store, url: string, faults: Faults, k: nat)
    requires cfg.Valid() && 2 <= k <= StopTry(ProbesOf(cfg), store, url, faults, 2) && k <= MAX_TRIES
    ensures k < StopTry(ProbesOf(cfg), store, url, faults, 2) <==>
              cfg.Has(url, k) && k !in faults.onGet && Collides(store, cfg.Candidate(url, k), url)
    ensures k == StopTry(ProbesOf(cfg), store, url, faults, 2) ==>
              Shorten(ProbesOf(cfg), store, url, faults)
              == if !cfg.Has(url, k) || k in faults.onGet then Outcome(store, "")
                 else if cfg.Candidate(url, k) in store && store[cfg.Candidate(url, k)] == url then
                   Outcome(store, cfg.Candidate(url, k))
                 else PutOutcome(store, cfg.Candidate(url, k), url, faults.onPut)
  {
    if k < StopTry(ProbesOf(cfg), store, url, faults, 2) {
      assert !Stops(ProbesOf(cfg), store, url, faults, k);
    }
  }

  lemma PolicyExhausted(cfg: UrlShorteningConfig, store: Store, url: string, faults: Faults)
    requires cfg.Valid() && StopTry(ProbesOf(cfg), store, url, faults, 2) > MAX_TRIES
    ensures cfg.Has(url, MAX_TRIES)
    ensures Shorten(ProbesOf(cfg), store, url, faults)
         == PutOutcome(store, cfg.Candidate(url, MAX_TRIES), url, faults.onPut)
  {
    assert !Stops(ProbesOf(cfg), store, url, faults, MAX_TRIES);
  }

  /** The probe loop as the source runs it. */
  method DoShortenUrl(cfg: UrlShorteningConfig, db: ShortenedUrlsDatabase, longUrl: string, faults: Faults)
    returns (answer: string)
    requires cfg.Valid() && longUrl != ""
    modifies db
    ensures Outcome(db.entries, answer) == Shorten(ProbesOf(cfg), old(db.entries), longUrl, faults)
  {
    ghost var stop := StopTry(ProbesOf(cfg), db.entries, longUrl, faults, 2);
    var slug, nthTry := "", 1;
    while nthTry < MAX_TRIES
      invariant 1 <= nthTry <= MAX_TRIES && nthTry < stop
      invariant db.entries == old(db.entries)
      invariant nthTry > 1 ==> cfg.Has(longUrl, nthTry) && slug == cfg.Candidate(longUrl, nthTry)
    {
      nthTry := nthTry + 1;
      PolicyTry(cfg, db.entries, longUrl, faults, nthTry);
      var ok;
      ok, slug := GenerateSlug(cfg, slug, longUrl, nthTry);
      if !ok {
        return "";
      }
      var got := db.Get(slug, if nthTry in faults.onGet then Some(faults.onGet[nthTry]) else None);
      match got
      case GetFailed(err) =>
        if err == NotFound {
          break;
        } else {
          return "";
        }
      case Got(value) =>
        if value == "" {
          break;
        } else if value == longUrl {
          return slug;
        }
    }
    if nthTry < stop {
      PolicyExhausted(cfg, db.entries, longUrl, faults);
    }
    var err := db.Put(slug, longUrl, faults.onPut);
    if err.Some? {
      return "";
    }
    answer := slug;
  }

  // ---------- What one create keeps ----------

  /** Every non-empty entry of `before` is an entry of `after`. */
  ghost predicate Keeps(before: Store, after: Store) {
    forall s :: s in before && before[s] != "" ==> s in after && after[s] == before[s]
  }

  /** Under an exhausting policy the hundredth try has no digits, so the loop ends before it. */
  lemma LoopEnds(p: Probes, store: Store, url: string, faults: Faults)
    requires p.Safe()
    ensures !p.Has(url, MAX_TRIES)
    ensures StopTry(p, store, url, faults, 2) <= MAX_TRIES
  {
    assert Stops(p, store, url, faults, MAX_TRIES);
  }

  lemma CreateKeepsEntries(p: Probes, store: Store, url: string, faults: Faults)
    requires p.Safe() && url != ""
    ensures var r := Shorten(p, store, url, faults);
      && Keeps(store, r.store)
      && (r.answer == "" ==> r.store == store)
      && (r.answer != "" ==> r.store == store[r.answer := url])
  {
    LoopEnds(p, store, url, faults);
  }

  /** An answered slug is a candidate of the URL from try 2 on. */
  lemma AnswerIsCandidate(p: Probes, store: Store, url: string, faults: Faults)
    requires p.Safe() && Shorten(p, store, url, faults).answer != ""
    ensures exists k :: 2 <= k && p.Has(url, k) && p.Candidate(url, k) == Shorten(p, store, url, faults).answer
  {
    LoopEnds(p, store, url, faults);
    var k := StopTry(p, store, url, faults, 2);
    assert p.Has(url, k);
  }

  /** No create of any URL under any hash, store and fault pattern changes a non-empty entry. */
  ghost predicate NeverOverwrites(alphabet: string, slugLength: nat)
    requires 2 <= |alphabet| <= 58 && 1 <= slugLength < 256
  {
    forall hash: string -> HashWords, store: Store, url: string, faults: Faults ::
      url != "" ==> Keeps(store, Shorten(ProbesOf(UrlShorteningConfig(alphabet, slugLength, hash)), store, url, faults).store)
  }

  /** A store in which another URL holds every candidate of `url` that a create can probe. */
  function AllTaken(p: Probes, url: string, other: string): Store {
    map k | 2 <= k <= MAX_TRIES && p.Has(url, k) :: p.Candidate(url, k) := other
  }

  /** With enough digits for 100 tries and all of them taken, a create overwrites an entry. */
  lemma OverwriteExample(cfg: UrlShorteningConfig, url: string, other: string)
    requires cfg.Valid() && !Exhausting(|cfg.alphabet|, cfg.slugLength)
    requires cfg.hash(url) == [MAX_WORD, MAX_WORD, MAX_WORD, MAX_WORD]
    requires url != other && other != ""
    ensures var store := AllTaken(ProbesOf(cfg), url, other);
      !Keeps(store, Shorten(ProbesOf(cfg), store, url, NO_FAULTS).store)
  {
    var p := ProbesOf(cfg);
    var store := AllTaken(p, url, other);
    StreamBound(cfg.hash(url), |cfg.alphabet|);
    WindowIs(cfg.StreamOf(url), cfg.slugLength, MAX_TRIES);
    forall k | 2 <= k <= MAX_TRIES ensures !Stops(p, store, url, NO_FAULTS, k) {
      assert p.Candidate(url, k) in store;
    }
    ShortenNever(p, store, url, NO_FAULTS);
    assert p.Candidate(url, MAX_TRIES) in store;
  }

  /** The exhaustion bound is exactly what keeps entries from being overwritten. */
  lemma NeverOverwritesIff(alphabet: string, slugLength: nat)
    requires 2 <= |alphabet| <= 58 && 1 <= slugLength < 256
    ensures NeverOverwrites(alphabet, slugLength) <==> Exhausting(|alphabet|, slugLength)
  {
    if Exhausting(|alphabet|, slugLength) {
      forall hash: string -> HashWords, store: Store, url: string, faults: Faults | url != ""
        ensures Keeps(store, Shorten(ProbesOf(UrlShorteningConfig(alphabet, slugLength, hash)), store, url, faults).store)
      {
        ExhaustingIsSafe(UrlShorteningConfig(alphabet, slugLength, hash));
        CreateKeepsEntries(ProbesOf(UrlShorteningConfig(alphabet, slugLength, hash)), store, url, faults);
      }
    } else {
      var cfg := UrlShorteningConfig(alphabet, slugLength, _ => [MAX_WORD, MAX_WORD, MAX_WORD, MAX_WORD]);
      OverwriteExample(cfg, "u", "v");
    }
  }

  // ---------- The probe chain ----------

  /** `slug` is the candidate of `url` at try `k`, and all earlier candidates are taken by others. */
  ghost predicate ChainAt(p: Probes, store: Store, url: string, slug: string, k: nat)
  {
    && 2 <= k && p.Has(url, k) && p.Candidate(url, k) == slug
    && forall j :: 2 <= j < k ==> p.Has(url, j) && Collides(store, p.Candidate(url, j), url)
  }

  /** Every stored pair ends a probe chain of its URL. */
  ghost predicate Chained(p: Probes, store: Store)
  {
    forall s :: s in store && store[s] != "" ==> exists k :: ChainAt(p, store, store[s], s, k)
  }

  lemma ChainSurvives(p: Probes, before: Store, after: Store, url: string, slug: string, k: nat)
    requires Keeps(before, after) && ChainAt(p, before, url, slug, k)
    ensures ChainAt(p, after, url, slug, k)
  {
  }

  /** The tries before the one at which the loop ends form a chain. */
  lemma ProbedChain(p: Probes, store: Store, url: string, faults: Faults, k: nat)
    requires k == StopTry(p, store, url, faults, 2) && p.Has(url, k)
    ensures ChainAt(p, store, url, p.Candidate(url, k), k)
  {
    forall j | 2 <= j < k ensures p.Has(url, j) && Collides(store, p.Candidate(url, j), url) {
      assert !Stops(p, store, url, faults, j);
    }
  }

  lemma CreateKeepsChain(p: Probes, store: Store, url: string, faults: Faults)
    requires p.Safe() && url != ""
    requires Chained(p, store)
    ensures Chained(p, Shorten(p, store, url, faults).store)
  {
    CreateKeepsEntries(p, store, url, faults);
    var r := Shorten(p, store, url, faults);
    forall s | s in r.store && r.store[s] != "" ensures exists k :: ChainAt(p, r.store, r.store[s], s, k) {
      if r.answer != "" && s == r.answer {
        var k := StopTry(p, store, url, faults, 2);
        LoopEnds(p, store, url, faults);
        ProbedChain(p, store, url, faults, k);
        ChainSurvives(p, store, r.store, url, s, k);
      } else {
        var k :| ChainAt(p, store, store[s], s, k);
        ChainSurvives(p, store, r.store, store[s], s, k);
      }
    }
  }

  /** A URL cannot end two probe chains: the longer would run into the shorter one's slug. */
  lemma OneChain(p: Probes, store: Store, url: string, s: string, j: nat, t: string, k: nat)
    requires s in store && t in store && store[s] == store[t] == url
    requires ChainAt(p, store, url, s, j) && ChainAt(p, store, url, t, k)
    ensures s == t
  {
    assert j < k ==> !Collides(store, p.Candidate(url, j), url);
    assert k < j ==> !Collides(store, p.Candidate(url, k), url);
  }

  /** A chained store is injective: no URL has two slugs. */
  lemma ChainedInjective(p: Probes, store: Store, s: string, t: string)
    requires Chained(p, store)
    requires s in store && t in store && store[s] == store[t] != ""
    ensures s == t
  {
    var j: nat :| ChainAt(p, store, store[s], s, j);
    var k: nat :| ChainAt(p, store, store[t], t, k);
    OneChain(p, store, store[s], s, j, t, k);
  }

  /** Creating a URL that already has a slug answers that slug, or fails, and changes nothing. */
  lemma Recreate(p: Probes, store: Store, url: string, slug: string, faults: Faults)
    requires p.Safe() && Chained(p, store)
    requires url != "" && slug in store && store[slug] == url
    ensures var r := Shorten(p, store, url, faults);
      && r.store == store
      && (r.answer == slug || r.answer == "")
      && (faults.onGet == map[] ==> r.answer == slug)
  {
    var k :| ChainAt(p, store, url, slug, k);
    LoopEnds(p, store, url, faults);
    var stop := StopTry(p, store, url, faults, 2);
    assert Stops(p, store, url, faults, k);
    assert stop <= k;
    if stop < k {
      assert Collides(store, p.Candidate(url, stop), url) && p.Has(url, stop);
    }
  }

  /**
   Without faults a create answers the first candidate from try 2 on that is free or already holds
   the URL, and fails only when another URL holds every candidate the hash can supply.
   */
  lemma ProbingComplete(p: Probes, store: Store, url: string)
    requires p.Safe() && url != ""
    ensures var r := Shorten(p, store, url, NO_FAULTS);
      && (r.answer == "" <==>
            forall k :: 2 <= k && p.Has(url, k) ==>
              var slug := p.Candidate(url, k);
              slug in store && store[slug] != "" && store[slug] != url)
      && (r.answer == "" ==> r.store == store)
      && (r.answer != "" ==>
            && r.store == store[r.answer := url]
            && (r.answer in store ==> store[r.answer] == "" || store[r.answer] == url)
            && exists k :: 2 <= k && p.Has(url, k) && p.Candidate(url, k) == r.answer
                           && forall j :: 2 <= j < k ==>
                                var slug := p.Candidate(url, j);
                                slug in store && store[slug] != "" && store[slug] != url)
  {
    var k := StopTry(p, store, url, NO_FAULTS, 2);
    LoopEnds(p, store, url, NO_FAULTS);
    forall j | 2 <= j < k ensures p.Has(url, j) && Collides(store, p.Candidate(url, j), url) {
      assert !Stops(p, store, url, NO_FAULTS, j);
    }
    if p.Has(url, k) {
      assert !Collides(store, p.Candidate(url, k), url);
      assert Shorten(p, store, url, NO_FAULTS).answer == p.Candidate(url, k);
    }
  }

  /** A failing read ends the create at its try, if it gets there, and a failing write ends it too. */
  lemma FaultEnds(p: Probes, store: Store, url: string, faults: Faults, k: nat)
    requires p.Safe() && url != "" && 2 <= k && p.Has(url, k)
    requires forall j :: 2 <= j < k ==> p.Has(url, j) && j !in faults.onGet && Collides(store, p.Candidate(url, j), url)
    requires k in faults.onGet || (p.Candidate(url, k) !in store && faults.onPut.Some?)
    ensures Shorten(p, store, url, faults) == Outcome(store, "")
  {
    assert !p.Has(url, MAX_TRIES);
    assert k < MAX_TRIES && Stops(p, store, url, faults, k);
    ShortenAt(p, store, url, faults, k);
  }

  /**
   When the first 99 tries leave only the hundredth, the create writes that slug, whatever it holds.
   No policy within the exhaustion bound gets there.
   */
  lemma LastTryWrites(p: Probes, store: Store, url: string)
    requires forall j :: 2 <= j <= 99 ==> p.Has(url, j) && Collides(store, p.Candidate(url, j), url)
    requires p.Has(url, 100)
    ensures var slug := p.Candidate(url, 100);
      Shorten(p, store, url, NO_FAULTS) == Outcome(store[slug := url], slug)
  {
    var stop := StopTry(p, store, url, NO_FAULTS, 2);
    forall j | 2 <= j <= 99 ensures !Stops(p, store, url, NO_FAULTS, j) {
    }
    assert stop >= 100;
  }

  // ---------- The generator's guard as written ----------

  /** With the guard as written, try number `k` reads past the four words. */
  predicate ReadsPastEnd(cfg: UrlShorteningConfig, url: string, k: nat)
    requires cfg.Valid()
  {
    FetchDigits(cfg.hash(url), 0, |cfg.alphabet|, k * cfg.slugLength, 4).ReadPastEnd?
  }

  lemma ReadsPastEndIff(cfg: UrlShorteningConfig, url: string, k: nat)
    requires cfg.Valid()
    ensures ReadsPastEnd(cfg, url, k) <==> !cfg.Has(url, k)
  {
    GuardAsWritten(cfg.hash(url), 0, |cfg.alphabet|, k * cfg.slugLength);
    WindowIs(cfg.StreamOf(url), cfg.slugLength, k);
  }

  /**
   With the guard as written, a create reads past the four words at one of its tries exactly when
   with the intended guard it answers nothing: when its candidates run out, all held by others.
   */
  lemma CreateReadsPastIff(cfg: UrlShorteningConfig, store: Store, url: string)
    requires cfg.Valid()
    ensures var stop := StopTry(ProbesOf(cfg), store, url, NO_FAULTS, 2);
      (exists k :: 2 <= k <= stop && k <= MAX_TRIES && ReadsPastEnd(cfg, url, k))
      <==> Shorten(ProbesOf(cfg), store, url, NO_FAULTS).answer == ""
  {
    var p := ProbesOf(cfg);
    var stop := StopTry(p, store, url, NO_FAULTS, 2);
    forall k | 2 <= k <= stop && k <= MAX_TRIES
      ensures ReadsPastEnd(cfg, url, k) <==> !p.Has(url, k)
      ensures k < stop ==> p.Has(url, k)
    {
      ReadsPastEndIff(cfg, url, k);
      assert k < stop ==> !Stops(p, store, url, NO_FAULTS, k);
    }
    if stop <= MAX_TRIES {
      ShortenAt(p, store, url, NO_FAULTS, stop);
    } else {
      ShortenNever(p, store, url, NO_FAULTS);
    }
  }
}
