/**
 Creates that run at the same time on the worker threads: reading a candidate and writing the slug
 are separate steps, and steps of different workers interleave in any order.
 */
module ConcurrentCreates {
  import opened SlugStore
  import opened StoreRuns
  import opened UrlShortening
  import opened Wrappers

  /** One create: about to read try `k`, about to write after a read at time `since`, or answered. */
  datatype Worker =
    | Probing(url: string, k: nat)
    | Putting(url: string, k: nat, slug: string, since: nat)
    | Answered(url: string, answer: string)

  datatype PutRecord = PutRecord(worker: nat, slug: string, url: string)

  /** The shared store, the creates so far, and the history of successful writes. */
  datatype System = System(store: Store, workers: seq<Worker>, puts: seq<PutRecord>)

  datatype Action = Spawn(url: string) | Get(w: nat, fault: Option<Failure>) | Put(w: nat, fault: Option<Failure>)

  function AfterGet(p: Probes, store: Store, url: string, k: nat, fault: Option<Failure>, now: nat): Worker
  {
    if k == 0 || !p.Has(url, k) || fault.Some? then Answered(url, "")
    else
      var slug := p.Candidate(url, k);
      if Collides(store, slug, url) && k < MAX_TRIES then Probing(url, k + 1)
      else if slug in store && store[slug] == url then Answered(url, slug)
      else Putting(url, k, slug, now)
  }

  /** One atomic step; an action that does not apply changes nothing. */
  function Next(p: Probes, sys: System, a: Action): System
  {
    match a
    case Spawn(url) =>
      if url == "" then sys else sys.(workers := sys.workers + [Probing(url, 2)])
    case Get(w, fault) =>
      if w < |sys.workers| && sys.workers[w].Probing? then
        var me := sys.workers[w];
        sys.(workers := sys.workers[w := AfterGet(p, sys.store, me.url, me.k, fault, |sys.puts|)])
      else sys
    case Put(w, fault) =>
      if w < |sys.workers| && sys.workers[w].Putting? then
        var me := sys.workers[w];
        if fault.Some? then sys.(workers := sys.workers[w := Answered(me.url, "")])
        else System(sys.store[me.slug := me.url], sys.workers[w := Answered(me.url, me.slug)],
                    sys.puts + [PutRecord(w, me.slug, me.url)])
      else sys
  }

  function SystemAt(p: Probes, start: Store, acts: seq<Action>, n: nat): System
    requires n <= |acts|
  {
    if n == 0 then System(start, [], []) else Next(p, SystemAt(p, start, acts, n - 1), acts[n - 1])
  }

  // ---------- Every create is answered ----------

  /** A worker's own steps from now on, at most: reads up to the hundredth try and one write. */
  function StepsLeft(me: Worker): nat {
    match me
    case Probing(_, k) => if k <= 100 then 102 - k else 2
    case Putting(_, _, _, _) => 1
    case Answered(_, _) => 0
  }

  /** The action is the next step of worker `w`. */
  predicate StepOf(sys: System, w: nat, a: Action) {
    w < |sys.workers| && !a.Spawn? && a.w == w && if a.Get? then sys.workers[w].Probing? else sys.workers[w].Putting?
  }

  /**
   Each step of a worker brings it nearer to its answer, and no other step changes it; a failing
   step answers nothing at once and leaves the store alone.
   */
  lemma StepAdvances(p: Probes, sys: System, a: Action, w: nat)
    requires w < |sys.workers|
    ensures var next := Next(p, sys, a);
      && w < |next.workers|
      && (!StepOf(sys, w, a) ==> next.workers[w] == sys.workers[w])
      && (StepOf(sys, w, a) ==> StepsLeft(next.workers[w]) < StepsLeft(sys.workers[w]))
      && (StepOf(sys, w, a) && a.fault.Some? ==>
            next.store == sys.store && next.workers[w] == Answered(sys.workers[w].url, ""))
  {
  }

  /** The steps of worker `w` among the first `n`. */
  function OwnSteps(p: Probes, start: Store, acts: seq<Action>, n: nat, w: nat): nat
    requires n <= |acts|
  {
    if n == 0 then 0
    else OwnSteps(p, start, acts, n - 1, w) + if StepOf(SystemAt(p, start, acts, n - 1), w, acts[n - 1]) then 1 else 0
  }

  /**
   In every interleaving a create is answered after at most 100 steps of its own, whatever the
   others do: 99 reads and a write.
   */
  lemma {:induction false} AnsweredAfterOwnSteps(p: Probes, start: Store, acts: seq<Action>, n: nat, w: nat)
    requires n <= |acts|
    ensures var sys := SystemAt(p, start, acts, n);
      if w < |sys.workers| then OwnSteps(p, start, acts, n, w) + StepsLeft(sys.workers[w]) <= 100
      else OwnSteps(p, start, acts, n, w) == 0
  {
    if n > 0 {
      AnsweredAfterOwnSteps(p, start, acts, n - 1, w);
      var sys := SystemAt(p, start, acts, n - 1);
      if w < |sys.workers| {
        StepAdvances(p, sys, acts[n - 1], w);
      }
    }
  }

  // ---------- When a write changes a taken entry ----------

  /** The URL of the last write of `slug` from time `since` on. */
  function LastPut(puts: seq<PutRecord>, since: nat, slug: string): Option<string> {
    if |puts| <= since then None
    else
      var last := |puts| - 1;
      if puts[last].slug == slug then Some(puts[last].url) else LastPut(puts[..last], since, slug)
  }

  predicate Taken(store: Store, slug: string) {
    slug in store && store[slug] != ""
  }

  ghost predicate WriterInv(sys: System, me: Worker)
    requires me.Putting?
  {
    match LastPut(sys.puts, me.since, me.slug)
    case None => me.since <= |sys.puts| && !Taken(sys.store, me.slug)
    case Some(url) => me.since <= |sys.puts| && me.slug in sys.store && sys.store[me.slug] == url
  }

  /** The worker's slug is taken exactly when it was written after the worker's read. */
  ghost predicate RaceInv(sys: System) {
    && (forall i :: 0 <= i < |sys.puts| ==>
          sys.puts[i].url != "" && sys.puts[i].worker < |sys.workers| && sys.workers[sys.puts[i].worker].Answered?)
    && (forall w :: 0 <= w < |sys.workers| ==> sys.workers[w].url != "")
    && (forall w :: 0 <= w < |sys.workers| && sys.workers[w].Probing? ==> 2 <= sys.workers[w].k <= MAX_TRIES)
    && (forall w :: 0 <= w < |sys.workers| && sys.workers[w].Putting? ==> WriterInv(sys, sys.workers[w]))
  }

  lemma LastPutAppend(puts: seq<PutRecord>, p: PutRecord, since: nat, slug: string)
    requires since <= |puts|
    ensures LastPut(puts + [p], since, slug) == if p.slug == slug then Some(p.url) else LastPut(puts, since, slug)
  {
    assert (puts + [p])[..|puts|] == puts;
  }

  lemma {:induction false} LastPutIs(puts: seq<PutRecord>, since: nat, slug: string)
    ensures LastPut(puts, since, slug).Some? <==> exists i :: since <= i < |puts| && puts[i].slug == slug
    ensures LastPut(puts, since, slug).Some? ==>
              exists i :: since <= i < |puts| && puts[i].slug == slug && LastPut(puts, since, slug) == Some(puts[i].url)
    decreases |puts|
  {
    if |puts| > since {
      var last := |puts| - 1;
      LastPutIs(puts[..last], since, slug);
      if puts[last].slug != slug && LastPut(puts, since, slug).Some? {
        var i :| since <= i < last && puts[..last][i].slug == slug
                 && LastPut(puts[..last], since, slug) == Some(puts[..last][i].url);
        assert puts[i].slug == slug;
      }
      if i :| since <= i < |puts| && puts[i].slug == slug {
        assert i < last ==> puts[..last][i].slug == slug;
      }
    }
  }

  lemma GetKeepsRaceInv(p: Probes, sys: System, w: nat, fault: Option<Failure>)
    requires p.Safe() && RaceInv(sys) && w < |sys.workers| && sys.workers[w].Probing?
    ensures RaceInv(Next(p, sys, Get(w, fault)))
  {
    LoopEnds(p, sys.store, sys.workers[w].url, NO_FAULTS);
  }

  lemma WriteKeepsWriter(sys: System, next: System, me: Worker, p: PutRecord)
    requires me.Putting? && WriterInv(sys, me)
    requires next.puts == sys.puts + [p] && next.store == sys.store[p.slug := p.url]
    ensures WriterInv(next, me)
  {
    LastPutAppend(sys.puts, p, me.since, me.slug);
  }

  lemma PutKeepsRaceInv(p: Probes, sys: System, w: nat)
    requires RaceInv(sys) && w < |sys.workers| && sys.workers[w].Putting?
    ensures RaceInv(Next(p, sys, Put(w, None)))
  {
    var next := Next(p, sys, Put(w, None));
    forall x | 0 <= x < |next.workers| && next.workers[x].Putting? ensures WriterInv(next, next.workers[x]) {
      WriteKeepsWriter(sys, next, next.workers[x], next.puts[|sys.puts|]);
    }
  }

  lemma StepKeepsRaceInv(p: Probes, sys: System, a: Action)
    requires p.Safe() && RaceInv(sys)
    ensures RaceInv(Next(p, sys, a))
  {
    if a.Get? && a.w < |sys.workers| && sys.workers[a.w].Probing? {
      GetKeepsRaceInv(p, sys, a.w, a.fault);
    } else if a.Put? && a.fault.None? && a.w < |sys.workers| && sys.workers[a.w].Putting? {
      PutKeepsRaceInv(p, sys, a.w);
    }
  }

  lemma {:induction false} RaceInvAlways(p: Probes, start: Store, acts: seq<Action>, n: nat)
    requires p.Safe() && n <= |acts|
    ensures RaceInv(SystemAt(p, start, acts, n))
  {
    if n > 0 {
      RaceInvAlways(p, start, acts, n - 1);
      StepKeepsRaceInv(p, SystemAt(p, start, acts, n - 1), acts[n - 1]);
    }
  }

  /**
   In every interleaving, a worker about to write finds its slug taken exactly when another worker
   wrote that slug after this worker's read; the write replaces a URL exactly when the last such
   write was for another URL.
   */
  lemma PutRace(p: Probes, start: Store, acts: seq<Action>, n: nat, w: nat)
    requires p.Safe() && n <= |acts|
    requires w < |SystemAt(p, start, acts, n).workers| && SystemAt(p, start, acts, n).workers[w].Putting?
    ensures var sys := SystemAt(p, start, acts, n);
      var me := sys.workers[w];
      && (Taken(sys.store, me.slug) <==>
            exists i :: me.since <= i < |sys.puts| && sys.puts[i].slug == me.slug && sys.puts[i].worker != w)
      && (Collides(sys.store, me.slug, me.url) <==>
            exists v :: v != me.url && LastPut(sys.puts, me.since, me.slug) == Some(v))
  {
    RaceInvAlways(p, start, acts, n);
    var sys := SystemAt(p, start, acts, n);
    var me := sys.workers[w];
    LastPutIs(sys.puts, me.since, me.slug);
    assert WriterInv(sys, me);
  }

  /** Two URLs with one first candidate: both workers read it free, and the later write wins. */
  lemma RaceLosesEntry(p: Probes, u: string, v: string)
    requires u != "" && v != "" && u != v
    requires p.Has(u, 2) && p.Has(v, 2) && p.Candidate(u, 2) == p.Candidate(v, 2)
    ensures var acts := [Spawn(u), Spawn(v), Get(0, None), Get(1, None), Put(0, None), Put(1, None)];
      var slug := p.Candidate(u, 2);
      && SystemAt(p, map[], acts, 5).workers == [Answered(u, slug), Putting(v, 2, slug, 0)]
      && SystemAt(p, map[], acts, 6).store == map[slug := v]
  {
    var acts := [Spawn(u), Spawn(v), Get(0, None), Get(1, None), Put(0, None), Put(1, None)];
    var slug := p.Candidate(u, 2);
    assert SystemAt(p, map[], acts, 0) == System(map[], [], []);
    assert SystemAt(p, map[], acts, 1).workers == [Probing(u, 2)];
    assert SystemAt(p, map[], acts, 2) == System(map[], [Probing(u, 2), Probing(v, 2)], []);
    assert SystemAt(p, map[], acts, 3) == System(map[], [Putting(u, 2, slug, 0), Probing(v, 2)], []);
    assert SystemAt(p, map[], acts, 4) == System(map[], [Putting(u, 2, slug, 0), Putting(v, 2, slug, 0)], []);
    assert SystemAt(p, map[], acts, 5).workers == [Answered(u, slug), Putting(v, 2, slug, 0)];
  }

  // ---------- Creates of one URL ----------

  /** All creates are for `url` and the database does not fail. */
  predicate OnlyUrl(acts: seq<Action>, url: string) {
    forall a :: a in acts ==>
      match a
      case Spawn(u) => u == url
      case Get(_, fault) => fault.None?
      case Put(_, fault) => fault.None?
  }

  /** Where a create of `url` stands, compared with one create alone on the first store. */
  ghost predicate OneUrlWorker(p: Probes, start: Store, url: string, store: Store, me: Worker)
  {
    var alone := Shorten(p, start, url, NO_FAULTS);
    var stop := StopTry(p, start, url, NO_FAULTS, 2);
    me.url == url &&
    match me
    case Probing(_, k) => 2 <= k <= stop
    case Putting(_, k, slug, _) => slug == alone.answer && alone.store == start[slug := url]
    case Answered(_, answer) => answer == alone.answer && store == alone.store
  }

  ghost predicate OneUrlInv(p: Probes, start: Store, url: string, sys: System)
  {
    && (sys.store == start || sys.store == Shorten(p, start, url, NO_FAULTS).store)
    && forall me :: me in sys.workers ==> OneUrlWorker(p, start, url, sys.store, me)
  }

  /** The read at which one create alone would stop. */
  lemma OneUrlLastGet(p: Probes, start: Store, url: string, store: Store, k: nat, now: nat)
    requires url != "" && 1 <= k && Stops(p, start, url, NO_FAULTS, k)
    requires store == start || store == StopOutcome(p, start, url, NO_FAULTS, k).store
    ensures var alone := StopOutcome(p, start, url, NO_FAULTS, k);
      match AfterGet(p, store, url, k, None, now)
      case Probing(_, _) => false
      case Putting(u, _, slug, _) => u == url && slug == alone.answer && alone.store == start[slug := url]
      case Answered(u, answer) => u == url && answer == alone.answer && store == alone.store
  {
  }

  lemma OneUrlGet(p: Probes, start: Store, url: string, store: Store, k: nat, now: nat)
    requires p.Safe() && url != ""
    requires store == start || store == Shorten(p, start, url, NO_FAULTS).store
    requires 2 <= k <= StopTry(p, start, url, NO_FAULTS, 2)
    ensures OneUrlWorker(p, start, url, store, AfterGet(p, store, url, k, None, now))
  {
    var stop := StopTry(p, start, url, NO_FAULTS, 2);
    LoopEnds(p, start, url, NO_FAULTS);
    CreateKeepsEntries(p, start, url, NO_FAULTS);
    if k < stop {
      assert !Stops(p, start, url, NO_FAULTS, k);
      assert Collides(store, p.Candidate(url, k), url);
    } else {
      ShortenAt(p, start, url, NO_FAULTS, stop);
      OneUrlLastGet(p, start, url, store, stop, now);
    }
  }

  lemma StepKeepsOneUrlInv(p: Probes, start: Store, url: string, sys: System, a: Action)
    requires p.Safe() && url != "" && OnlyUrl([a], url) && OneUrlInv(p, start, url, sys)
    ensures OneUrlInv(p, start, url, Next(p, sys, a))
  {
    assert a in [a];
    LoopEnds(p, start, url, NO_FAULTS);
    var next := Next(p, sys, a);
    if next != sys && !a.Spawn? {
      var me := sys.workers[a.w];
      assert me in sys.workers;
      if a.Get? {
        OneUrlGet(p, start, url, sys.store, me.k, |sys.puts|);
      }
      forall x | x in next.workers ensures OneUrlWorker(p, start, url, next.store, x) {
        var i :| 0 <= i < |next.workers| && next.workers[i] == x;
        assert i != a.w ==> x == sys.workers[i] && x in sys.workers;
      }
    }
  }

  lemma {:induction false} OneUrlInvAlways(p: Probes, start: Store, url: string, acts: seq<Action>, n: nat)
    requires p.Safe() && url != "" && OnlyUrl(acts, url) && n <= |acts|
    ensures OneUrlInv(p, start, url, SystemAt(p, start, acts, n))
  {
    if n > 0 {
      OneUrlInvAlways(p, start, url, acts, n - 1);
      assert acts[n - 1] in acts;
      StepKeepsOneUrlInv(p, start, url, SystemAt(p, start, acts, n - 1), acts[n - 1]);
    }
  }

  /**
   Any number of creates of one URL, in any interleaving, answer the slug that one create alone
   would answer, and together leave the entry that it alone would leave.
   */
  lemma OneUrlOneSlug(p: Probes, start: Store, url: string, acts: seq<Action>, n: nat, w: nat)
    requires p.Safe() && url != "" && OnlyUrl(acts, url) && n <= |acts|
    requires w < |SystemAt(p, start, acts, n).workers| && SystemAt(p, start, acts, n).workers[w].Answered?
    ensures Outcome(SystemAt(p, start, acts, n).store, SystemAt(p, start, acts, n).workers[w].answer)
         == Shorten(p, start, url, NO_FAULTS)
  {
    OneUrlInvAlways(p, start, url, acts, n);
    assert SystemAt(p, start, acts, n).workers[w] in SystemAt(p, start, acts, n).workers;
  }

  // ---------- Runs without lost entries are serial runs ----------

  /** The step does not replace one URL by another. */
  predicate Clean(sys: System, a: Action) {
    a.Put? && a.fault.None? && a.w < |sys.workers| && sys.workers[a.w].Putting? ==>
      !Collides(sys.store, sys.workers[a.w].slug, sys.workers[a.w].url)
  }

  ghost predicate CleanAt(p: Probes, start: Store, acts: seq<Action>, n: nat)
    requires n < |acts|
  {
    Clean(SystemAt(p, start, acts, n), acts[n])
  }

  ghost predicate CleanRun(p: Probes, start: Store, acts: seq<Action>) {
    forall n: nat :: n < |acts| ==> CleanAt(p, start, acts, n)
  }

  /**
   The failure of a step as a failure of a whole create; when the slug was taken since it was read,
   a failed write counts as a failed read of that slug.
   */
  function FaultsOf(sys: System, a: Action): Faults
    requires !a.Spawn? && a.w < |sys.workers| && !sys.workers[a.w].Answered?
  {
    var me := sys.workers[a.w];
    if a.fault.None? then NO_FAULTS
    else if me.Putting? && !Taken(sys.store, me.slug) then Faults(map[], a.fault)
    else Faults(map[me.k := a.fault.value], None)
  }

  /** The create that takes effect at this step, if any: the read that ends it, or the write. */
  function Effect(p: Probes, sys: System, a: Action): seq<Request>
  {
    if a.Spawn? || a.w >= |sys.workers| || sys.workers[a.w].Answered? then []
    else if Next(p, sys, a) != sys && Next(p, sys, a).workers[a.w].Answered? then
      [Create(sys.workers[a.w].url, FaultsOf(sys, a))]
    else []
  }

  function Serial(p: Probes, start: Store, acts: seq<Action>, n: nat): seq<Request>
    requires n <= |acts|
  {
    if n == 0 then []
    else Serial(p, start, acts, n - 1) + Effect(p, SystemAt(p, start, acts, n - 1), acts[n - 1])
  }

  /** All candidates before try `k` are taken by other URLs. */
  ghost predicate Passed(p: Probes, store: Store, url: string, k: nat)
  {
    forall j :: 2 <= j < k ==> p.Has(url, j) && Collides(store, p.Candidate(url, j), url)
  }

  ghost predicate SerialWorker(p: Probes, store: Store, me: Worker)
  {
    me.url != "" &&
    match me
    case Probing(url, k) => 2 <= k <= MAX_TRIES && Passed(p, store, url, k)
    case Putting(url, k, slug, _) =>
      2 <= k <= MAX_TRIES && Passed(p, store, url, k) && p.Has(url, k) && p.Candidate(url, k) == slug
    case Answered(url, answer) => answer != "" ==> answer in store && store[answer] == url
  }

  ghost predicate SerialInv(p: Probes, sys: System)
  {
    forall w :: 0 <= w < |sys.workers| ==> SerialWorker(p, sys.store, sys.workers[w])
  }

  lemma SerialWorkerKept(p: Probes, before: Store, after: Store, me: Worker)
    requires SerialWorker(p, before, me) && Keeps(before, after)
    ensures SerialWorker(p, after, me)
  {
  }

  lemma StepKeepsSerialInv(p: Probes, sys: System, a: Action)
    requires p.Safe() && SerialInv(p, sys) && Clean(sys, a)
    ensures SerialInv(p, Next(p, sys, a)) && Keeps(sys.store, Next(p, sys, a).store)
  {
    var next := Next(p, sys, a);
    if a.Get? && a.w < |sys.workers| && sys.workers[a.w].Probing? {
      LoopEnds(p, sys.store, sys.workers[a.w].url, NO_FAULTS);
      assert SerialWorker(p, sys.store, sys.workers[a.w]);
    }
    forall w | 0 <= w < |next.workers| ensures SerialWorker(p, next.store, next.workers[w]) {
      if w < |sys.workers| {
        SerialWorkerKept(p, sys.store, next.store, sys.workers[w]);
      }
    }
  }

  /** The last step of a create that has passed all candidates before try `k`. */
  lemma LastStepIsSerial(p: Probes, sys: System, a: Action)
    requires p.Safe() && !a.Spawn? && a.w < |sys.workers| && !sys.workers[a.w].Answered?
    requires SerialWorker(p, sys.store, sys.workers[a.w]) && Clean(sys, a) && Effect(p, sys, a) != []
    ensures var me, next := sys.workers[a.w], Next(p, sys, a);
      StopOutcome(p, sys.store, me.url, FaultsOf(sys, a), me.k) == Outcome(next.store, next.workers[a.w].answer)
    ensures var me := sys.workers[a.w]; Stops(p, sys.store, me.url, FaultsOf(sys, a), me.k)
  {
    LoopEnds(p, sys.store, sys.workers[a.w].url, NO_FAULTS);
  }

  /** A step that completes a create does what that create does alone, at this moment. */
  lemma EffectIsSerial(p: Probes, sys: System, a: Action)
    requires p.Safe() && SerialInv(p, sys) && Clean(sys, a)
    ensures Effect(p, sys, a) == [] ==> Next(p, sys, a).store == sys.store
    ensures Effect(p, sys, a) != [] ==>
              var me, next := sys.workers[a.w], Next(p, sys, a);
              && me.url != "" && Effect(p, sys, a) == [Create(me.url, FaultsOf(sys, a))]
              && Shorten(p, sys.store, me.url, FaultsOf(sys, a)) == Outcome(next.store, next.workers[a.w].answer)
  {
    if Effect(p, sys, a) != [] {
      var me, faults := sys.workers[a.w], FaultsOf(sys, a);
      assert SerialWorker(p, sys.store, me);
      LastStepIsSerial(p, sys, a);
      assert forall j :: 2 <= j < me.k ==> !Stops(p, sys.store, me.url, faults, j);
      ShortenAt(p, sys.store, me.url, faults, me.k);
    }
  }

  lemma {:induction false} StoreAtPrefix(p: Probes, start: Store, reqs: seq<Request>, more: seq<Request>, n: nat)
    requires n <= |reqs|
    ensures StoreAt(p, start, reqs + more, n) == StoreAt(p, start, reqs, n)
  {
    if n > 0 {
      StoreAtPrefix(p, start, reqs, more, n - 1);
    }
  }

  /** One more create after a serial run. */
  lemma StoreAtAppend(p: Probes, start: Store, reqs: seq<Request>, url: string, faults: Faults, after: Outcome)
    requires url != "" && Shorten(p, StoreAt(p, start, reqs, |reqs|), url, faults) == after
    ensures var all := reqs + [Create(url, faults)];
      && StoreAt(p, start, all, |all|) == after.store
      && ResponseAt(p, start, all, |all| - 1) == if after.answer == "" then BadRequest else Created(after.answer)
  {
    StoreAtPrefix(p, start, reqs, [Create(url, faults)], |reqs|);
  }

  /** The step gives its worker an answer. */
  predicate Completes(p: Probes, sys: System, a: Action) {
    !a.Spawn? && a.w < |sys.workers| && !sys.workers[a.w].Answered? && Next(p, sys, a).workers[a.w].Answered?
  }

  lemma EffectIff(p: Probes, sys: System, a: Action)
    ensures Completes(p, sys, a) <==> Effect(p, sys, a) != []
    ensures Completes(p, sys, a) ==>
              && |Effect(p, sys, a)| == 1 && Effect(p, sys, a)[0].Create?
              && Effect(p, sys, a)[0].url == sys.workers[a.w].url
  {
  }

  /**
   The serial run `reqs` has the store after step `a`, and if the step completed a create, that
   create is the last request and was answered the same.
   */
  ghost predicate AgreesAfter(p: Probes, start: Store, reqs: seq<Request>, sys: System, a: Action)
  {
    var next := Next(p, sys, a);
    && StoreAt(p, start, reqs, |reqs|) == next.store
    && (Completes(p, sys, a) ==>
          && |reqs| > 0 && reqs[|reqs| - 1].Create? && reqs[|reqs| - 1].url == sys.workers[a.w].url
          && var answer := next.workers[a.w].answer;
             ResponseAt(p, start, reqs, |reqs| - 1) == if answer == "" then BadRequest else Created(answer))
  }

  lemma NoEffectAgrees(p: Probes, start: Store, reqs: seq<Request>, sys: System, a: Action)
    requires Effect(p, sys, a) == [] && Next(p, sys, a).store == sys.store
    requires StoreAt(p, start, reqs, |reqs|) == sys.store
    ensures AgreesAfter(p, start, reqs + [], sys, a)
  {
    EffectIff(p, sys, a);
    assert reqs + [] == reqs;
  }

  /** Extending a serial run by the effect of one step. */
  lemma SerialStep(p: Probes, start: Store, reqs: seq<Request>, sys: System, a: Action)
    requires p.Safe() && SerialInv(p, sys) && Clean(sys, a)
    requires StoreAt(p, start, reqs, |reqs|) == sys.store
    ensures AgreesAfter(p, start, reqs + Effect(p, sys, a), sys, a)
  {
    EffectIsSerial(p, sys, a);
    EffectIff(p, sys, a);
    if Effect(p, sys, a) == [] {
      NoEffectAgrees(p, start, reqs, sys, a);
    } else {
      var next := Next(p, sys, a);
      StoreAtAppend(
        p, start, reqs, sys.workers[a.w].url, FaultsOf(sys, a), Outcome(next.store, next.workers[a.w].answer));
    }
  }

  /**
   An interleaved run in which no write replaces another URL leaves the store of a serial run of
   its creates, in the order in which they took effect, and every create, failed ones included,
   answers as it does there.
   */
  lemma {:induction false} CleanRunIsSerial(p: Probes, start: Store, acts: seq<Action>, n: nat)
    requires p.Safe() && CleanRun(p, start, acts) && n <= |acts|
    ensures SerialInv(p, SystemAt(p, start, acts, n))
    ensures StoreAt(p, start, Serial(p, start, acts, n), |Serial(p, start, acts, n)|)
         == SystemAt(p, start, acts, n).store
    ensures n > 0 ==>
              AgreesAfter(p, start, Serial(p, start, acts, n), SystemAt(p, start, acts, n - 1), acts[n - 1])
  {
    if n > 0 {
      CleanRunIsSerial(p, start, acts, n - 1);
      var sys, a := SystemAt(p, start, acts, n - 1), acts[n - 1];
      assert CleanAt(p, start, acts, n - 1);
      StepKeepsSerialInv(p, sys, a);
      SerialStep(p, start, Serial(p, start, acts, n - 1), sys, a);
    }
  }

  /** So in such a run, two answered slugs are equal exactly when the URLs are. */
  lemma CleanRunAnswers(p: Probes, start: Store, acts: seq<Action>, n: nat, w: nat, x: nat)
    requires p.Safe() && Chained(p, start) && CleanRun(p, start, acts) && n <= |acts|
    requires w < |SystemAt(p, start, acts, n).workers| && x < |SystemAt(p, start, acts, n).workers|
    requires var ws := SystemAt(p, start, acts, n).workers;
      ws[w].Answered? && ws[x].Answered? && ws[w].answer != "" && ws[x].answer != ""
    ensures var ws := SystemAt(p, start, acts, n).workers;
      ws[w].answer == ws[x].answer <==> ws[w].url == ws[x].url
  {
    CleanRunIsSerial(p, start, acts, n);
    var reqs := Serial(p, start, acts, n);
    RunKeeps(p, start, reqs, 0, |reqs|);
    var sys := SystemAt(p, start, acts, n);
    assert SerialWorker(p, sys.store, sys.workers[w]) && SerialWorker(p, sys.store, sys.workers[x]);
    if sys.workers[w].url == sys.workers[x].url {
      ChainedInjective(p, sys.store, sys.workers[w].answer, sys.workers[x].answer);
    }
  }

  // ---------- When entries are permanent ----------

  /** A step keeps every entry exactly when it is clean. */
  lemma StepKeepsIff(p: Probes, sys: System, a: Action)
    requires RaceInv(sys)
    ensures Keeps(sys.store, Next(p, sys, a).store) <==> Clean(sys, a)
  {
    if !Clean(sys, a) {
      assert sys.workers[a.w].slug in sys.store;
    }
  }

  lemma {:induction false} CleanRunKeeps(p: Probes, start: Store, acts: seq<Action>, i: nat, j: nat)
    requires p.Safe() && CleanRun(p, start, acts) && i <= j <= |acts|
    ensures Keeps(SystemAt(p, start, acts, i).store, SystemAt(p, start, acts, j).store)
    decreases j
  {
    if i < j {
      CleanRunKeeps(p, start, acts, i, j - 1);
      assert CleanAt(p, start, acts, j - 1);
      RaceInvAlways(p, start, acts, j - 1);
      StepKeepsIff(p, SystemAt(p, start, acts, j - 1), acts[j - 1]);
    }
  }

  /** No entry of an interleaved run is ever changed. */
  ghost predicate Permanent(p: Probes, start: Store, acts: seq<Action>) {
    forall i: nat, j: nat :: i <= j <= |acts| ==>
      Keeps(SystemAt(p, start, acts, i).store, SystemAt(p, start, acts, j).store)
  }

  /** Entries are permanent through an interleaved run exactly when none of its writes replaces a URL. */
  lemma PermanentIffClean(p: Probes, start: Store, acts: seq<Action>)
    requires p.Safe()
    ensures CleanRun(p, start, acts) <==> Permanent(p, start, acts)
  {
    if CleanRun(p, start, acts) {
      forall i: nat, j: nat | i <= j <= |acts|
        ensures Keeps(SystemAt(p, start, acts, i).store, SystemAt(p, start, acts, j).store)
      {
        CleanRunKeeps(p, start, acts, i, j);
      }
    } else {
      var n: nat :| n < |acts| && !CleanAt(p, start, acts, n);
      RaceInvAlways(p, start, acts, n);
      StepKeepsIff(p, SystemAt(p, start, acts, n), acts[n]);
      assert !Keeps(SystemAt(p, start, acts, n).store, SystemAt(p, start, acts, n + 1).store);
    }
  }

  // ---------- Which sets of URLs are safe to create at the same time ----------

  /** The slug that a create of `url` alone answers on the first store. */
  function Alone(p: Probes, start: Store, url: string): string {
    Shorten(p, start, url, NO_FAULTS).answer
  }

  /** Two different URLs would alone be answered one slug. */
  ghost predicate Contend(p: Probes, start: Store, urls: iset<string>) {
    exists u, v :: u in urls && v in urls && u != v && Alone(p, start, u) == Alone(p, start, v) != ""
  }

  /** All creates are for URLs of the set; the database may fail. */
  ghost predicate FromUrls(acts: seq<Action>, urls: iset<string>) {
    forall a :: a in acts && a.Spawn? ==> a.url in urls
  }

  /** Where a create stands, compared with one create alone on the first store. */
  ghost predicate OnCourse(p: Probes, start: Store, urls: iset<string>, me: Worker) {
    me.url in urls &&
    match me
    case Probing(url, k) => 2 <= k <= StopTry(p, start, url, NO_FAULTS, 2)
    case Putting(url, _, slug, _) => slug == Alone(p, start, url) != "" && !Taken(start, slug)
    case Answered(_, _) => true
  }

  /** New entries are those that creates alone would make. */
  ghost predicate OwnEntries(p: Probes, start: Store, urls: iset<string>, store: Store) {
    && Keeps(start, store)
    && forall s :: s in store && store[s] != "" ==>
         Taken(start, s) || (store[s] in urls && Alone(p, start, store[s]) == s)
  }

  ghost predicate CourseInv(p: Probes, start: Store, urls: iset<string>, sys: System) {
    && OwnEntries(p, start, urls, sys.store)
    && forall me :: me in sys.workers ==> OnCourse(p, start, urls, me)
  }

  /** The try at which a create alone stops: its answer, free or its own, or no digits. */
  lemma AloneStops(p: Probes, start: Store, url: string)
    requires p.Safe() && url != ""
    ensures var k := StopTry(p, start, url, NO_FAULTS, 2);
      && k < MAX_TRIES + 1 && (p.Has(url, k) ==> k < MAX_TRIES)
      && Alone(p, start, url) == (if p.Has(url, k) then p.Candidate(url, k) else "")
      && (p.Has(url, k) ==> Alone(p, start, url) != "" && !Collides(start, Alone(p, start, url), url))
      && forall j :: 2 <= j < k ==> p.Has(url, j) && Collides(start, p.Candidate(url, j), url)
  {
    var k := StopTry(p, start, url, NO_FAULTS, 2);
    LoopEnds(p, start, url, NO_FAULTS);
    forall j | 2 <= j < k ensures p.Has(url, j) && Collides(start, p.Candidate(url, j), url) {
      assert !Stops(p, start, url, NO_FAULTS, j);
    }
    ShortenAt(p, start, url, NO_FAULTS, k);
  }

  lemma GetStaysOnCourse(
      p: Probes, start: Store, urls: iset<string>, store: Store, url: string, k: nat, fault: Option<Failure>, now: nat)
    requires p.Safe() && "" !in urls && !Contend(p, start, urls) && url in urls
    requires OwnEntries(p, start, urls, store) && 2 <= k <= StopTry(p, start, url, NO_FAULTS, 2)
    ensures OnCourse(p, start, urls, AfterGet(p, store, url, k, fault, now))
  {
    AloneStops(p, start, url);
    var stop, slug := StopTry(p, start, url, NO_FAULTS, 2), Alone(p, start, url);
    if k < stop {
      assert Collides(store, p.Candidate(url, k), url);
    } else if p.Has(url, k) && slug in store && store[slug] != "" {
      assert Taken(start, slug) ==> start[slug] == url;
      assert store[slug] == url;
    }
  }

  lemma WriteStaysOnCourse(p: Probes, start: Store, urls: iset<string>, store: Store, me: Worker)
    requires OwnEntries(p, start, urls, store) && OnCourse(p, start, urls, me) && me.Putting?
    ensures OwnEntries(p, start, urls, store[me.slug := me.url])
  {
  }

  lemma OnCourseIsClean(p: Probes, start: Store, urls: iset<string>, sys: System, a: Action)
    requires !Contend(p, start, urls) && CourseInv(p, start, urls, sys)
    ensures Clean(sys, a)
  {
    if a.Put? && a.w < |sys.workers| && sys.workers[a.w].Putting? {
      var me := sys.workers[a.w];
      assert me in sys.workers && OnCourse(p, start, urls, me);
      assert Taken(sys.store, me.slug) ==> Alone(p, start, sys.store[me.slug]) == me.slug;
    }
  }

  lemma StepStaysOnCourse(p: Probes, start: Store, urls: iset<string>, sys: System, a: Action)
    requires p.Safe() && "" !in urls && !Contend(p, start, urls) && (a.Spawn? ==> a.url in urls)
    requires CourseInv(p, start, urls, sys)
    ensures CourseInv(p, start, urls, Next(p, sys, a))
  {
    var next := Next(p, sys, a);
    if a.Spawn? {
      AloneStops(p, start, a.url);
    } else if next != sys {
      var me := sys.workers[a.w];
      assert me in sys.workers;
      if a.Get? {
        GetStaysOnCourse(p, start, urls, sys.store, me.url, me.k, a.fault, |sys.puts|);
      } else {
        WriteStaysOnCourse(p, start, urls, sys.store, me);
      }
      forall x | x in next.workers ensures OnCourse(p, start, urls, x) {
        var i :| 0 <= i < |next.workers| && next.workers[i] == x;
        assert i != a.w ==> x == sys.workers[i] && x in sys.workers;
      }
    }
  }

  lemma {:induction false} AlwaysOnCourse(p: Probes, start: Store, urls: iset<string>, acts: seq<Action>, n: nat)
    requires p.Safe() && "" !in urls && !Contend(p, start, urls) && FromUrls(acts, urls) && n <= |acts|
    ensures CourseInv(p, start, urls, SystemAt(p, start, acts, n))
  {
    if n > 0 {
      AlwaysOnCourse(p, start, urls, acts, n - 1);
      assert acts[n - 1] in acts;
      StepStaysOnCourse(p, start, urls, SystemAt(p, start, acts, n - 1), acts[n - 1]);
    }
  }

  /** The system at the end of a run. */
  function Final(p: Probes, start: Store, acts: seq<Action>): System {
    SystemAt(p, start, acts, |acts|)
  }

  lemma {:induction false} SystemAtPrefix(p: Probes, start: Store, acts: seq<Action>, a: Action, n: nat)
    requires n <= |acts|
    ensures SystemAt(p, start, acts + [a], n) == SystemAt(p, start, acts, n)
  {
    if n > 0 {
      SystemAtPrefix(p, start, acts, a, n - 1);
    }
  }

  lemma OneMore(p: Probes, start: Store, acts: seq<Action>, a: Action) returns (more: seq<Action>)
    ensures more == acts + [a] && Final(p, start, more) == Next(p, Final(p, start, acts), a)
    ensures SystemAt(p, start, more, |acts|) == Final(p, start, acts)
  {
    more := acts + [a];
    SystemAtPrefix(p, start, acts, a, |acts|);
  }

  /** A worker alone in moving reads on until it is about to write its answer. */
  lemma {:induction false} DriveToPut(p: Probes, start: Store, urls: iset<string>, acts: seq<Action>, w: nat, url: string, k: nat)
    returns (more: seq<Action>)
    requires p.Safe() && url != "" && FromUrls(acts, urls)
    requires Alone(p, start, url) != "" && !Taken(start, Alone(p, start, url))
    requires var sys := Final(p, start, acts);
      sys.store == start && w < |sys.workers| && sys.workers[w] == Probing(url, k)
    requires 2 <= k <= StopTry(p, start, url, NO_FAULTS, 2)
    ensures FromUrls(more, urls)
    ensures var before, sys := Final(p, start, acts).workers, Final(p, start, more);
      && sys.store == start && |sys.workers| == |before|
      && sys.workers[w].Putting? && sys.workers[w].url == url && sys.workers[w].slug == Alone(p, start, url)
      && forall x :: 0 <= x < |before| && x != w ==> sys.workers[x] == before[x]
    decreases StopTry(p, start, url, NO_FAULTS, 2) - k
  {
    AloneStops(p, start, url);
    more := OneMore(p, start, acts, Get(w, None));
    if k < StopTry(p, start, url, NO_FAULTS, 2) {
      assert Final(p, start, more).workers[w] == Probing(url, k + 1);
      more := DriveToPut(p, start, urls, more, w, url, k + 1);
    }
  }

  /** Two workers with one answer: both read it free, then both write. */
  lemma ContendersRace(p: Probes, start: Store, urls: iset<string>, u: string, v: string) returns (acts: seq<Action>)
    requires p.Safe() && "" !in urls && u in urls && v in urls && u != v
    requires Alone(p, start, u) == Alone(p, start, v) != ""
    ensures FromUrls(acts, urls) && !CleanRun(p, start, acts)
  {
    AloneStops(p, start, u);
    AloneStops(p, start, v);
    acts := OneMore(p, start, [], Spawn(u));
    acts := OneMore(p, start, acts, Spawn(v));
    assert Final(p, start, acts).workers == [Probing(u, 2), Probing(v, 2)];
    acts := DriveToPut(p, start, urls, acts, 0, u, 2);
    acts := DriveToPut(p, start, urls, acts, 1, v, 2);
    acts := OneMore(p, start, acts, Put(0, None));
    var n := |acts|;
    acts := OneMore(p, start, acts, Put(1, None));
    assert !CleanAt(p, start, acts, n);
  }

  /** Creates of URLs that do not contend run as if one after the other. */
  lemma UncontendedIsClean(p: Probes, start: Store, urls: iset<string>, acts: seq<Action>)
    requires p.Safe() && "" !in urls && !Contend(p, start, urls) && FromUrls(acts, urls)
    ensures CleanRun(p, start, acts)
  {
    forall n: nat | n < |acts| ensures CleanAt(p, start, acts, n) {
      AlwaysOnCourse(p, start, urls, acts, n);
      OnCourseIsClean(p, start, urls, SystemAt(p, start, acts, n), acts[n]);
    }
  }

  /**
   Entries are permanent in all interleavings of any number of creates of some URLs, whatever
   database operations fail, exactly when no two of the URLs would alone be answered one slug.
   */
  lemma PermanentIff(p: Probes, start: Store, urls: iset<string>)
    requires p.Safe() && "" !in urls
    ensures (forall acts :: FromUrls(acts, urls) ==> Permanent(p, start, acts)) <==> !Contend(p, start, urls)
  {
    if Contend(p, start, urls) {
      var u, v :| u in urls && v in urls && u != v && Alone(p, start, u) == Alone(p, start, v) != "";
      var acts := ContendersRace(p, start, urls, u, v);
      PermanentIffClean(p, start, acts);
    } else {
      forall acts | FromUrls(acts, urls) ensures Permanent(p, start, acts) {
        UncontendedIsClean(p, start, urls, acts);
        PermanentIffClean(p, start, acts);
      }
    }
  }
}
