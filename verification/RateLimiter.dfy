/**
 The rate limiter: a table of accesses per address that is emptied when its window is older than a
 time to live, and the decision that admits or rejects a request after it was logged.
 */
module RateLimiter {
  import opened Digits
  import opened RequestPaths
  import opened Wrappers

  type Ip = string

  /** Clock readings count nanoseconds; durations are truncated toward zero to whole seconds. */
  const TICKS_PER_SECOND := 1_000_000_000
  const MIN_TIME := -0x8000_0000_0000_0000
  const COUNT_LIMIT := 0x1_0000_0000

  function Seconds(d: int): int {
    if d >= 0 then d / TICKS_PER_SECOND else -(-d / TICKS_PER_SECOND)
  }

  /** Whole seconds, truncated toward zero on both sides. */
  lemma SecondsIs(d: int, s: int)
    ensures d >= 0 ==> (Seconds(d) == s <==> s * 1_000_000_000 <= d < (s + 1) * 1_000_000_000)
    ensures d <= 0 ==> (Seconds(d) == s <==> (s - 1) * 1_000_000_000 < d <= s * 1_000_000_000)
  {
  }

  /** The three times the clock is read while an access is logged. */
  datatype Clock = Clock(added: int, checked: int, recycled: int) {
    predicate Forward() {
      added <= checked <= recycled
    }
  }

  datatype Limiter = Limiter(counts: map<Ip, nat>, recycled: int, added: int)

  /** One more access of an address; 32-bit counts wrap around. */
  function Counted(counts: map<Ip, nat>, ip: Ip): map<Ip, nat> {
    counts[ip := if ip in counts then (counts[ip] + 1) % COUNT_LIMIT else 1]
  }

  predicate Expires(l: Limiter, ttl: nat, t: Clock) {
    Seconds(t.checked - l.recycled) > ttl
  }

  /** The limiter after an access; the access that finds the window too old is forgotten with it. */
  function Logged(l: Limiter, ttl: nat, ip: Ip, t: Clock): Limiter {
    if Expires(l, ttl, t) then Limiter(map[], t.recycled, t.added)
    else Limiter(Counted(l.counts, ip), l.recycled, t.added)
  }

  /** Whole minutes of the window, at least one. */
  function Minutes(seconds: int): nat {
    if seconds / 60 > 0 then seconds / 60 else 1
  }

  function Hits(l: Limiter, ip: Ip): nat {
    if l.added < l.recycled || ip !in l.counts || l.counts[ip] == 0 || Seconds(l.added - l.recycled) == 0 then 0
    else l.counts[ip] / Minutes(Seconds(l.added - l.recycled))
  }

  class IPAccessCountService {
    var ipAccessCount: map<Ip, nat>
    var timeLastRecycled: int
    var timeLastAdded: int
    const ttl: nat

    function View(): Limiter
      reads this
    {
      Limiter(ipAccessCount, timeLastRecycled, timeLastAdded)
    }

    constructor (ttl: nat, now: int)
      ensures View() == Limiter(map[], now, MIN_TIME) && this.ttl == ttl
    {
      ipAccessCount, timeLastRecycled, timeLastAdded := map[], now, MIN_TIME;
      this.ttl := ttl;
    }

    method Recycle(now: int)
      modifies this
      ensures ipAccessCount == map[] && timeLastRecycled == now && timeLastAdded == old(timeLastAdded)
    {
      ipAccessCount := map[];
      timeLastRecycled := now;
    }

    method CheckRecycle(t: Clock)
      modifies this
      ensures timeLastAdded == old(timeLastAdded)
      ensures if Seconds(t.checked - old(timeLastRecycled)) > ttl
              then ipAccessCount == map[] && timeLastRecycled == t.recycled
              else ipAccessCount == old(ipAccessCount) && timeLastRecycled == old(timeLastRecycled)
    {
      var age := Seconds(t.checked - timeLastRecycled);
      if age > ttl {
        Recycle(t.recycled);
      }
    }

    method LogAccess(ip: Ip, t: Clock)
      modifies this
      ensures View() == Logged(old(View()), ttl, ip, t)
    {
      if ip !in ipAccessCount {
        ipAccessCount := ipAccessCount[ip := 1];
      } else {
        ipAccessCount := ipAccessCount[ip := (ipAccessCount[ip] + 1) % COUNT_LIMIT];
      }
      timeLastAdded := t.added;
      CheckRecycle(t);
    }

    method HitsPerMinute(ip: Ip) returns (hits: nat)
      ensures hits == Hits(View(), ip)
    {
      if timeLastAdded < timeLastRecycled {
        return 0;
      }
      if ip !in ipAccessCount {
        return 0;
      }
      var count := ipAccessCount[ip];
      if count == 0 {
        return 0;
      }
      var overSeconds := Seconds(timeLastAdded - timeLastRecycled);
      if overSeconds == 0 {
        return 0;
      }
      hits := count / (if overSeconds / 60 > 0 then overSeconds / 60 else 1);
    }
  }

  /** The requests that the limiter looks at. */
  predicate Protected(method_: Method, path: string) {
    method_ == POST || method_ == PUT || method_ == DELETE || "/api/" <= path
  }

  predicate Admits(l: Limiter, ip: Ip, limit: nat) {
    Hits(l, ip) <= limit
  }

  lemma ProtectedIff(method_: Method, path: string)
    ensures Protected(method_, path)
      <==> method_ in {POST, PUT, DELETE} || exists rest :: path == "/api/" + rest
  {
    if "/api/" <= path {
      assert path == "/api/" + path[5..];
    }
  }

  /** Every request that creates a short URL is looked at. */
  lemma CreatesAreProtected(frontend: set<string>, path: string, method_: Method)
    requires path != "" && Route(frontend, path, method_) == MakeUrl
    ensures Protected(method_, path)
  {
    MakeUrlIff(frontend, path, method_);
  }

  /**
   The admission filter: a protected request is logged first, then judged.  One whose headers claim
   an address that cannot be trusted or parsed (`client` is `None`) is rejected and not logged.
   */
  method OnRequest(
      svc: IPAccessCountService, limit: nat, method_: Method, path: string, client: Option<Ip>, t: Clock)
    returns (admitted: bool)
    modifies svc
    ensures svc.View() ==
              if Protected(method_, path) && client.Some? then Logged(old(svc.View()), svc.ttl, client.value, t)
              else old(svc.View())
    ensures admitted <==>
              !Protected(method_, path) || (client.Some? && Admits(svc.View(), client.value, limit))
  {
    if method_ == POST || method_ == PUT || method_ == DELETE || "/api/" <= path {
      if client.None? {
        return false;
      }
      svc.LogAccess(client.value, t);
      var hits := svc.HitsPerMinute(client.value);
      if hits > limit {
        return false;
      }
    }
    admitted := true;
  }

  // ---------- Runs of accesses ----------

  datatype Access = Access(ip: Ip, t: Clock)

  function LimiterAt(start: int, ttl: nat, log: seq<Access>): Limiter {
    if log == [] then Limiter(map[], start, MIN_TIME)
    else
      var last := log[|log| - 1];
      Logged(LimiterAt(start, ttl, log[..|log| - 1]), ttl, last.ip, last.t)
  }

  /** The addresses of the accesses since the window began, without the access that began it. */
  function Window(start: int, ttl: nat, log: seq<Access>): seq<Ip> {
    if log == [] then []
    else
      var init, last := log[..|log| - 1], log[|log| - 1];
      if Expires(LimiterAt(start, ttl, init), ttl, last.t) then [] else Window(start, ttl, init) + [last.ip]
  }

  function Ips(log: seq<Access>): (ips: seq<Ip>)
    ensures |ips| == |log|
  {
    if log == [] then [] else Ips(log[..|log| - 1]) + [log[|log| - 1].ip]
  }

  /** Access number `k` found the window more than its time to live old. */
  predicate ExpiredAt(start: int, ttl: nat, log: seq<Access>, k: nat)
    requires k < |log|
  {
    log[k].t.checked - LimiterAt(start, ttl, log[..k]).recycled >= (ttl + 1) * 1_000_000_000
  }

  /** A window is emptied when it is a whole second older than its time to live. */
  lemma ExpiresIff(l: Limiter, ttl: nat, t: Clock)
    ensures Expires(l, ttl, t) <==> t.checked - l.recycled >= (ttl + 1) * 1_000_000_000
  {
  }

  /** The accesses from number `k` on found the window young enough, and the one before did not. */
  ghost predicate Since(start: int, ttl: nat, log: seq<Access>, k: nat) {
    && k <= |log| && (forall j :: k <= j < |log| ==> !ExpiredAt(start, ttl, log, j))
    && (k > 0 ==> ExpiredAt(start, ttl, log, k - 1))
  }

  lemma SinceGrows(start: int, ttl: nat, log: seq<Access>, k: nat)
    requires log != [] && Since(start, ttl, log[..|log| - 1], k) && !ExpiredAt(start, ttl, log, |log| - 1)
    ensures Since(start, ttl, log, k)
  {
    var init := log[..|log| - 1];
    forall j | 0 <= j < |init| ensures ExpiredAt(start, ttl, log, j) <==> ExpiredAt(start, ttl, init, j) {
      assert init[..j] == log[..j];
    }
  }

  lemma IpsGrow(log: seq<Access>, k: nat)
    requires k < |log|
    ensures Ips(log[k..]) == Ips(log[..|log| - 1][k..]) + [log[|log| - 1].ip]
  {
    assert log[k..][..|log| - k - 1] == log[..|log| - 1][k..];
  }

  /**
   The window holds the accesses after the last one that found the previous window too old, and it
   began when that one was checked; its age is taken at the last access.
   */
  lemma {:induction false} WindowIsSuffix(start: int, ttl: nat, log: seq<Access>) returns (k: nat)
    ensures Since(start, ttl, log, k) && Window(start, ttl, log) == Ips(log[k..])
    ensures LimiterAt(start, ttl, log).recycled == if k == 0 then start else log[k - 1].t.recycled
    ensures log != [] ==> LimiterAt(start, ttl, log).added == log[|log| - 1].t.added
    decreases |log|
  {
    k := 0;
    if log != [] {
      var n := |log| - 1;
      ExpiresIff(LimiterAt(start, ttl, log[..n]), ttl, log[n].t);
      if ExpiredAt(start, ttl, log, n) {
        k := n + 1;
      } else {
        k := WindowIsSuffix(start, ttl, log[..n]);
        SinceGrows(start, ttl, log, k);
        IpsGrow(log, k);
      }
    }
  }

  /** Accesses of one address among the given ones. */
  function Accesses(ips: seq<Ip>, ip: Ip): nat {
    multiset(ips)[ip]
  }

  /** The table counts the given accesses, modulo 32 bits. */
  ghost predicate Counts(counts: map<Ip, nat>, ips: seq<Ip>) {
    forall ip ::
      && (ip in counts <==> Accesses(ips, ip) > 0)
      && (ip in counts ==> counts[ip] == Accesses(ips, ip) % COUNT_LIMIT)
  }

  lemma ModSuccessor(n: nat)
    ensures (n % COUNT_LIMIT + 1) % COUNT_LIMIT == (n + 1) % COUNT_LIMIT
  {
  }

  lemma AccessesAppend(ips: seq<Ip>, last: Ip)
    ensures forall ip :: Accesses(ips + [last], ip) == Accesses(ips, ip) + if ip == last then 1 else 0
  {
  }

  lemma CountedCounts(counts: map<Ip, nat>, ips: seq<Ip>, last: Ip)
    requires Counts(counts, ips)
    ensures Counts(Counted(counts, last), ips + [last])
  {
    var after := Counted(counts, last);
    forall ip
      ensures ip in after <==> Accesses(ips + [last], ip) > 0
      ensures ip in after ==> after[ip] == Accesses(ips + [last], ip) % COUNT_LIMIT
    {
      AccessesAppend(ips, last);
      assert ip in counts <==> Accesses(ips, ip) > 0;
      ModSuccessor(Accesses(ips, ip));
    }
  }

  /** In every run, each entry is the number of accesses of its address in the window, modulo 32 bits. */
  lemma {:induction false} EntriesAreAccesses(start: int, ttl: nat, log: seq<Access>)
    ensures Counts(LimiterAt(start, ttl, log).counts, Window(start, ttl, log))
    decreases |log|
  {
    if log != [] {
      var init, last := log[..|log| - 1], log[|log| - 1];
      EntriesAreAccesses(start, ttl, init);
      CountedCounts(LimiterAt(start, ttl, init).counts, Window(start, ttl, init), last.ip);
    }
  }

  lemma CountAtMost(ips: seq<Ip>, ip: Ip)
    ensures Accesses(ips, ip) <= |ips|
  {
    assert |multiset(ips)| == |ips|;
    assert multiset(ips) == multiset(ips)[ip := 0] + multiset{}[ip := multiset(ips)[ip]];
  }

  lemma CountsExact(counts: map<Ip, nat>, ips: seq<Ip>, ip: Ip)
    requires Counts(counts, ips) && |ips| < COUNT_LIMIT
    ensures Accesses(ips, ip) <= |ips|
    ensures if ip in counts then counts[ip] == Accesses(ips, ip) > 0 else Accesses(ips, ip) == 0
  {
    CountAtMost(ips, ip);
    assert ip in counts <==> Accesses(ips, ip) > 0;
  }

  /** While the window holds fewer accesses than a 32-bit count can, entries are exact. */
  lemma EntryExact(start: int, ttl: nat, log: seq<Access>, ip: Ip)
    requires |Window(start, ttl, log)| < COUNT_LIMIT
    ensures var counts, n := LimiterAt(start, ttl, log).counts, Accesses(Window(start, ttl, log), ip);
      n <= |Window(start, ttl, log)| && if ip in counts then counts[ip] == n > 0 else n == 0
  {
    EntriesAreAccesses(start, ttl, log);
    CountsExact(LimiterAt(start, ttl, log).counts, Window(start, ttl, log), ip);
  }

  /** The sum of all entries of a table. */
  ghost function Sum(m: map<Ip, nat>): nat
    decreases m.Keys
  {
    if m == map[] then 0
    else
      var k :| k in m;
      assert (m - {k}).Keys == m.Keys - {k};
      m[k] + Sum(m - {k})
  }

  lemma {:induction false} SumRemove(m: map<Ip, nat>, k: Ip)
    requires k in m
    ensures Sum(m) == m[k] + Sum(m - {k})
    decreases m.Keys
  {
    var j :| j in m && Sum(m) == m[j] + Sum(m - {j});
    if j != k {
      assert (m - {j}).Keys == m.Keys - {j};
      assert (m - {k}).Keys == m.Keys - {k};
      SumRemove(m - {j}, k);
      SumRemove(m - {k}, j);
      assert m - {j} - {k} == m - {k} - {j};
    }
  }

  lemma SumPut(m: map<Ip, nat>, k: Ip, v: nat)
    ensures Sum(m[k := v]) == v + Sum(m - {k})
  {
    SumRemove(m[k := v], k);
    assert m[k := v] - {k} == m - {k};
  }

  lemma SumAgain(m: map<Ip, nat>, k: Ip)
    requires k in m
    ensures Sum(m[k := m[k] + 1]) == Sum(m) + 1
  {
    SumPut(m, k, m[k] + 1);
    SumRemove(m, k);
  }

  lemma SumNew(m: map<Ip, nat>, k: Ip)
    requires k !in m
    ensures Sum(m[k := 1]) == Sum(m) + 1
  {
    SumPut(m, k, 1);
    assert m - {k} == m;
  }

  lemma SumCounted(counts: map<Ip, nat>, ip: Ip)
    requires ip in counts ==> counts[ip] + 1 < COUNT_LIMIT
    ensures Sum(Counted(counts, ip)) == Sum(counts) + 1
  {
    if ip in counts {
      SumAgain(counts, ip);
      assert Counted(counts, ip) == counts[ip := counts[ip] + 1];
    } else {
      SumNew(counts, ip);
    }
  }

  /** The entries sum to the number of accesses in the window. */
  lemma {:induction false} SumIsWindow(start: int, ttl: nat, log: seq<Access>)
    requires |Window(start, ttl, log)| < COUNT_LIMIT
    ensures Sum(LimiterAt(start, ttl, log).counts) == |Window(start, ttl, log)|
    decreases |log|
  {
    if log != [] {
      var init, last := log[..|log| - 1], log[|log| - 1];
      if !Expires(LimiterAt(start, ttl, init), ttl, last.t) {
        SumIsWindow(start, ttl, init);
        EntryExact(start, ttl, init, last.ip);
        SumCounted(LimiterAt(start, ttl, init).counts, last.ip);
      }
    }
  }

  lemma SecondsMonotone(c: int, d: int)
    requires c <= d
    ensures Seconds(c) <= Seconds(d)
  {
  }

  /** After every access the window is at most as old as the time to live, in whole seconds. */
  lemma AgeBound(start: int, ttl: nat, log: seq<Access>)
    requires log != [] && log[|log| - 1].t.Forward()
    ensures var l := LimiterAt(start, ttl, log);
      && Seconds(l.added - l.recycled) <= ttl && Seconds(log[|log| - 1].t.checked - l.recycled) <= ttl
      && l.added - l.recycled < (ttl + 1) * 1_000_000_000
  {
    var last, before := log[|log| - 1], LimiterAt(start, ttl, log[..|log| - 1]);
    SecondsMonotone(last.t.added - before.recycled, last.t.checked - before.recycled);
    SecondsMonotone(last.t.added - last.t.recycled, 0);
    SecondsMonotone(last.t.checked - last.t.recycled, 0);
  }

  // ---------- Admission ----------

  /** Whole-second age of the window at the last access. */
  function Age(l: Limiter): int {
    Seconds(l.added - l.recycled)
  }

  lemma DivAbove(c: nat, m: nat, limit: nat)
    requires m > 0
    ensures c / m > limit <==> c >= (limit + 1) * m
  {
    var q, r := c / m, c % m;
    assert c == q * m + r;
    if q > limit {
      assert q * m >= (limit + 1) * m by { MulMonotone(limit + 1, q, m); }
    } else {
      assert (q + 1) * m <= (limit + 1) * m by { MulMonotone(q + 1, limit + 1, m); }
    }
  }

  lemma HitsAbove(l: Limiter, ip: Ip, n: nat, limit: nat)
    requires if ip in l.counts then l.counts[ip] == n else n == 0
    ensures Hits(l, ip) > limit
      <==> l.recycled <= l.added && Age(l) >= 1 && n >= (limit + 1) * Minutes(Age(l))
  {
    if l.recycled <= l.added && Age(l) >= 1 {
      DivAbove(n, Minutes(Age(l)), limit);
      MulMonotone(1, limit + 1, Minutes(Age(l)));
    }
  }

  /**
   In every run, the decision after an access rejects the address exactly when the window is at
   least one whole second old and holds at least `limit + 1` of its accesses per whole minute.
   */
  lemma RejectedIff(start: int, ttl: nat, log: seq<Access>, ip: Ip, limit: nat)
    requires |Window(start, ttl, log)| < COUNT_LIMIT
    ensures var l := LimiterAt(start, ttl, log);
      !Admits(l, ip, limit)
      <==> l.recycled <= l.added && Age(l) >= 1
           && Accesses(Window(start, ttl, log), ip) >= (limit + 1) * Minutes(Age(l))
  {
    var l := LimiterAt(start, ttl, log);
    EntryExact(start, ttl, log, ip);
    HitsAbove(l, ip, Accesses(Window(start, ttl, log), ip), limit);
  }

  lemma MinutesIs(seconds: nat, m: nat)
    requires m >= 1 && seconds < 60 * (m + 1) && (m == 1 || 60 * m <= seconds)
    ensures Minutes(seconds) == m
  {
  }

  lemma SecondsWithin(age: nat, m: nat)
    requires m >= 1 && age < 60_000_000_000 * (m + 1) && (m == 1 || 60_000_000_000 * m <= age)
    ensures Seconds(age) < 60 * (m + 1) && (m == 1 || 60 * m <= Seconds(age))
  {
  }

  /**
   The rejection in nanoseconds: an address is rejected exactly when its window is a second old and
   it made `limit + 1` accesses for each of the `m` whole minutes, at least one, of its age.
   */
  lemma RejectedInTime(start: int, ttl: nat, log: seq<Access>, ip: Ip, limit: nat, m: nat)
    requires |Window(start, ttl, log)| < 4_294_967_296
    requires var l := LimiterAt(start, ttl, log);
      var age := l.added - l.recycled;
      m >= 1 && age < 60_000_000_000 * (m + 1) && (m == 1 || 60_000_000_000 * m <= age)
    ensures var l := LimiterAt(start, ttl, log);
      !Admits(l, ip, limit)
      <==> && l.added - l.recycled >= 1_000_000_000
           && Accesses(Window(start, ttl, log), ip) >= (limit + 1) * m
  {
    RejectedIff(start, ttl, log, ip, limit);
    var l := LimiterAt(start, ttl, log);
    if l.added - l.recycled >= 1_000_000_000 {
      SecondsWithin(l.added - l.recycled, m);
      MinutesIs(Age(l), m);
    }
  }

  /** The accesses of an address in the window that were admitted when it was at least a second old. */
  function AdmittedLate(start: int, ttl: nat, log: seq<Access>, ip: Ip, limit: nat): nat {
    if log == [] then 0
    else
      var init, last := log[..|log| - 1], log[|log| - 1];
      var l := LimiterAt(start, ttl, log);
      if Expires(LimiterAt(start, ttl, init), ttl, last.t) then 0
      else AdmittedLate(start, ttl, init, ip, limit)
           + if last.ip == ip && Admits(l, ip, limit) && l.recycled <= l.added && Age(l) >= 1 then 1 else 0
  }

  lemma {:induction false} AdmittedAreAccesses(start: int, ttl: nat, log: seq<Access>, ip: Ip, limit: nat)
    ensures AdmittedLate(start, ttl, log, ip, limit) <= Accesses(Window(start, ttl, log), ip)
    decreases |log|
  {
    if log != [] {
      AdmittedAreAccesses(start, ttl, log[..|log| - 1], ip, limit);
    }
  }

  /**
   An admitted access at age `e` of at least one second is at most number `limit * m + m - 1` of its
   address in the window, where `m` is the whole minutes of `e` but at least 1.
   */
  lemma MinuteBound(start: int, ttl: nat, log: seq<Access>, ip: Ip, limit: nat)
    requires |Window(start, ttl, log)| < COUNT_LIMIT
    requires var l := LimiterAt(start, ttl, log); Admits(l, ip, limit) && l.recycled <= l.added && Age(l) >= 1
    ensures var m := Minutes(Age(LimiterAt(start, ttl, log)));
      Accesses(Window(start, ttl, log), ip) <= limit * m + m - 1
  {
    RejectedIff(start, ttl, log, ip, limit);
    var m := Minutes(Age(LimiterAt(start, ttl, log)));
    assert (limit + 1) * m == limit * m + m;
  }

  lemma Within(n: nat, m: nat, most: nat, limit: nat)
    requires n <= limit * m + m - 1 && 1 <= m <= most
    ensures n <= limit * most + most - 1
  {
    MulMonotone(m, most, limit);
  }

  /** The same bound for the whole life of a window. */
  lemma AdmissionBoundTtl(start: int, ttl: nat, log: seq<Access>, ip: Ip, limit: nat)
    requires |Window(start, ttl, log)| < COUNT_LIMIT && log != [] && log[|log| - 1].t.Forward()
    requires var l := LimiterAt(start, ttl, log); Admits(l, ip, limit) && l.recycled <= l.added && Age(l) >= 1
    ensures Accesses(Window(start, ttl, log), ip) <= limit * Minutes(ttl) + Minutes(ttl) - 1
  {
    MinuteBound(start, ttl, log, ip, limit);
    AgeBound(start, ttl, log);
    Within(Accesses(Window(start, ttl, log), ip), Minutes(Age(LimiterAt(start, ttl, log))), Minutes(ttl), limit);
  }

  /**
   Over every run with a clock that does not go back, a window admits at most
   `limit * m + m - 1` accesses of one address after its first second, where `m` is the whole
   minutes of the time to live but at least 1.
   */
  lemma {:induction false} AdmittedInLife(start: int, ttl: nat, log: seq<Access>, ip: Ip, limit: nat)
    requires |Window(start, ttl, log)| < COUNT_LIMIT && forall a :: a in log ==> a.t.Forward()
    ensures AdmittedLate(start, ttl, log, ip, limit) <= limit * Minutes(ttl) + Minutes(ttl) - 1
    decreases |log|
  {
    Within(0, 1, Minutes(ttl), limit);
    if log != [] {
      var init := log[..|log| - 1];
      assert forall a :: a in init ==> a in log;
      assert log[|log| - 1] in log;
      if !Expires(LimiterAt(start, ttl, init), ttl, log[|log| - 1].t) {
        AdmittedInLife(start, ttl, init, ip, limit);
        if AdmittedLate(start, ttl, log, ip, limit) > AdmittedLate(start, ttl, init, ip, limit) {
          AdmittedAreAccesses(start, ttl, log, ip, limit);
          AdmissionBoundTtl(start, ttl, log, ip, limit);
        }
      }
    }
  }

  /**
   The bounds in numbers: an address admitted when its window is at least a second and, in whole
   minutes, `m` old made at most `limit * m + m - 1` accesses in it.
   */
  lemma AdmissionBound(start: int, ttl: nat, log: seq<Access>, ip: Ip, limit: nat, m: nat)
    requires |Window(start, ttl, log)| < 4_294_967_296
    requires var l := LimiterAt(start, ttl, log);
      var age := l.added - l.recycled;
      Admits(l, ip, limit) && age >= 1_000_000_000
      && m >= 1 && age < 60_000_000_000 * (m + 1) && (m == 1 || 60_000_000_000 * m <= age)
    ensures Accesses(Window(start, ttl, log), ip) <= limit * m + m - 1
  {
    RejectedInTime(start, ttl, log, ip, limit, m);
    assert (limit + 1) * m == limit * m + m;
  }

  /** Access number `j` is one of `ip` in the current window, admitted when that was a second old. */
  ghost predicate LateAdmission(start: int, ttl: nat, log: seq<Access>, j: nat, ip: Ip, limit: nat) {
    && j < |log| && log[j].ip == ip && (forall i :: j <= i < |log| ==> !ExpiredAt(start, ttl, log, i))
    && var l := LimiterAt(start, ttl, log[..j + 1]);
       l.added - l.recycled >= 1_000_000_000 && Admits(l, ip, limit)
  }

  lemma LateAdmissionBefore(start: int, ttl: nat, log: seq<Access>, j: nat, ip: Ip, limit: nat)
    requires LateAdmission(start, ttl, log, j, ip, limit) && j < |log| - 1
    ensures LateAdmission(start, ttl, log[..|log| - 1], j, ip, limit)
  {
    var init := log[..|log| - 1];
    assert init[..j + 1] == log[..j + 1];
    forall i | j <= i < |init| ensures !ExpiredAt(start, ttl, init, i) {
      assert init[..i] == log[..i] && !ExpiredAt(start, ttl, log, i);
    }
  }

  lemma LateAdmissionCounts(start: int, ttl: nat, log: seq<Access>, ip: Ip, limit: nat)
    requires log != [] && LateAdmission(start, ttl, log, |log| - 1, ip, limit)
    ensures AdmittedLate(start, ttl, log, ip, limit) == AdmittedLate(start, ttl, log[..|log| - 1], ip, limit) + 1
  {
    assert log[..|log|] == log;
    assert !ExpiredAt(start, ttl, log, |log| - 1);
    ExpiresIff(LimiterAt(start, ttl, log[..|log| - 1]), ttl, log[|log| - 1].t);
  }

  lemma {:induction false} LateAdmissionsCount(
      start: int, ttl: nat, log: seq<Access>, ip: Ip, limit: nat, late: set<nat>)
    requires forall j :: j in late ==> LateAdmission(start, ttl, log, j, ip, limit)
    ensures |late| <= AdmittedLate(start, ttl, log, ip, limit)
    decreases |log|
  {
    if late != {} {
      var n := |log| - 1;
      var some :| some in late;
      assert !ExpiredAt(start, ttl, log, n);
      ExpiresIff(LimiterAt(start, ttl, log[..n]), ttl, log[n].t);
      forall j | j in late - {n} ensures LateAdmission(start, ttl, log[..n], j, ip, limit) {
        LateAdmissionBefore(start, ttl, log, j, ip, limit);
      }
      LateAdmissionsCount(start, ttl, log[..n], ip, limit, late - {n});
      if n in late {
        LateAdmissionCounts(start, ttl, log, ip, limit);
        assert |late - {n}| == |late| - 1;
      } else {
        assert late - {n} == late;
      }
    }
  }

  /**
   Over every run with a clock that does not go back, a window whose time to live is `m` whole
   minutes, at least one, admits at most that many accesses of an address after its first second.
   */
  lemma AdmittedPerWindow(
      start: int, ttl: nat, log: seq<Access>, ip: Ip, limit: nat, m: nat, late: set<nat>)
    requires |Window(start, ttl, log)| < 4_294_967_296 && forall a :: a in log ==> a.t.Forward()
    requires m >= 1 && ttl < 60 * (m + 1) && (m == 1 || 60 * m <= ttl)
    requires forall j :: j in late ==> LateAdmission(start, ttl, log, j, ip, limit)
    ensures |late| <= limit * m + m - 1
  {
    MinutesIs(ttl, m);
    LateAdmissionsCount(start, ttl, log, ip, limit, late);
    AdmittedInLife(start, ttl, log, ip, limit);
  }

  /** An access in the first whole second of a window that the limiter just began. */
  predicate InFirstSecond(start: int, ttl: nat, t: Clock) {
    Seconds(t.added - start) == 0 && Seconds(t.checked - start) <= ttl
  }

  lemma FirstSecondStep(l: Limiter, start: int, ttl: nat, ip: Ip, t: Clock)
    requires l.recycled == start && InFirstSecond(start, ttl, t)
    ensures !Expires(l, ttl, t)
    ensures Logged(l, ttl, ip, t).recycled == start && Logged(l, ttl, ip, t).added == t.added
  {
  }

  /** Nothing is recycled in the first second, so that all its accesses are in the table. */
  lemma {:induction false} FirstSecondWindow(start: int, ttl: nat, log: seq<Access>)
    requires forall a :: a in log ==> InFirstSecond(start, ttl, a.t)
    ensures Window(start, ttl, log) == Ips(log)
    ensures var l := LimiterAt(start, ttl, log);
      l.recycled == start && (log != [] ==> l.added == log[|log| - 1].t.added)
    decreases |log|
  {
    if log != [] {
      var init, last := log[..|log| - 1], log[|log| - 1];
      assert last in log && forall a :: a in init ==> a in log;
      FirstSecondWindow(start, ttl, init);
      FirstSecondStep(LimiterAt(start, ttl, init), start, ttl, last.ip, last.t);
    }
  }

  lemma NoHits(l: Limiter, ip: Ip)
    requires l.counts == map[] || Age(l) == 0
    ensures Hits(l, ip) == 0
  {
  }

  /**
   The first second has no bound: as long as all accesses fall into the first whole second of the
   window, all of them are in the table and all are admitted, whatever the limit.
   */
  lemma FirstSecondAdmitted(start: int, ttl: nat, log: seq<Access>, ip: Ip, limit: nat)
    requires forall a :: a in log ==> InFirstSecond(start, ttl, a.t)
    ensures Window(start, ttl, log) == Ips(log) && Admits(LimiterAt(start, ttl, log), ip, limit)
  {
    FirstSecondWindow(start, ttl, log);
    assert log != [] ==> log[|log| - 1] in log;
    NoHits(LimiterAt(start, ttl, log), ip);
  }
}
