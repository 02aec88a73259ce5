/** The cache of static files, filled chunk by chunk while the first response streams. */
module StaticCache {
  import opened StaticStreaming
  import opened Wrappers

  type Contents = map<string, seq<Byte>>

  /** Appending to a path that is not cached starts its entry. */
  function Appended(cache: Contents, path: string, bytes: seq<Byte>): Contents {
    cache[path := (if path in cache then cache[path] else []) + bytes]
  }

  class StaticFileCache {
    var cache: Contents

    constructor ()
      ensures cache == map[]
    {
      cache := map[];
    }

    method Exists(path: string) returns (found: bool)
      ensures found <==> path in cache
    {
      found := path in cache;
    }

    method Get(path: string) returns (body: Option<seq<Byte>>)
      ensures body == if path in cache then Some(cache[path]) else None
    {
      body := if path in cache then Some(cache[path]) else None;
    }

    /** A missing path reads as an empty file here. */
    method GetCopy(path: string) returns (body: seq<Byte>)
      ensures path in cache ==> body == cache[path]
      ensures path !in cache ==> body == []
    {
      if path !in cache {
        return [];
      }
      body := cache[path];
    }

    /** Setting does not replace an entry. */
    method Set(path: string, body: seq<Byte>)
      modifies this
      ensures cache == if path in old(cache) then old(cache) else old(cache)[path := body]
    {
      if path !in cache {
        cache := cache[path := body];
      }
    }

    method AppendData(path: string, bytes: seq<Byte>)
      modifies this
      ensures cache == Appended(old(cache), path, bytes)
    {
      if path !in cache {
        cache := cache[path := bytes];
        assert [] + bytes == bytes;
      } else {
        cache := cache[path := cache[path] + bytes];
      }
    }
  }

  /** What a request is answered from the cache at once, if anything. */
  function Hit(cache: Contents, path: string): Option<seq<Byte>> {
    if path in cache then Some(cache[path]) else None
  }

  /** The part of a request that looks into the cache. */
  method AnswerFromCache(files: StaticFileCache, path: string) returns (body: Option<seq<Byte>>)
    ensures body == Hit(files.cache, path)
  {
    var found := files.Exists(path);
    if found {
      body := files.Get(path);
    } else {
      body := None;
    }
  }

  // ---------- Requests for many paths at once ----------

  /** A response being streamed from disk, with the bytes it delivered so far. */
  datatype Response = Response(path: string, sent: seq<Byte>)

  datatype Server = Server(cache: Contents, streams: map<nat, Response>)

  /** A new request; delivery of the next `n` bytes or of the end of a response; a response that stops early. */
  datatype Action = Request(id: nat, path: string) | DeliverBytes(id: nat, n: nat) | DeliverEnd(id: nat) | Stop(id: nat)

  predicate Enabled(files: string -> seq<Byte>, s: Server, a: Action) {
    match a
    case Request(id, _) => id !in s.streams
    case DeliverBytes(id, n) => id in s.streams && 0 < n <= |files(s.streams[id].path)| - |s.streams[id].sent|
    case DeliverEnd(id) => id in s.streams && |s.streams[id].sent| == |files(s.streams[id].path)|
    case Stop(id) => id in s.streams
  }

  /** A cached path is answered at once and streams nothing. */
  function Next(files: string -> seq<Byte>, s: Server, a: Action): Server {
    if !Enabled(files, s, a) then s
    else match a
      case Request(id, path) =>
        if path in s.cache then s else s.(streams := s.streams[id := Response(path, [])])
      case DeliverBytes(id, n) =>
        var r := s.streams[id];
        var bytes := files(r.path)[|r.sent|..|r.sent| + n];
        Server(Appended(s.cache, r.path, bytes), s.streams[id := r.(sent := r.sent + bytes)])
      case _ => s.(streams := s.streams - {a.id})
  }

  /** The server's step for an event that the protocol of one response delivers, if it has one. */
  function ServerStep(id: nat, e: Event): Option<Action> {
    match e
    case Chunk(bytes) => Some(DeliverBytes(id, |bytes|))
    case Eom => Some(DeliverEnd(id))
    case Abort => Some(Stop(id))
    case DoneReading => None
  }

  /** The server's step sends the same bytes as the protocol does, and appends them to the cache. */
  ghost predicate Follows(
      files: string -> seq<Byte>, r: State, mark: bool, s: Server, id: nat, path: string)
    requires r.events != []
  {
    var after := AfterDeliver(r, mark);
    match ServerStep(id, r.events[0])
    case None => after.sent == r.sent
    case Some(step) =>
      && Enabled(files, s, step)
      && (r.events[0].Chunk? ==>
            Next(files, s, step)
            == Server(Appended(s.cache, path, r.events[0].bytes), s.streams[id := Response(path, after.sent)]))
  }

  lemma ContinuingFollows(files: string -> seq<Byte>, r: State, mark: bool, s: Server, id: nat, path: string)
    requires r.events != [] && Continues(files(path), r) && id in s.streams && s.streams[id] == Response(path, r.sent)
    ensures Follows(files, r, mark, s, id, path)
  {
  }

  /**
   What the streaming protocol delivers in any interleaving without a racing callback is an enabled
   step of the server with the same response.
   */
  lemma DeliveryIsServerStep(
      files: string -> seq<Byte>, acts: seq<StaticStreaming.Action>, mark: bool, s: Server, id: nat, path: string)
    requires RaceFree(files(path), acts, mark)
    requires var r := After(files(path), OPENED, acts, mark);
      !r.deleted && r.events != [] && id in s.streams && s.streams[id] == Response(path, r.sent)
    ensures Follows(files, After(files(path), OPENED, acts, mark), mark, s, id, path)
  {
    DeliveryContinues(files(path), acts, mark);
    ContinuingFollows(files, After(files(path), OPENED, acts, mark), mark, s, id, path);
  }

  function ServerAt(files: string -> seq<Byte>, acts: seq<Action>, n: nat): Server
    requires n <= |acts|
  {
    if n == 0 then Server(map[], map[]) else Next(files, ServerAt(files, acts, n - 1), acts[n - 1])
  }

  predicate Streams(s: Server, path: string, id: nat) {
    id in s.streams && s.streams[id].path == path
  }

  /** A response for `path` that delivered something already. */
  predicate Delivers(s: Server, path: string, id: nat) {
    Streams(s, path, id) && s.streams[id].sent != []
  }

  /** The first bytes of a response for `path` meet an entry that another response started. */
  predicate Joins(files: string -> seq<Byte>, s: Server, a: Action, path: string) {
    a.DeliverBytes? && Enabled(files, s, a) && Streams(s, path, a.id) && !Delivers(s, path, a.id) && path in s.cache
  }

  /** A response for `path` that stops before it delivered the whole file. */
  predicate StopsEarly(files: string -> seq<Byte>, s: Server, a: Action, path: string) {
    a.Stop? && Streams(s, path, a.id) && |s.streams[a.id].sent| < |files(path)|
  }

  /** Such a response that delivered something. */
  predicate Truncates(files: string -> seq<Byte>, s: Server, a: Action, path: string) {
    StopsEarly(files, s, a, path) && Delivers(s, path, a.id)
  }

  /** An uncached request for `path` while another one is being streamed. */
  ghost predicate Overlaps(files: string -> seq<Byte>, s: Server, a: Action, path: string) {
    && a.Request? && a.path == path && Enabled(files, s, a) && path !in s.cache
    && exists id :: Streams(s, path, id)
  }

  /** Some one of the first `n` steps joins, and so on. */
  ghost predicate Joined(files: string -> seq<Byte>, acts: seq<Action>, n: nat, path: string)
    requires n <= |acts|
  {
    n > 0 && (Joined(files, acts, n - 1, path) || Joins(files, ServerAt(files, acts, n - 1), acts[n - 1], path))
  }

  ghost predicate Truncated(files: string -> seq<Byte>, acts: seq<Action>, n: nat, path: string)
    requires n <= |acts|
  {
    n > 0 && (Truncated(files, acts, n - 1, path) || Truncates(files, ServerAt(files, acts, n - 1), acts[n - 1], path))
  }

  ghost predicate StoppedEarly(files: string -> seq<Byte>, acts: seq<Action>, n: nat, path: string)
    requires n <= |acts|
  {
    n > 0 && (StoppedEarly(files, acts, n - 1, path) || StopsEarly(files, ServerAt(files, acts, n - 1), acts[n - 1], path))
  }

  ghost predicate Overlapped(files: string -> seq<Byte>, acts: seq<Action>, n: nat, path: string)
    requires n <= |acts|
  {
    n > 0 && (Overlapped(files, acts, n - 1, path) || Overlaps(files, ServerAt(files, acts, n - 1), acts[n - 1], path))
  }

  // ---------- Without joins: one response fills the entry ----------

  /** The entry is what the one delivering response sent; when it left, the file or a truncated one. */
  ghost predicate CacheInv(files: string -> seq<Byte>, s: Server, path: string, truncated: bool) {
    && (forall i, j :: Delivers(s, path, i) && Delivers(s, path, j) ==> i == j)
    && (forall id :: Delivers(s, path, id) ==> path in s.cache && s.cache[path] == s.streams[id].sent)
    && (path in s.cache ==> s.cache[path] <= files(path) && s.cache[path] != [])
    && (truncated ==> path in s.cache && forall id :: !Delivers(s, path, id))
    && (path in s.cache && (forall id :: !Delivers(s, path, id)) ==> (s.cache[path] == files(path) <==> !truncated))
  }

  lemma BytesKeepCacheInv(files: string -> seq<Byte>, s: Server, id: nat, n: nat, path: string, truncated: bool)
    requires CacheInv(files, s, path, truncated) && Enabled(files, s, DeliverBytes(id, n))
    requires !Joins(files, s, DeliverBytes(id, n), path)
    ensures CacheInv(files, Next(files, s, DeliverBytes(id, n)), path, truncated)
  {
    var t, r := Next(files, s, DeliverBytes(id, n)), s.streams[id];
    assert forall i :: i != id ==> (Delivers(t, path, i) <==> Delivers(s, path, i));
    if r.path == path {
      var file, k := files(path), |r.sent|;
      assert Streams(s, path, id) && Delivers(t, path, id);
      assert r.sent == file[..k];
      assert file[..k + n] == file[..k] + file[k..k + n];
      assert t.streams[id].sent == file[..k + n] && t.cache[path] == file[..k + n];
    } else {
      assert !Delivers(s, path, id) && !Delivers(t, path, id);
    }
  }

  lemma StepKeepsCacheInv(files: string -> seq<Byte>, s: Server, a: Action, path: string, truncated: bool)
    requires CacheInv(files, s, path, truncated) && !Joins(files, s, a, path)
    ensures CacheInv(files, Next(files, s, a), path, truncated || Truncates(files, s, a, path))
  {
    if Enabled(files, s, a) {
      match a
      case DeliverBytes(id, n) => BytesKeepCacheInv(files, s, id, n, path, truncated);
      case Request(id, p) =>
        assert forall i :: Delivers(Next(files, s, a), path, i) <==> Delivers(s, path, i);
      case _ =>
        assert forall i :: Delivers(Next(files, s, a), path, i) <==> Delivers(s, path, i) && i != a.id;
    }
  }

  lemma {:induction false} CacheInvAlways(files: string -> seq<Byte>, acts: seq<Action>, n: nat, path: string)
    requires n <= |acts| && !Joined(files, acts, n, path)
    ensures CacheInv(files, ServerAt(files, acts, n), path, Truncated(files, acts, n, path))
  {
    if n > 0 {
      CacheInvAlways(files, acts, n - 1, path);
      StepKeepsCacheInv(
        files, ServerAt(files, acts, n - 1), acts[n - 1], path, Truncated(files, acts, n - 1, path));
    }
  }

  /**
   While no response joined and none was truncated, whatever happens on other paths, a hit answers
   the whole file exactly when no response is in the middle of it; until then it answers what that
   response delivered so far.
   */
  lemma CacheAgrees(files: string -> seq<Byte>, acts: seq<Action>, n: nat, path: string)
    requires n <= |acts| && !Joined(files, acts, n, path) && !Truncated(files, acts, n, path)
    requires Hit(ServerAt(files, acts, n).cache, path).Some?
    ensures var s := ServerAt(files, acts, n);
      && (Hit(s.cache, path) == Some(files(path)) <==>
            !exists id :: Delivers(s, path, id) && |s.streams[id].sent| < |files(path)|)
      && (forall id :: Delivers(s, path, id) ==> Hit(s.cache, path) == Some(s.streams[id].sent))
  {
    CacheInvAlways(files, acts, n, path);
    var s := ServerAt(files, acts, n);
    if id :| Delivers(s, path, id) && |s.streams[id].sent| < |files(path)| {
      assert s.cache[path] == s.streams[id].sent;
    } else if id :| Delivers(s, path, id) {
      assert s.cache[path] == s.streams[id].sent && |s.streams[id].sent| >= |files(path)|;
    }
  }

  /** Even when responses stop early, a hit answers a non-empty prefix of the file while none joined. */
  lemma CachePrefix(files: string -> seq<Byte>, acts: seq<Action>, n: nat, path: string)
    requires n <= |acts| && !Joined(files, acts, n, path) && path in ServerAt(files, acts, n).cache
    ensures ServerAt(files, acts, n).cache[path] <= files(path) && ServerAt(files, acts, n).cache[path] != []
  {
    CacheInvAlways(files, acts, n, path);
  }

  lemma {:induction false} EntriesGrow(files: string -> seq<Byte>, acts: seq<Action>, k: nat, n: nat, path: string)
    requires k <= n <= |acts| && path in ServerAt(files, acts, k).cache
    ensures path in ServerAt(files, acts, n).cache
    ensures |ServerAt(files, acts, k).cache[path]| <= |ServerAt(files, acts, n).cache[path]|
    decreases n
  {
    if k < n {
      EntriesGrow(files, acts, k, n - 1, path);
    }
  }

  /** The end of a response for `path`. */
  predicate Ends(files: string -> seq<Byte>, s: Server, a: Action, path: string) {
    a.DeliverEnd? && Streams(s, path, a.id) && |s.streams[a.id].sent| == |files(path)|
  }

  lemma {:induction false} NotJoinedBefore(files: string -> seq<Byte>, acts: seq<Action>, k: nat, n: nat, path: string)
    requires k <= n <= |acts| && !Joined(files, acts, n, path)
    ensures !Joined(files, acts, k, path)
    decreases n
  {
    if k < n {
      NotJoinedBefore(files, acts, k, n - 1, path);
    }
  }

  lemma EndedEntry(files: string -> seq<Byte>, s: Server, a: Action, path: string, truncated: bool)
    requires CacheInv(files, s, path, truncated) && files(path) != [] && Ends(files, s, a, path)
    ensures path in s.cache && |s.cache[path]| == |files(path)|
  {
    assert Delivers(s, path, a.id);
  }

  lemma EntryAtEnd(files: string -> seq<Byte>, acts: seq<Action>, k: nat, path: string)
    requires k < |acts| && !Joined(files, acts, k, path)
    requires files(path) != [] && Ends(files, ServerAt(files, acts, k), acts[k], path)
    ensures path in ServerAt(files, acts, k).cache && |ServerAt(files, acts, k).cache[path]| == |files(path)|
  {
    CacheInvAlways(files, acts, k, path);
    EndedEntry(files, ServerAt(files, acts, k), acts[k], path, Truncated(files, acts, k, path));
  }

  lemma WholePrefix(part: seq<Byte>, file: seq<Byte>)
    requires part <= file && |file| <= |part|
    ensures part == file
  {
  }

  /** Once a response for a non-empty file ended, every later hit answers the whole file. */
  lemma HitsAfterEnd(files: string -> seq<Byte>, acts: seq<Action>, k: nat, n: nat, path: string)
    requires k < n <= |acts| && !Joined(files, acts, n, path)
    requires files(path) != [] && Ends(files, ServerAt(files, acts, k), acts[k], path)
    ensures Hit(ServerAt(files, acts, n).cache, path) == Some(files(path))
  {
    NotJoinedBefore(files, acts, k, n, path);
    EntryAtEnd(files, acts, k, path);
    EntriesGrow(files, acts, k, n, path);
    CachePrefix(files, acts, n, path);
    WholePrefix(ServerAt(files, acts, n).cache[path], files(path));
  }

  // ---------- With joins: two responses fill the entry ----------

  /** The bytes that a response for `path` delivered, the whole file when it is over. */
  function Delivered(files: string -> seq<Byte>, s: Server, path: string, id: nat): nat {
    if Streams(s, path, id) then |s.streams[id].sent| else |files(path)|
  }

  function EntrySize(s: Server, path: string): nat {
    if path in s.cache then |s.cache[path]| else 0
  }

  /** The entry holds what two responses delivered. */
  predicate Doubled(files: string -> seq<Byte>, s: Server, path: string, i: nat, j: nat) {
    && i != j && EntrySize(s, path) >= Delivered(files, s, path, i) + Delivered(files, s, path, j)
    && (path !in s.cache ==> Streams(s, path, i) && Streams(s, path, j))
  }

  lemma StepKeepsDoubled(files: string -> seq<Byte>, s: Server, a: Action, path: string, i: nat, j: nat)
    requires files(path) != [] && Doubled(files, s, path, i, j)
    requires StopsEarly(files, s, a, path) ==> a.id != i && a.id != j
    ensures Doubled(files, Next(files, s, a), path, i, j)
  {
  }

  /** A response for `path` that is over, or delivered something already. */
  ghost predicate Contributed(s: Server, path: string, id: nat) {
    Streams(s, path, id) ==> Delivers(s, path, id)
  }

  /** What is in the entry came from one response, or after a join from two. */
  ghost predicate JoinInv(files: string -> seq<Byte>, s: Server, path: string, joined: bool) {
    && (path in s.cache ==> files(path) != [])
    && (path !in s.cache ==> !joined && forall id :: !Delivers(s, path, id))
    && (path in s.cache ==>
          exists i :: Contributed(s, path, i) && EntrySize(s, path) >= Delivered(files, s, path, i))
    && (joined ==> exists i, j :: Contributed(s, path, i) && Contributed(s, path, j) && Doubled(files, s, path, i, j))
  }

  lemma StepKeepsContributed(files: string -> seq<Byte>, s: Server, a: Action, path: string, id: nat)
    requires path in s.cache && Contributed(s, path, id) && EntrySize(s, path) >= Delivered(files, s, path, id)
    requires !Truncates(files, s, a, path)
    ensures var t := Next(files, s, a);
      Contributed(t, path, id) && EntrySize(t, path) >= Delivered(files, t, path, id)
  {
  }

  lemma JoinDoubles(files: string -> seq<Byte>, s: Server, a: Action, path: string, i: nat)
    requires Contributed(s, path, i) && EntrySize(s, path) >= Delivered(files, s, path, i)
    requires Joins(files, s, a, path)
    ensures var t := Next(files, s, a);
      Contributed(t, path, i) && Contributed(t, path, a.id) && Doubled(files, t, path, i, a.id)
  {
  }

  lemma FirstBytes(files: string -> seq<Byte>, s: Server, a: Action, path: string)
    requires path !in s.cache && (forall id :: !Delivers(s, path, id)) && path in Next(files, s, a).cache
    ensures var t := Next(files, s, a);
      && a.DeliverBytes? && files(path) != []
      && Contributed(t, path, a.id) && EntrySize(t, path) >= Delivered(files, t, path, a.id)
  {
    assert !Delivers(s, path, a.id);
  }

  lemma StepKeepsJoinInv(files: string -> seq<Byte>, s: Server, a: Action, path: string, joined: bool)
    requires JoinInv(files, s, path, joined) && !Truncates(files, s, a, path)
    ensures JoinInv(files, Next(files, s, a), path, joined || Joins(files, s, a, path))
  {
    var t := Next(files, s, a);
    if path in s.cache {
      var i :| Contributed(s, path, i) && EntrySize(s, path) >= Delivered(files, s, path, i);
      StepKeepsContributed(files, s, a, path, i);
      if joined {
        var j, k :| Contributed(s, path, j) && Contributed(s, path, k) && Doubled(files, s, path, j, k);
        StepKeepsContributed(files, s, a, path, j);
        StepKeepsContributed(files, s, a, path, k);
        StepKeepsDoubled(files, s, a, path, j, k);
      } else if Joins(files, s, a, path) {
        JoinDoubles(files, s, a, path, i);
      }
    } else if path in t.cache {
      FirstBytes(files, s, a, path);
    } else {
      assert forall id :: Delivers(t, path, id) ==> Delivers(s, path, id);
    }
  }

  lemma {:induction false} JoinInvAlways(files: string -> seq<Byte>, acts: seq<Action>, n: nat, path: string)
    requires n <= |acts| && !Truncated(files, acts, n, path)
    ensures JoinInv(files, ServerAt(files, acts, n), path, Joined(files, acts, n, path))
  {
    if n > 0 {
      JoinInvAlways(files, acts, n - 1, path);
      StepKeepsJoinInv(files, ServerAt(files, acts, n - 1), acts[n - 1], path, Joined(files, acts, n - 1, path));
    }
  }

  /** No response streams `path`, and it is cached. */
  ghost predicate Settled(s: Server, path: string) {
    path in s.cache && forall id :: !Streams(s, path, id)
  }

  /**
   When all responses for a path are over, and not both a join and a truncation happened, a hit
   answers the file exactly when neither happened.
   */
  lemma SettledIff(files: string -> seq<Byte>, acts: seq<Action>, n: nat, path: string)
    requires n <= |acts| && Settled(ServerAt(files, acts, n), path)
    requires !Joined(files, acts, n, path) || !Truncated(files, acts, n, path)
    ensures Hit(ServerAt(files, acts, n).cache, path) == Some(files(path))
      <==> !Joined(files, acts, n, path) && !Truncated(files, acts, n, path)
  {
    var s := ServerAt(files, acts, n);
    if !Joined(files, acts, n, path) {
      CacheInvAlways(files, acts, n, path);
      assert forall id :: !Delivers(s, path, id);
    } else {
      JoinInvAlways(files, acts, n, path);
      var i, j :| Doubled(files, s, path, i, j);
      assert !Streams(s, path, i) && !Streams(s, path, j);
    }
  }

  lemma {:induction false} SamePrefix(files: string -> seq<Byte>, acts: seq<Action>, a: Action, n: nat)
    requires n <= |acts|
    ensures ServerAt(files, acts + [a], n) == ServerAt(files, acts, n)
  {
    if n > 0 {
      SamePrefix(files, acts, a, n - 1);
    }
  }

  /** One more step of a run. */
  lemma OneMore(files: string -> seq<Byte>, acts: seq<Action>, a: Action)
    ensures ServerAt(files, acts + [a], |acts| + 1) == Next(files, ServerAt(files, acts, |acts|), a)
  {
    SamePrefix(files, acts, a, |acts|);
  }

  // ---------- Overlapping requests ----------

  /** Without overlap one response at most streams a path, and it started the entry. */
  ghost predicate AloneInv(s: Server, path: string) {
    && (forall i, j :: Streams(s, path, i) && Streams(s, path, j) ==> i == j)
    && (forall id :: Streams(s, path, id) ==> (Delivers(s, path, id) <==> path in s.cache))
  }

  lemma StepKeepsAloneInv(files: string -> seq<Byte>, s: Server, a: Action, path: string)
    requires AloneInv(s, path) && !Overlaps(files, s, a, path)
    ensures AloneInv(Next(files, s, a), path) && !Joins(files, s, a, path)
  {
    var t := Next(files, s, a);
    if a.DeliverBytes? && Enabled(files, s, a) {
      assert |t.streams[a.id].sent| == |s.streams[a.id].sent| + a.n;
    }
    forall i | Streams(t, path, i)
      ensures Delivers(t, path, i) <==> path in t.cache
      ensures Streams(s, path, i) || (a.Request? && i == a.id && forall j :: !Streams(s, path, j))
    {
      assert Streams(s, path, i) || (a.Request? && a.path == path && i == a.id && path !in s.cache);
      assert a.DeliverBytes? && Streams(s, path, a.id) ==> i == a.id;
    }
  }

  lemma {:induction false} AloneNeverJoins(files: string -> seq<Byte>, acts: seq<Action>, n: nat, path: string)
    requires n <= |acts| && !Overlapped(files, acts, n, path)
    ensures AloneInv(ServerAt(files, acts, n), path) && !Joined(files, acts, n, path)
  {
    if n > 0 {
      AloneNeverJoins(files, acts, n - 1, path);
      StepKeepsAloneInv(files, ServerAt(files, acts, n - 1), acts[n - 1], path);
    }
  }

  lemma {:induction false} NothingBeforeEntry(files: string -> seq<Byte>, acts: seq<Action>, n: nat, path: string)
    requires n <= |acts| && path !in ServerAt(files, acts, n).cache
    ensures forall id :: !Delivers(ServerAt(files, acts, n), path, id)
  {
    if n > 0 {
      NothingBeforeEntry(files, acts, n - 1, path);
      assert forall id :: Delivers(ServerAt(files, acts, n), path, id) ==> Delivers(ServerAt(files, acts, n - 1), path, id);
    }
  }

  lemma OverlapDoubles(files: string -> seq<Byte>, acts: seq<Action>, k: nat, path: string) returns (i: nat, j: nat)
    requires k < |acts| && Overlaps(files, ServerAt(files, acts, k), acts[k], path)
    ensures Doubled(files, ServerAt(files, acts, k + 1), path, i, j)
  {
    NothingBeforeEntry(files, acts, k, path);
    var s := ServerAt(files, acts, k);
    i :| Streams(s, path, i);
    j := acts[k].id;
    assert !Delivers(s, path, i);
  }

  lemma {:induction false} OverlappedIsDoubled(
      files: string -> seq<Byte>, acts: seq<Action>, n: nat, path: string) returns (i: nat, j: nat)
    requires n <= |acts| && files(path) != []
    requires Overlapped(files, acts, n, path) && !StoppedEarly(files, acts, n, path)
    ensures Doubled(files, ServerAt(files, acts, n), path, i, j)
  {
    if Overlapped(files, acts, n - 1, path) {
      i, j := OverlappedIsDoubled(files, acts, n - 1, path);
      StepKeepsDoubled(files, ServerAt(files, acts, n - 1), acts[n - 1], path, i, j);
    } else {
      i, j := OverlapDoubles(files, acts, n - 1, path);
    }
  }

  lemma {:induction false} WholeIsNotTruncated(files: string -> seq<Byte>, acts: seq<Action>, n: nat, path: string)
    requires n <= |acts| && !StoppedEarly(files, acts, n, path)
    ensures !Truncated(files, acts, n, path)
  {
    if n > 0 {
      WholeIsNotTruncated(files, acts, n - 1, path);
    }
  }

  /**
   When every response for a path delivers the whole file and all are over, a hit answers the file
   exactly when no uncached requests for it overlapped.
   */
  lemma OverlapIff(files: string -> seq<Byte>, acts: seq<Action>, n: nat, path: string)
    requires n <= |acts| && Settled(ServerAt(files, acts, n), path) && !StoppedEarly(files, acts, n, path)
    ensures Hit(ServerAt(files, acts, n).cache, path) == Some(files(path)) <==> !Overlapped(files, acts, n, path)
  {
    WholeIsNotTruncated(files, acts, n, path);
    JoinInvAlways(files, acts, n, path);
    if Overlapped(files, acts, n, path) {
      var i, j := OverlappedIsDoubled(files, acts, n, path);
    } else {
      AloneNeverJoins(files, acts, n, path);
      SettledIff(files, acts, n, path);
    }
  }

  /**
   Without overlapping requests, when all responses for a path are over, a hit answers the file
   exactly when no response that delivered something stopped early.
   */
  lemma AloneIff(files: string -> seq<Byte>, acts: seq<Action>, n: nat, path: string)
    requires n <= |acts| && Settled(ServerAt(files, acts, n), path) && !Overlapped(files, acts, n, path)
    ensures Hit(ServerAt(files, acts, n).cache, path) == Some(files(path)) <==> !Truncated(files, acts, n, path)
  {
    AloneNeverJoins(files, acts, n, path);
    SettledIff(files, acts, n, path);
  }

  /** Two overlapping responses both append the first byte of a file. */
  lemma OverlapOfTwo(files: string -> seq<Byte>, x: Byte)
    requires files("f") != [] && files("f")[0] == x
    ensures ServerAt(files, [Request(0, "f"), Request(1, "f"), DeliverBytes(0, 1), DeliverBytes(1, 1)], 4)
         == Server(map["f" := [x, x]], map[0 := Response("f", [x]), 1 := Response("f", [x])])
  {
    var acts := [Request(0, "f"), Request(1, "f"), DeliverBytes(0, 1), DeliverBytes(1, 1)];
    assert ServerAt(files, acts, 0) == Server(map[], map[]);
    assert ServerAt(files, acts, 1) == Server(map[], map[0 := Response("f", [])]);
    assert ServerAt(files, acts, 2) == Server(map[], map[0 := Response("f", []), 1 := Response("f", [])]);
    assert files("f")[0..1] == [x] == [] + [x];
    assert ServerAt(files, acts, 3)
        == Server(map["f" := [x]], map[0 := Response("f", [x]), 1 := Response("f", [])]);
    assert [x] + [x] == [x, x];
    assert Appended(map["f" := [x]], "f", [x]) == map["f" := [x, x]];
  }

  /** So a later hit can answer the file twice. */
  lemma OverlapDuplicates(x: Byte)
    ensures var files := (_: string) => [x];
      var acts := [Request(0, "f"), Request(1, "f"), DeliverBytes(0, 1), DeliverBytes(1, 1)];
      Hit(ServerAt(files, acts, 4).cache, "f") == Some([x, x])
  {
    OverlapOfTwo((_: string) => [x], x);
  }

  lemma StopBoth(files: string -> seq<Byte>, acts: seq<Action>, cache: Contents, r: Response)
    requires ServerAt(files, acts, |acts|) == Server(cache, map[0 := r, 1 := r])
    ensures ServerAt(files, acts + [Stop(0)] + [Stop(1)], |acts| + 2) == Server(cache, map[])
  {
    OneMore(files, acts, Stop(0));
    OneMore(files, acts + [Stop(0)], Stop(1));
  }

  /** With both, chance decides: here two truncated responses make up the file. */
  lemma ChanceFile(x: Byte)
    ensures var files := (_: string) => [x, x];
      var acts := [Request(0, "f"), Request(1, "f"), DeliverBytes(0, 1), DeliverBytes(1, 1)] + [Stop(0)] + [Stop(1)];
      ServerAt(files, acts, 6) == Server(map["f" := files("f")], map[])
  {
    var files := (_: string) => [x, x];
    OverlapOfTwo(files, x);
    var acts := [Request(0, "f"), Request(1, "f"), DeliverBytes(0, 1), DeliverBytes(1, 1)];
    StopBoth(files, acts, map["f" := [x, x]], Response("f", [x]));
  }

  /** A response that stops early leaves a truncated file in the cache. */
  lemma StopTruncates(x: Byte, y: Byte)
    ensures var files := (_: string) => [x, y];
      var acts := [Request(0, "f"), DeliverBytes(0, 1), Stop(0)];
      ServerAt(files, acts, 3) == Server(map["f" := [x]], map[])
  {
    var files := (_: string) => [x, y];
    var acts := [Request(0, "f"), DeliverBytes(0, 1), Stop(0)];
    assert ServerAt(files, acts, 0) == Server(map[], map[]);
    assert ServerAt(files, acts, 1) == Server(map[], map[0 := Response("f", [])]);
    assert files("f")[0..1] == [x] == [] + [x];
    assert ServerAt(files, acts, 2) == Server(map["f" := [x]], map[0 := Response("f", [x])]);
  }
}
