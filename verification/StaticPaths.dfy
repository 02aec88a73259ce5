/** Which file a static request names, and why it lies below the document root. */
module StaticPaths {
  const STATIC_PREFIX := "/static/"
  const MAX_FILE_PATH_LENGTH := 1000

  // ---------- Path components ----------

  function SkipSlashes(s: string): (r: string)
    ensures |r| <= |s| && (r != "" ==> r[0] != '/')
  {
    if s != "" && s[0] == '/' then SkipSlashes(s[1..]) else s
  }

  /** The position of the first slash, or the length when there is none. */
  function FirstSlash(s: string): (e: nat)
    ensures e <= |s| && (forall i :: 0 <= i < e ==> s[i] != '/') && (e < |s| ==> s[e] == '/')
  {
    if s == "" || s[0] == '/' then 0 else 1 + FirstSlash(s[1..])
  }

  /** The names of a relative path; a trailing slash gives a last, empty name. */
  function Names(s: string): seq<string>
    requires s != "" ==> s[0] != '/'
    decreases |s|
  {
    if s == "" then []
    else
      var e := FirstSlash(s);
      if e == |s| then [s] else [s[..e]] + AfterSlash(s[e..])
  }

  function AfterSlash(s: string): seq<string>
    requires s != "" && s[0] == '/'
    decreases |s|
  {
    var rest := SkipSlashes(s[1..]);
    if rest == "" then [""] else Names(rest)
  }

  /** The components of a path in the order of iteration: the root directory, if any, and the names. */
  function Components(p: string): seq<string> {
    if p != "" && p[0] == '/' then ["/"] + Names(SkipSlashes(p)) else Names(p)
  }

  predicate EndsWithSlash(p: string) {
    p != "" && p[|p| - 1] == '/'
  }

  /** Appending a path: an absolute one replaces, otherwise a slash is added where it is missing. */
  function Joined(p: string, q: string): string {
    if q != "" && q[0] == '/' then q
    else if p != "" && !EndsWithSlash(p) then p + "/" + q
    else p + q
  }

  // ---------- The checks of a request ----------

  /** No two neighbouring characters are both `c`. */
  predicate NoDouble(s: string, c: char) {
    forall i :: 0 <= i < |s| - 1 ==> !(s[i] == c && s[i + 1] == c)
  }

  predicate ValidRequestPath(input: string) {
    |input| < MAX_FILE_PATH_LENGTH && NoDouble(input, '/') && NoDouble(input, '.')
  }

  /** The file that a request path names; the empty path when the prefix is missing. */
  function ExpectedFilePath(reqPath: string, docRoot: string): string {
    if STATIC_PREFIX <= reqPath then Joined(docRoot, reqPath[|STATIC_PREFIX|..]) else ""
  }

  /** Component by component, the directory is a prefix of the file; empty components match any. */
  predicate UnderDir(file: seq<string>, dir: seq<string>) {
    |dir| <= |file| && forall i :: 0 <= i < |dir| ==> dir[i] == file[i] || dir[i] == ""
  }

  method FileIsUnderDir(thisFile: string, isUnderThisDir: string) returns (ok: bool)
    ensures ok <==> UnderDir(Components(thisFile), Components(isUnderThisDir))
  {
    var parent, file := Components(isUnderThisDir), Components(thisFile);
    var i := 0;
    while i < |parent| && i < |file|
      invariant i <= |parent| && i <= |file|
      invariant forall k :: 0 <= k < i ==> parent[k] == file[k] || parent[k] == ""
    {
      if parent[i] != file[i] && parent[i] != "" {
        return false;
      }
      i := i + 1;
    }
    ok := i == |parent|;
  }

  /** The request passes both checks. */
  predicate Accepted(reqPath: string, docRoot: string) {
    ValidRequestPath(reqPath) && UnderDir(Components(ExpectedFilePath(reqPath, docRoot)), Components(docRoot))
  }

  lemma DoubleIff(s: string, c: char)
    ensures NoDouble(s, c) <==> !exists a: string, b: string :: s == a + [c, c] + b
  {
    if a: string, b: string :| s == a + [c, c] + b {
      assert s[|a|] == c && s[|a| + 1] == c;
    }
    if i :| 0 <= i < |s| - 1 && s[i] == c && s[i + 1] == c {
      assert s == s[..i] + [c, c] + s[i + 2..];
    }
  }

  lemma NoDoubleTail(s: string, c: char, i: nat)
    requires NoDouble(s, c) && i <= |s|
    ensures NoDouble(s[i..], c)
  {
    forall k | 0 <= k < |s| - i - 1 ensures !(s[i..][k] == c && s[i..][k + 1] == c) {
      assert s[i..][k] == s[i + k] && s[i..][k + 1] == s[i + k + 1];
    }
  }

  /** The file is the rest of the request path, below the document root, with one slash between. */
  lemma ExpectedFileIs(r: string, docRoot: string)
    requires docRoot != "" && (r != "" ==> r[0] != '/')
    ensures ExpectedFilePath("/static/" + r, docRoot)
         == if docRoot[|docRoot| - 1] == '/' then docRoot + r else docRoot + "/" + r
  {
    assert ("/static/" + r)[8..] == r;
  }

  // ---------- Joining and components ----------

  lemma {:induction false} SkipSlashesAppend(s: string, t: string)
    requires SkipSlashes(s) != ""
    ensures SkipSlashes(s + t) == SkipSlashes(s) + t
  {
    if s[0] == '/' {
      assert (s + t)[1..] == s[1..] + t;
      SkipSlashesAppend(s[1..], t);
    }
  }

  lemma {:induction false} SkipSlashesAll(s: string, t: string)
    requires SkipSlashes(s) == "" && (t != "" ==> t[0] != '/')
    ensures SkipSlashes(s + t) == t
  {
    if s != "" {
      assert (s + t)[1..] == s[1..] + t;
      SkipSlashesAll(s[1..], t);
    } else {
      assert s + t == t;
    }
  }

  lemma {:induction false} SkipSlashesEnd(s: string)
    ensures SkipSlashes(s) == "" || SkipSlashes(s)[|SkipSlashes(s)| - 1] == s[|s| - 1]
    ensures s != "" && SkipSlashes(s) == "" ==> EndsWithSlash(s)
  {
    if s != "" && s[0] == '/' {
      SkipSlashesEnd(s[1..]);
    }
  }

  lemma {:induction false} FirstSlashAppend(s: string, t: string)
    ensures FirstSlash(s + t) == if FirstSlash(s) < |s| then FirstSlash(s) else |s| + FirstSlash(t)
  {
    if s == "" {
      assert s + t == t;
    } else if s[0] != '/' {
      assert (s + t)[1..] == s[1..] + t;
      FirstSlashAppend(s[1..], t);
    }
  }

  /** The names of a path without the empty one that a trailing slash gives. */
  function Solid(cs: seq<string>): seq<string> {
    if cs != [] && cs[|cs| - 1] == "" then cs[..|cs| - 1] else cs
  }

  /** What follows a directory's solid components when `r` is appended to it. */
  function Below(r: string): seq<string>
    requires r != "" ==> r[0] != '/'
  {
    if r == "" then [""] else Names(r)
  }

  lemma NamesSplit(s: string)
    requires s != "" && s[0] != '/' && FirstSlash(s) < |s|
    ensures Names(s) == [s[..FirstSlash(s)]] + AfterSlash(s[FirstSlash(s)..])
  {
  }

  /** Only a trailing slash gives a last, empty name. */
  lemma {:induction false} NamesLast(s: string)
    requires s != "" && s[0] != '/'
    ensures Names(s) != [] && (Names(s)[|Names(s)| - 1] == "" <==> EndsWithSlash(s))
    decreases |s|, 0
  {
    var e := FirstSlash(s);
    if e < |s| {
      NamesSplit(s);
      AfterSlashLast(s[e..]);
      assert s[e..][|s| - e - 1] == s[|s| - 1];
    } else {
      assert Names(s) == [s];
    }
  }

  lemma {:induction false} AfterSlashLast(u: string)
    requires u != "" && u[0] == '/'
    ensures AfterSlash(u) != [] && (AfterSlash(u)[|AfterSlash(u)| - 1] == "" <==> EndsWithSlash(u))
    decreases |u|, 1
  {
    var v := u[1..];
    var rest := SkipSlashes(v);
    SkipSlashesEnd(v);
    assert v != "" ==> v[|v| - 1] == u[|u| - 1];
    if rest == "" {
      assert AfterSlash(u) == [""];
    } else {
      NamesLast(rest);
      assert AfterSlash(u) == Names(rest);
    }
  }

  lemma SolidConsAppend(x: string, cs: seq<string>, below: seq<string>)
    requires cs != []
    ensures Solid([x] + cs) == [x] + Solid(cs)
    ensures Solid([x] + cs) + below == [x] + (Solid(cs) + below)
  {
    assert ([x] + cs)[|cs|] == cs[|cs| - 1];
  }

  lemma SplitAppend(s: string, t: string, e: nat)
    requires e < |s|
    ensures (s + t)[0] == s[0] && (s + t)[..e] == s[..e] && (s + t)[e..] == s[e..] + t
  {
  }

  /** The case of a single name. */
  lemma FileBelow(s: string, t: string, r: string)
    requires s != "" && FirstSlash(s) == |s| && (r != "" ==> r[0] != '/')
    requires t == "/" + r && FirstSlash(s + t) == |s|
    ensures Names(s + t) == Solid(Names(s)) + Below(r)
  {
    assert (s + t)[..|s|] == s && (s + t)[|s|..] == t && t[1..] == r;
    assert Names(s + t) == [s] + AfterSlash(t);
    assert AfterSlash(t) == Below(r);
    assert Names(s) == Solid(Names(s)) == [s];
  }

  /** Appending below a directory keeps its solid names. */
  lemma {:induction false} NamesBelow(s: string, t: string, r: string)
    requires s != "" && s[0] != '/' && (r != "" ==> r[0] != '/')
    requires t == if EndsWithSlash(s) then r else "/" + r
    ensures (s + t)[0] != '/' && Names(s + t) == Solid(Names(s)) + Below(r)
    decreases |s|
  {
    var e := FirstSlash(s);
    FirstSlashAppend(s, t);
    if e == |s| {
      FileBelow(s, t, r);
    } else {
      AfterSlashBelow(s[e..], t, r);
      AfterSlashLast(s[e..]);
      SplitAppend(s, t, e);
      NamesSplit(s);
      NamesSplit(s + t);
      SolidConsAppend(s[..e], AfterSlash(s[e..]), Below(r));
    }
  }

  lemma {:induction false} AfterSlashBelow(u: string, t: string, r: string)
    requires u != "" && u[0] == '/' && (r != "" ==> r[0] != '/')
    requires t == if EndsWithSlash(u) then r else "/" + r
    ensures AfterSlash(u + t) == Solid(AfterSlash(u)) + Below(r)
    decreases |u|
  {
    var v := u[1..];
    var rest := SkipSlashes(v);
    assert (u + t)[1..] == v + t;
    assert v != "" ==> v[|v| - 1] == u[|u| - 1];
    SkipSlashesEnd(v);
    if rest == "" {
      SkipSlashesAll(v, r);
    } else {
      SkipSlashesAppend(v, t);
      NamesBelow(rest, t, r);
    }
  }

  lemma AbsoluteBelow(p: string, t: string, r: string)
    requires p != "" && p[0] == '/' && (r != "" ==> r[0] != '/')
    requires t == if EndsWithSlash(p) then r else "/" + r
    ensures if Components(p) == ["/"] then Components(p + t) == ["/"] + Names(r)
            else Components(p + t) == Solid(Components(p)) + Below(r)
  {
    var s := SkipSlashes(p);
    SkipSlashesEnd(p);
    if s == "" {
      SkipSlashesAll(p, r);
      assert Components(p) == ["/"];
    } else {
      SkipSlashesAppend(p, t);
      NamesBelow(s, t, r);
      NamesLast(s);
      SolidConsAppend("/", Names(s), Below(r));
    }
  }

  lemma FirstName(s: string)
    requires s != "" && s[0] != '/'
    ensures Names(s) != [] && Names(s)[0] != "/"
  {
    var e := FirstSlash(s);
    assert e > 0 && s[..e][0] == s[0];
  }

  /** A path joined to a document root has the root's solid components, then its own names. */
  lemma JoinedComponents(docRoot: string, r: string)
    requires docRoot != "" && (r != "" ==> r[0] != '/')
    ensures var file, dir := Components(Joined(docRoot, r)), Components(docRoot);
      if dir == ["/"] then file == dir + Names(r) else file == Solid(dir) + Below(r)
  {
    var t := if EndsWithSlash(docRoot) then r else "/" + r;
    assert Joined(docRoot, r) == docRoot + t;
    if docRoot[0] != '/' {
      NamesBelow(docRoot, t, r);
      FirstName(docRoot);
    } else {
      AbsoluteBelow(docRoot, t, r);
    }
  }

  lemma SolidUnderDir(dir: seq<string>, below: seq<string>)
    requires below != []
    ensures UnderDir(Solid(dir) + below, dir)
  {
  }

  /** A relative path joined to a document root passes the component check. */
  lemma JoinedUnderDir(docRoot: string, r: string)
    requires docRoot != "" && (r != "" ==> r[0] != '/')
    ensures UnderDir(Components(Joined(docRoot, r)), Components(docRoot))
  {
    JoinedComponents(docRoot, r);
    if r != "" {
      NamesLast(r);
    }
    SolidUnderDir(Components(docRoot), Below(r));
    assert Components(docRoot) == ["/"] ==> UnderDir(["/"] + Names(r), ["/"]);
  }

  // ---------- What components spell ----------

  function Slashed(names: seq<string>): string {
    if names == [] then "" else if |names| == 1 then names[0] else names[0] + "/" + Slashed(names[1..])
  }

  /** The path with the given components. */
  function Spelled(cs: seq<string>): string {
    if cs != [] && cs[0] == "/" then "/" + Slashed(cs[1..]) else Slashed(cs)
  }

  lemma NoSkip(s: string)
    requires s != "" ==> s[0] != '/'
    ensures SkipSlashes(s) == s
  {
  }

  lemma {:induction false} NamesSpell(s: string)
    requires (s != "" ==> s[0] != '/') && forall i :: 0 <= i < |s| - 1 ==> !(s[i] == '/' && s[i + 1] == '/')
    ensures Slashed(Names(s)) == s && forall n :: n in Names(s) ==> '/' !in n
    decreases |s|
  {
    if s != "" {
      var e := FirstSlash(s);
      if e == |s| {
        assert Names(s) == [s];
      } else {
        var rest := s[e + 1..];
        assert s[e..][1..] == rest;
        assert e < |s| - 1 ==> !(s[e] == '/' && s[e + 1] == '/');
        NoSkip(rest);
        assert Names(s) == [s[..e]] + AfterSlash(s[e..]);
        assert s == s[..e] + "/" + rest;
        if rest == "" {
          assert Names(s) == [s[..e], ""];
        } else {
          forall i | 0 <= i < |rest| - 1 ensures !(rest[i] == '/' && rest[i + 1] == '/') {
            assert rest[i] == s[e + 1 + i] && rest[i + 1] == s[e + 2 + i];
          }
          NamesSpell(rest);
          NamesLast(rest);
          assert Names(s)[1..] == Names(rest);
        }
      }
    }
  }

  /** The components of a path without repeated slashes spell it, and only the root has a slash. */
  lemma ComponentsSpell(p: string)
    requires !exists a: string, b: string :: p == a + "//" + b
    ensures Spelled(Components(p)) == p
    ensures forall c :: c in Components(p) ==> c == "/" || '/' !in c
  {
    assert "//" == ['/', '/'];
    DoubleIff(p, '/');
    if p != "" && p[0] == '/' {
      assert |p| > 1 ==> !(p[0] == '/' && p[1] == '/');
      NoSkip(p[1..]);
      NoDoubleTail(p, '/', 1);
      NamesSpell(p[1..]);
      assert Components(p)[1..] == Names(p[1..]);
      assert p == "/" + p[1..];
    } else {
      NamesSpell(p);
      if p != "" {
        FirstName(p);
      }
    }
  }

  // ---------- Containment ----------

  /** Following one component lexically from a directory given by its names. */
  function Follow(at: seq<string>, c: string): seq<string> {
    if c == "" || c == "." then at
    else if c != ".." then at + [c]
    else if at == [] || at[|at| - 1] == ".." then at + [c]
    else if at == ["/"] then at
    else at[..|at| - 1]
  }

  function Walk(at: seq<string>, cs: seq<string>): seq<string> {
    if cs == [] then at else Follow(Walk(at, cs[..|cs| - 1]), cs[|cs| - 1])
  }

  lemma {:induction false} WalkAppend(at: seq<string>, cs: seq<string>, ds: seq<string>)
    ensures Walk(at, cs + ds) == Walk(Walk(at, cs), ds)
  {
    if ds == [] {
      assert cs + ds == cs;
    } else {
      assert (cs + ds)[..|cs + ds| - 1] == cs + ds[..|ds| - 1];
      WalkAppend(at, cs, ds[..|ds| - 1]);
    }
  }

  lemma {:induction false} WalkStaysBelow(at: seq<string>, cs: seq<string>)
    requires ".." !in cs
    ensures at <= Walk(at, cs)
  {
    if cs != [] {
      WalkStaysBelow(at, cs[..|cs| - 1]);
    }
  }

  /** The components that name something. */
  function Plain(cs: seq<string>): seq<string> {
    if cs == [] then []
    else
      var last := cs[|cs| - 1];
      Plain(cs[..|cs| - 1]) + if last == "" || last == "." then [] else [last]
  }

  /** Without parent components, following a path appends its plain names. */
  lemma {:induction false} WalkPlain(at: seq<string>, cs: seq<string>)
    requires ".." !in cs
    ensures Walk(at, cs) == at + Plain(cs)
  {
    if cs != [] {
      WalkPlain(at, cs[..|cs| - 1]);
      assert cs[|cs| - 1] in cs;
    }
  }

  lemma WalkOne(at: seq<string>, c: string)
    ensures Walk(at, [c]) == Follow(at, c)
  {
    assert [c][..0] == [];
  }

  lemma WalkTwo(at: seq<string>, c: string, d: string)
    ensures Walk(at, [c, d]) == Follow(Follow(at, c), d)
  {
    WalkOne(at, c);
    assert [c, d][..1] == [c];
  }

  /** A parent component undoes the name before it, stays at the root, and is kept where nothing is known. */
  lemma WalkParent(at: seq<string>, c: string)
    requires c !in {"", ".", "..", "/"}
    ensures Walk(at, [c, ".."]) == at
    ensures Walk(["/"], [".."]) == ["/"] && Walk([], ["..", ".."]) == ["..", ".."]
  {
    WalkTwo(at, c, "..");
    WalkTwo([], "..", "..");
    WalkOne(["/"], "..");
  }

  lemma WalkSolid(cs: seq<string>)
    ensures Walk([], Solid(cs)) == Walk([], cs)
  {
  }

  lemma {:induction false} SkipSlashesTail(s: string)
    ensures SkipSlashes(s) == s[|s| - |SkipSlashes(s)|..]
  {
    if s != "" && s[0] == '/' {
      SkipSlashesTail(s[1..]);
    }
  }

  /** A path without neighbouring dots has no parent component. */
  lemma {:induction false} NamesNoParent(s: string)
    requires (s != "" ==> s[0] != '/') && NoDouble(s, '.')
    ensures ".." !in Names(s)
    decreases |s|
  {
    if s != "" {
      var e := FirstSlash(s);
      if e >= 2 {
        assert s[..e][0] == s[0] && s[..e][1] == s[1];
      }
      if e < |s| {
        var t := s[e..][1..];
        var rest := SkipSlashes(t);
        SkipSlashesTail(t);
        assert rest == s[|s| - |rest|..];
        NoDoubleTail(s, '.', |s| - |rest|);
        NamesNoParent(rest);
      } else {
        assert s[..e] == s;
      }
    }
  }

  /** The part of a valid request path after the prefix is relative and has no parent component. */
  lemma RestIsPlain(reqPath: string)
    requires ValidRequestPath(reqPath) && STATIC_PREFIX <= reqPath
    ensures var r := reqPath[|STATIC_PREFIX|..];
      (r != "" ==> r[0] != '/') && ".." !in Names(r)
  {
    var r := reqPath[8..];
    assert reqPath[7] == STATIC_PREFIX[7] == '/';
    assert r != "" ==> r[0] == reqPath[8];
    NoDoubleTail(reqPath, '.', 8);
    NamesNoParent(r);
  }

  lemma ComponentsNotEmpty(p: string)
    requires p != ""
    ensures Components(p) != []
  {
  }

  lemma ValidIsAccepted(reqPath: string, docRoot: string)
    requires docRoot != ""
    ensures Accepted(reqPath, docRoot) <==> ValidRequestPath(reqPath) && STATIC_PREFIX <= reqPath
  {
    ComponentsNotEmpty(docRoot);
    if ValidRequestPath(reqPath) && STATIC_PREFIX <= reqPath {
      RestIsPlain(reqPath);
      JoinedUnderDir(docRoot, reqPath[8..]);
    }
  }

  /**
   With a document root, exactly the paths with the prefix, of fewer than 1000 characters and without
   two neighbouring slashes or dots, pass both checks.
   */
  lemma AcceptedIff(reqPath: string, docRoot: string)
    requires docRoot != ""
    ensures Accepted(reqPath, docRoot)
      <==> && |reqPath| < 1000 && "/static/" <= reqPath
           && (!exists a: string, b: string :: reqPath == a + "//" + b)
           && (!exists a: string, b: string :: reqPath == a + ".." + b)
  {
    assert "//" == ['/', '/'] && ".." == ['.', '.'];
    DoubleIff(reqPath, '/');
    DoubleIff(reqPath, '.');
    ValidIsAccepted(reqPath, docRoot);
  }

  /**
   Following the components of an accepted file never leaves the document root: from the point where
   the root's own components are followed, every directory on the way is the root or below it.
   */
  lemma AcceptedStaysInside(reqPath: string, docRoot: string, k: nat)
    requires docRoot != "" && Accepted(reqPath, docRoot)
    requires |Solid(Components(docRoot))| <= k <= |Components(ExpectedFilePath(reqPath, docRoot))|
    ensures Walk([], Components(docRoot)) <= Walk([], Components(ExpectedFilePath(reqPath, docRoot))[..k])
  {
    ValidIsAccepted(reqPath, docRoot);
    RestIsPlain(reqPath);
    var r := reqPath[8..];
    JoinedComponents(docRoot, r);
    var file, dir := Components(Joined(docRoot, r)), Solid(Components(docRoot));
    var rest := file[|dir|..];
    assert file == dir + rest && ".." !in rest;
    assert file[..k] == dir + rest[..k - |dir|];
    WalkAppend([], dir, rest[..k - |dir|]);
    WalkStaysBelow(Walk([], dir), rest[..k - |dir|]);
    WalkSolid(Components(docRoot));
  }
}
