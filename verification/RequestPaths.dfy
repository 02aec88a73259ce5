/** Which paths name a slug, and which handler serves a request. */
module RequestPaths {
  import opened UrlShortening

  const MAX_REQUEST_STR_LEN := 1000

  // ---------- Slug symbols ----------

  predicate IsSymbol(c: char) {
    IndexOf(c) < 58
  }

  predicate AllSymbols(s: string) {
    forall i :: 0 <= i < |s| ==> IsSymbol(s[i])
  }

  lemma SymbolOfIndex(c: char)
    requires IsSymbol(c)
    ensures Symbol(IndexOf(c)) == c
  {
  }

  lemma SymbolIff(c: char)
    ensures IsSymbol(c) <==> c in ALPHABET
  {
    if IsSymbol(c) {
      AlphabetIs(IndexOf(c));
    }
    if i :| 0 <= i < |ALPHABET| && ALPHABET[i] == c {
      AlphabetIs(i);
    }
  }

  /** Every slug is made of symbols. */
  lemma SlugSymbols(cfg: UrlShorteningConfig, url: string, n: nat)
    requires cfg.Valid() && 1 <= n && cfg.Has(url, n)
    ensures AllSymbols(cfg.Candidate(url, n))
  {
    var window := Window(cfg.StreamOf(url), cfg.slugLength, n);
    StreamBelow(cfg.hash(url), |cfg.alphabet|);
    WindowWithin(cfg.StreamOf(url), cfg.slugLength, n);
    forall i | 0 <= i < |window| ensures IsSymbol(Text(window)[i]) {
      assert window[i] in window;
    }
  }

  // ---------- Parsing ----------

  /** The scan of the alphabet for one character; 58 when it is not there. */
  method FindSymbol(c: char) returns (j: nat)
    ensures j <= 58 && (j < 58 <==> IsSymbol(c))
  {
    j := 0;
    while j < 58 && c != Symbol(j)
      invariant j <= 58 && forall k :: 0 <= k < j ==> Symbol(k) != c
    {
      j := j + 1;
    }
    if IsSymbol(c) {
      SymbolOfIndex(c);
    }
  }

  method IsOkRequestPath(src: string) returns (ok: bool)
    ensures ok <==> |src| <= 1000 && AllSymbols(src)
  {
    if |src| > MAX_REQUEST_STR_LEN {
      return false;
    }
    for i := 0 to |src|
      invariant AllSymbols(src[..i])
    {
      var j := FindSymbol(src[i]);
      if j == 58 {
        return false;
      }
    }
    assert src[..|src|] == src;
    ok := true;
  }

  /** The first position from `i` on that holds no slug symbol. */
  function SymbolsEnd(src: string, i: nat): (e: nat)
    requires i <= |src|
    ensures i <= e <= |src| && AllSymbols(src[i..e]) && (e < |src| ==> !IsSymbol(src[e]))
    decreases |src| - i
  {
    if i == |src| || !IsSymbol(src[i]) then i
    else
      var e := SymbolsEnd(src, i + 1);
      assert src[i..e] == [src[i]] + src[i + 1..e];
      e
  }

  /** The slug that a request path names; empty when it names none. */
  function Parsed(src: string): string
    requires src != ""
  {
    if |src| > MAX_REQUEST_STR_LEN || src[0] != '/' then ""
    else
      var e := SymbolsEnd(src, 1);
      if e < |src| && src[e] != '?' then "" else src[1..e]
  }

  method ParseOutRequestStr(src: string) returns (slug: string)
    requires src != ""
    ensures slug == Parsed(src)
  {
    if |src| > MAX_REQUEST_STR_LEN {
      return "";
    }
    if src[0] != '/' {
      return "";
    }
    var it := 1;
    while it < |src|
      invariant 1 <= it <= |src| && SymbolsEnd(src, 1) == SymbolsEnd(src, it)
    {
      var j := FindSymbol(src[it]);
      if j == 58 {
        if src[it] == '?' {
          break;
        }
        return "";
      }
      it := it + 1;
    }
    slug := src[1..it];
  }

  lemma {:induction false} SymbolsEndIs(src: string, i: nat, e: nat)
    requires i <= e <= |src| && AllSymbols(src[i..e]) && (e < |src| ==> !IsSymbol(src[e]))
    ensures SymbolsEnd(src, i) == e
    decreases e - i
  {
    if i < e {
      assert src[i..e][0] == src[i] && src[i + 1..e] == src[i..e][1..];
      SymbolsEndIs(src, i + 1, e);
    }
  }

  /** A path is a slug's: a slash and the slug, alone or followed by a question mark and anything. */
  ghost predicate Names(src: string, slug: string) {
    src == "/" + slug || exists rest: string :: src == "/" + slug + "?" + rest
  }

  /** Parsing answers a slug exactly for the paths of that slug that are not too long. */
  lemma ParsedIff(src: string, slug: string)
    requires src != "" && slug != ""
    ensures Parsed(src) == slug
      <==> |src| <= 1000 && AllSymbols(slug) && Names(src, slug)
  {
    if Parsed(src) == slug {
      var e := SymbolsEnd(src, 1);
      assert src[..1] == "/" && src == src[..1] + src[1..e] + src[e..];
      if e < |src| {
        assert src == "/" + slug + "?" + src[e + 1..];
      }
    }
    if |src| <= MAX_REQUEST_STR_LEN && AllSymbols(slug) && Names(src, slug) {
      var e := 1 + |slug|;
      assert src[1..e] == slug;
      assert e < |src| ==> src[e] == '?';
      SymbolsEndIs(src, 1, e);
    }
  }

  // ---------- Routing ----------

  datatype Method = GET | POST | PUT | DELETE | OTHER

  datatype Handler = Frontend(key: string) | StaticFiles | MakeUrl | UrlRedirect(slug: string) | NotFoundHandler

  /** The key under which the frontend cache would hold a path. */
  function FrontendKey(path: string): string
    requires path != ""
  {
    if path[|path| - 1] == '/' then path[1..] + "index.html" else path[1..]
  }

  predicate InFrontend(frontend: set<string>, path: string)
    requires path != ""
  {
    path[0] == '/' && FrontendKey(path) in frontend
  }

  /** The handler for a request, given the keys of the frontend cache. */
  function Route(frontend: set<string>, path: string, method_: Method): Handler
    requires path != ""
  {
    if InFrontend(frontend, path) then Frontend(FrontendKey(path))
    else if "/static/" <= path && method_ == GET then StaticFiles
    else if "/api/" <= path then
      if path == "/api/v1/create" && (method_ == POST || method_ == PUT) then MakeUrl else NotFoundHandler
    else if Parsed(path) != "" && method_ == GET then UrlRedirect(Parsed(path))
    else NotFoundHandler
  }

  /** A path of a slug has no slash after the first character and before its question mark. */
  lemma SlugPathLacks(src: string, slug: string, prefix: string, k: nat)
    requires AllSymbols(slug) && Names(src, slug)
    requires 1 <= k < |prefix| && prefix[k] == '/' && forall j :: 1 <= j < k ==> prefix[j] != '?'
    ensures !(prefix <= src)
  {
    if k <= |slug| {
      assert src[1 + (k - 1)] == slug[k - 1];
    } else if |src| > 1 + |slug| {
      assert src[1 + |slug|] == '?';
    }
  }

  /**
   The frontend serves the key that follows the slash, and for a path that ends in a slash the index
   page of that directory, with every method and before all other handlers.
   */
  lemma FrontendIff(frontend: set<string>, path: string, method_: Method, key: string)
    requires path != ""
    ensures Route(frontend, path, method_) == Frontend(key)
      <==> key in frontend && ((path[|path| - 1] != '/' && path == "/" + key)
                               || (path[|path| - 1] == '/' && exists d :: path == "/" + d && key == d + "index.html"))
  {
    if Route(frontend, path, method_) == Frontend(key) {
      assert path == "/" + path[1..];
    }
  }

  /** Exactly these requests create a short URL. */
  lemma MakeUrlIff(frontend: set<string>, path: string, method_: Method)
    requires path != ""
    ensures Route(frontend, path, method_) == MakeUrl
      <==> path == "/api/v1/create" && (method_ == POST || method_ == PUT) && "api/v1/create" !in frontend
  {
    if path == "/api/v1/create" {
      assert FrontendKey(path) == "api/v1/create";
      assert path[1] == 'a' && "/static/"[1] == 's';
      assert "/api/" <= path;
    }
  }

  /** Exactly these requests are for static files. */
  lemma StaticFilesIff(frontend: set<string>, path: string, method_: Method)
    requires path != ""
    ensures Route(frontend, path, method_) == StaticFiles
      <==> && method_ == GET && (exists rest :: path == "/static/" + rest)
           && (path[|path| - 1] != '/' ==> path[1..] !in frontend)
           && (path[|path| - 1] == '/' ==> path[1..] + "index.html" !in frontend)
  {
    if "/static/" <= path {
      assert path == "/static/" + path[8..];
    }
    if rest: string :| path == "/static/" + rest {
      assert "/static/" <= path;
    }
  }

  /**
   A request is redirected as `slug` exactly when it is a GET of a path of that slug, not too long,
   that the frontend does not serve.
   */
  lemma RedirectIff(frontend: set<string>, path: string, method_: Method, slug: string)
    requires path != ""
    ensures Route(frontend, path, method_) == UrlRedirect(slug)
      <==> && method_ == GET && slug != "" && AllSymbols(slug) && Names(path, slug)
           && |path| <= 1000 && !Route(frontend, path, method_).Frontend?
  {
    if slug != "" {
      ParsedIff(path, slug);
      if AllSymbols(slug) && Names(path, slug) {
        SlugPathLacks(path, slug, "/static/", 7);
        SlugPathLacks(path, slug, "/api/", 4);
      }
    }
  }
}
