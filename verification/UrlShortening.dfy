/**
 Slug generation: the digits of a 256-bit hash, low digit first, cut into windows of one slug
 length each.  The hash is a parameter of the configuration; nothing is claimed about it.
 */
module UrlShortening {
  import opened Digits
  import opened Wrappers

  type Uint64 = n: nat | n < 0x1_0000_0000_0000_0000
  type HashWords = ws: seq<Uint64> | |ws| == 4 witness [0, 0, 0, 0]
  const ALPHABET := "123456789" + "ABCDEFGH" + "JKLMN" + "PQRSTUVWXYZ" + "abcdefghijk" + "mnopqrstuvwxyz"
  const SHORTENED_URL_LEN := 7
  const MAX_WORD: Uint64 := 0xFFFF_FFFF_FFFF_FFFF
  const MAX_TRIES := 100

  // ---------- Alphabet ----------

  function Symbol(i: nat): char {
    if i < 9 then '1' + i as char
    else if i < 17 then 'A' + (i - 9) as char
    else if i < 22 then 'J' + (i - 17) as char
    else if i < 33 then 'P' + (i - 22) as char
    else if i < 44 then 'a' + (i - 33) as char
    else if i < 58 then 'm' + (i - 44) as char
    else '?'
  }

  lemma AlphabetIs(i: nat)
    requires i < 58
    ensures |ALPHABET| == 58 && ALPHABET[i] == Symbol(i)
  {
  }

  predicate AreIndices(ds: seq<nat>) {
    forall d :: d in ds ==> d < 58
  }

  /** The alphabet symbols at the given indices. */
  function Text(ds: seq<nat>): (s: string)
    ensures |s| == |ds|
  {
    seq(|ds|, i requires 0 <= i < |ds| => Symbol(ds[i]))
  }

  lemma TextInjective(xs: seq<nat>, ys: seq<nat>)
    requires AreIndices(xs) && AreIndices(ys)
    ensures Text(xs) == Text(ys) <==> xs == ys
  {
    if Text(xs) == Text(ys) {
      forall i | 0 <= i < |xs| ensures xs[i] == ys[i] {
        assert Text(xs)[i] == Text(ys)[i] && xs[i] in xs && ys[i] in ys;
      }
    }
  }

  // ---------- The digit stream of one hash ----------

  /** A word after the first contributes at least one digit, which is 0 for the word 0. */
  function AtLeastOneDigit(w: nat, b: nat): seq<nat>
    requires 2 <= b
  {
    if w == 0 then [0] else Of(w, b)
  }

  function LaterDigits(ws: seq<nat>, b: nat): seq<nat>
    requires 2 <= b
  {
    if ws == [] then [] else AtLeastOneDigit(ws[0], b) + LaterDigits(ws[1..], b)
  }

  /** All the digits that the given words can still supply when reading stands at word `idx`. */
  function Remaining(ws: seq<nat>, idx: nat, b: nat): seq<nat>
    requires 2 <= b && idx < |ws|
  {
    Of(ws[idx], b) + LaterDigits(ws[idx + 1..], b)
  }

  function Stream(ws: HashWords, b: nat): seq<nat>
    requires 2 <= b
  {
    Remaining(ws, 0, b)
  }

  /** Dividing a word keeps it a word. */
  function Quotient(w: Uint64, b: nat): Uint64
    requires 2 <= b
  {
    DivBelow(w, b, 0x1_0000_0000_0000_0000);
    w / b
  }

  /** Where the next digit comes from: the current word, or the next one when it is used up. */
  function Source(ws: seq<nat>, idx: nat): nat
    requires idx < |ws|
  {
    if ws[idx] == 0 then idx + 1 else idx
  }

  lemma SplitRemaining(ws: seq<nat>, idx: nat, j: nat, d: nat, q: nat, b: nat)
    requires 2 <= b && idx < |ws| && j == Source(ws, idx) < |ws|
    requires AtLeastOneDigit(ws[j], b) == [d] + Of(q, b)
    ensures Remaining(ws, idx, b) == [d] + Remaining(ws[j := q], j, b)
  {
    assert ws[j := q][j + 1..] == ws[j + 1..];
    if j > idx {
      assert ws[idx + 1..][1..] == ws[j + 1..];
      assert Of(ws[idx], b) == [];
    }
  }

  lemma FirstDigit(w: nat, b: nat)
    requires 2 <= b
    ensures AtLeastOneDigit(w, b) == [w % b] + Of(w / b, b)
    ensures w > 0 ==> Of(w, b) == [w % b] + Of(w / b, b)
  {
  }

  /** One pass of the digit loop takes the first remaining digit; it finds none only at the end. */
  lemma TakeDigit(ws: seq<nat>, idx: nat, b: nat, window: seq<nat>)
    requires 2 <= b && idx < |ws|
    ensures var j := Source(ws, idx);
      if j == |ws| then Remaining(ws, idx, b) == []
      else window + Remaining(ws, idx, b)
           == (window + [ws[j] % b]) + Remaining(ws[j := ws[j] / b], j, b)
  {
    var j := Source(ws, idx);
    if j < |ws| {
      FirstDigit(ws[j], b);
      SplitRemaining(ws, idx, j, ws[j] % b, ws[j] / b, b);
    }
  }

  lemma {:induction false} LaterDigitsBelow(ws: seq<nat>, b: nat)
    requires 2 <= b
    ensures forall d :: d in LaterDigits(ws, b) ==> d < b
  {
    if ws != [] {
      LaterDigitsBelow(ws[1..], b);
    }
  }

  lemma StreamBelow(ws: HashWords, b: nat)
    requires 2 <= b
    ensures forall d :: d in Stream(ws, b) ==> d < b
  {
    LaterDigitsBelow(ws[1..], b);
  }

  // ---------- How many digits there can be ----------

  /** The largest number of base-`b` digits of a 64-bit word. */
  function MaxDigits(b: nat): nat
    requires 2 <= b
  {
    |Of(MAX_WORD, b)|
  }

  lemma {:induction false} LaterDigitsBound(ws: seq<Uint64>, b: nat)
    requires 2 <= b
    ensures |LaterDigits(ws, b)| <= |ws| * MaxDigits(b)
    ensures (forall w :: w in ws ==> w == MAX_WORD) ==> |LaterDigits(ws, b)| == |ws| * MaxDigits(b)
  {
    if ws != [] {
      LaterDigitsBound(ws[1..], b);
      LengthMonotone(ws[0], MAX_WORD, b);
      LengthBound(MAX_WORD, b, 0);
      assert |ws| * MaxDigits(b) == MaxDigits(b) + |ws[1..]| * MaxDigits(b);
      assert ws[0] in ws && forall w :: w in ws[1..] ==> w in ws;
    }
  }

  /** No hash supplies more digits than four full words do, and some hash supplies that many. */
  lemma StreamBound(ws: HashWords, b: nat)
    requires 2 <= b
    ensures |Stream(ws, b)| <= 4 * MaxDigits(b)
    ensures ws == [MAX_WORD, MAX_WORD, MAX_WORD, MAX_WORD] ==> |Stream(ws, b)| == 4 * MaxDigits(b)
  {
    LaterDigitsBound(ws[1..], b);
    LengthMonotone(ws[0], MAX_WORD, b);
  }

  /** Try number 100 needs more digits than any hash has. */
  predicate Exhausting(b: nat, slugLength: nat)
    requires 2 <= b
  {
    MAX_TRIES * slugLength > 4 * MaxDigits(b)
  }

  lemma Square(b: nat, k: nat, v: nat)
    requires Pow(b, k) == v
    ensures Pow(b, 2 * k) == v * v
  {
    PowAdd(b, k, k);
  }

  lemma PowersAroundMaxWord()
    ensures Pow(2, 63) <= MAX_WORD < Pow(2, 64)
    ensures MAX_WORD < Pow(3, 49)
    ensures Pow(6, 24) <= MAX_WORD < Pow(7, 24)
  {
    Square(2, 8, 256);
    Square(2, 16, 65536);
    Square(2, 32, 4294967296);
    Square(3, 6, 729);
    Square(3, 12, 531441);
    Square(3, 24, 282429536481);
    Square(6, 6, 46656);
    Square(7, 6, 117649);
    assert Pow(3, 49) == 3 * Pow(3, 48);
    assert Pow(2, 64) == 2 * Pow(2, 63);
  }

  lemma DigitsOfMaxWord(b: nat)
    requires 2 <= b
    ensures b == 2 ==> MaxDigits(b) == 64
    ensures b >= 3 ==> MaxDigits(b) <= 49
    ensures MaxDigits(b) <= 24 <==> b >= 7
  {
    PowersAroundMaxWord();
    if b == 2 {
      LengthBound(MAX_WORD, b, 64);
      LengthBound(MAX_WORD, b, 63);
      PowAdd(2, 63, 1);
    } else {
      LengthBound(MAX_WORD, b, 49);
      PowMonotoneBase(3, b, 49);
    }
    LengthBound(MAX_WORD, b, 24);
    if b >= 7 { PowMonotoneBase(7, b, 24); } else { PowMonotoneBase(b, 6, 24); }
  }

  /** Exactly the configurations whose hundredth try must fail. */
  lemma ExhaustingIff(b: nat, slugLength: nat)
    requires 2 <= b <= 58 && 1 <= slugLength
    ensures Exhausting(b, slugLength)
      <==> (slugLength >= 3 || (slugLength == 2 && b >= 3) || (slugLength == 1 && b >= 7))
  {
    DigitsOfMaxWord(b);
  }

  /** A 64-bit word has at most 11 base-58 digits, so four words give at most 44. */
  lemma Base58Words(ws: HashWords)
    ensures MaxDigits(58) == 11
    ensures |Stream(ws, 58)| <= 44
  {
    LengthBound(MAX_WORD, 58, 11);
    LengthBound(MAX_WORD, 58, 10);
    StreamBound(ws, 58);
  }

  // ---------- Windows ----------

  /** How many windows of length `n` fit into `len` digits. */
  function Windows(len: nat, n: nat): nat
    requires 1 <= n
  {
    if len < n then 0 else 1 + Windows(len - n, n)
  }

  /** The `k`-th window of length `n`, counted from 1. */
  function Window(s: seq<nat>, n: nat, k: nat): (w: seq<nat>)
    requires 1 <= n && 1 <= k <= Windows(|s|, n)
    ensures |w| == n
  {
    if k == 1 then s[..n] else Window(s[n..], n, k - 1)
  }

  /** `k` windows fit exactly when there are `k * n` digits; the last of them ends there. */
  lemma {:induction false} WindowIs(s: seq<nat>, n: nat, k: nat)
    requires 1 <= n
    ensures k <= Windows(|s|, n) <==> k * n <= |s|
    ensures 1 <= k <= Windows(|s|, n) ==> (k - 1) * n + n == k * n && Window(s, n, k) == s[(k - 1) * n..k * n]
    decreases |s|
  {
    if k > 0 {
      assert k * n == (k - 1) * n + n;
      if |s| < n {
        MulMonotone(1, k, n);
      } else {
        WindowIs(s[n..], n, k - 1);
        assert k > 1 ==> (k - 1) * n == (k - 2) * n + n;
      }
    }
  }

  /** The digits after the last whole window. */
  function AfterWindows(s: seq<nat>, n: nat): seq<nat>
    requires 1 <= n
  {
    if |s| < n then s else AfterWindows(s[n..], n)
  }

  lemma {:induction false} AfterWindowsIs(used: seq<nat>, rest: seq<nat>, n: nat, done: nat)
    requires |used| == done * n && |rest| < n
    ensures AfterWindows(used + rest, n) == rest
    decreases done
  {
    if done == 0 {
      assert used + rest == rest;
    } else {
      assert done * n == (done - 1) * n + n;
      MulMonotone(0, done - 1, n);
      assert (used + rest)[n..] == used[n..] + rest;
      AfterWindowsIs(used[n..], rest, n, done - 1);
    }
  }

  lemma {:induction false} WindowWithin(s: seq<nat>, n: nat, k: nat)
    requires 1 <= n && 1 <= k <= Windows(|s|, n)
    ensures forall d :: d in Window(s, n, k) ==> d in s
    decreases k
  {
    if k > 1 {
      WindowWithin(s[n..], n, k - 1);
    }
  }

  // ---------- Candidates ----------

  /** The shortening policy; only the length of `alphabet` matters, see `SlugsStayInIff`. */
  datatype UrlShorteningConfig =
    UrlShorteningConfig(alphabet: string, slugLength: nat, hash: string -> HashWords)
  {
    predicate Valid() {
      2 <= |alphabet| <= 58 && 1 <= slugLength < 256
    }

    function StreamOf(url: string): seq<nat>
      requires Valid()
    {
      Stream(hash(url), |alphabet|)
    }

    /** Whether try number `n` for `url` finds enough digits. */
    predicate Has(url: string, n: nat)
      requires Valid()
    {
      n <= Windows(|StreamOf(url)|, slugLength)
    }

    /** The slug of try number `n`: the `n`-th window of the digit stream, as symbols. */
    function Candidate(url: string, n: nat): (slug: string)
      requires Valid() && 1 <= n && Has(url, n)
      ensures |slug| == slugLength
    {
      Text(Window(StreamOf(url), slugLength, n))
    }
  }

  /**
   What probing needs to know of a policy: how many tries the digits of a URL allow, and the slug
   of each.  Everything about the store holds for any such sequence of slugs.
   */
  datatype Probes = Probes(tries: string -> nat, slugs: (string, nat) -> string) {
    predicate Has(url: string, n: nat) {
      n <= tries(url)
    }

    function Candidate(url: string, n: nat): string {
      slugs(url, n)
    }

    /** Slugs are not empty, and the hundredth try always fails. */
    ghost predicate Safe() {
      && (forall url: string, n: nat :: 1 <= n && Has(url, n) ==> Candidate(url, n) != "")
      && (forall url: string :: !Has(url, MAX_TRIES))
    }
  }

  function ProbesOf(cfg: UrlShorteningConfig): Probes
    requires cfg.Valid()
  {
    Probes(url => Windows(|cfg.StreamOf(url)|, cfg.slugLength),
           (url, n) => if 1 <= n && cfg.Has(url, n) then cfg.Candidate(url, n) else "")
  }

  /** An exhausting policy gives safe probes. */
  lemma ExhaustingIsSafe(cfg: UrlShorteningConfig)
    requires cfg.Valid() && Exhausting(|cfg.alphabet|, cfg.slugLength)
    ensures ProbesOf(cfg).Safe()
  {
    forall url: string ensures !ProbesOf(cfg).Has(url, MAX_TRIES) {
      StreamBound(cfg.hash(url), |cfg.alphabet|);
      WindowIs(cfg.StreamOf(url), cfg.slugLength, MAX_TRIES);
    }
  }

  /** Every slug of every policy with this alphabet consists of symbols of this alphabet. */
  ghost predicate SlugsStayIn(alphabet: string) {
    forall cfg: UrlShorteningConfig, url: string, n: nat ::
      cfg.Valid() && cfg.alphabet == alphabet && 1 <= n && cfg.Has(url, n) ==>
        forall c :: c in cfg.Candidate(url, n) ==> c in alphabet
  }

  lemma CandidateStaysIn(cfg: UrlShorteningConfig, url: string, n: nat)
    requires cfg.Valid() && 1 <= n && cfg.Has(url, n)
    requires forall i: nat :: i < |cfg.alphabet| ==> Symbol(i) in cfg.alphabet
    ensures forall c :: c in cfg.Candidate(url, n) ==> c in cfg.alphabet
  {
    StreamBelow(cfg.hash(url), |cfg.alphabet|);
    var window := Window(cfg.StreamOf(url), cfg.slugLength, n);
    WindowWithin(cfg.StreamOf(url), cfg.slugLength, n);
    forall c | c in cfg.Candidate(url, n) ensures c in cfg.alphabet {
      var i :| 0 <= i < |window| && Text(window)[i] == c;
      assert window[i] in window;
    }
  }

  lemma SymbolIsUsed(alphabet: string, i: nat)
    requires SlugsStayIn(alphabet) && 2 <= |alphabet| <= 58 && i < |alphabet|
    ensures Symbol(i) in alphabet
  {
    var b := |alphabet|;
    var cfg := UrlShorteningConfig(alphabet, 1, url => [b + i, 0, 0, 0]);
    ModUnique(b + i, i, 1, b);
    assert cfg.StreamOf("")[0] == i;
    assert Window(cfg.StreamOf(""), 1, 1) == cfg.StreamOf("")[..1];
    assert cfg.Candidate("", 1)[0] == Symbol(i);
  }

  /**
   Only the length of the configured alphabet counts: symbols are looked up in the built-in one.
   So slugs stay in the configured alphabet exactly when it holds the first built-in symbols.
   */
  lemma SlugsStayInIff(alphabet: string)
    requires 2 <= |alphabet| <= 58
    ensures SlugsStayIn(alphabet) <==> forall i: nat :: i < |alphabet| ==> Symbol(i) in alphabet
  {
    if SlugsStayIn(alphabet) {
      forall i: nat | i < |alphabet| ensures Symbol(i) in alphabet {
        SymbolIsUsed(alphabet, i);
      }
    }
    if forall i: nat :: i < |alphabet| ==> Symbol(i) in alphabet {
      forall cfg: UrlShorteningConfig, url: string, n: nat
        | cfg.Valid() && cfg.alphabet == alphabet && 1 <= n && cfg.Has(url, n)
        ensures forall c :: c in cfg.Candidate(url, n) ==> c in alphabet
      {
        CandidateStaysIn(cfg, url, n);
      }
    }
  }

  lemma TextAppend(ds: seq<nat>, d: nat)
    ensures Text(ds + [d]) == Text(ds) + [Symbol(d)]
  {
  }

  /** The digits of a finished try are the candidate of that try. */
  lemma LastWindow(cfg: UrlShorteningConfig, url: string, done: nat, used: seq<nat>, window: seq<nat>)
    requires cfg.Valid() && |window| == cfg.slugLength
    requires used + window <= cfg.StreamOf(url) && |used| == done * cfg.slugLength
    ensures |used + window| == (done + 1) * cfg.slugLength
    ensures cfg.Has(url, done + 1) && cfg.Candidate(url, done + 1) == Text(window)
  {
    WindowIs(cfg.StreamOf(url), cfg.slugLength, done + 1);
  }

  lemma Regroup(used: seq<nat>, window: seq<nat>, rest: seq<nat>)
    ensures used + (window + rest) == (used + window) + rest
  {
  }

  lemma NoWindow(cfg: UrlShorteningConfig, url: string, done: nat, used: nat, m: nat)
    requires cfg.Valid() && done < m && used == done * cfg.slugLength
    requires |cfg.StreamOf(url)| < used + cfg.slugLength
    ensures !cfg.Has(url, m)
  {
    MulMonotone(done + 1, m, cfg.slugLength);
    WindowIs(cfg.StreamOf(url), cfg.slugLength, m);
  }

  /**
   One try of the digit loop: words are divided in place, and `dst` receives one symbol per digit.
   `window` is the digits taken; the loop gives up when reading would leave the last word.
   */
  method AppendDigits(result: array<Uint64>, start: nat, b: nat, n: nat)
    returns (ok: bool, idx: nat, dst: string, ghost window: seq<nat>)
    requires result.Length == 4 && start < 4 && 2 <= b <= 58
    modifies result
    ensures ok <==> n <= |Remaining(old(result[..]), start, b)|
    ensures idx < 4 || !ok
    ensures dst == Text(window)
    ensures ok ==> |window| == n && old(Remaining(result[..], start, b)) == window + Remaining(result[..], idx, b)
    ensures !ok ==> window == old(Remaining(result[..], start, b))
  {
    ghost var all, words := Remaining(result[..], start, b), result[..];
    idx, dst, window := start, "", [];
    var i := 0;
    while i < n
      invariant 0 <= i <= n && idx < 4 && |window| == i && words == result[..]
      invariant all == window + Remaining(words, idx, b)
      invariant dst == Text(window)
    {
      TakeDigit(words, idx, b, window);
      if result[idx] == 0 {
        idx := idx + 1;
        if idx >= 4 {
          assert window + [] == window;
          return false, idx, dst, window;
        }
      }
      var alphabetIdx := result[idx] % b;
      TextAppend(window, alphabetIdx);
      dst := dst + [Symbol(alphabetIdx)];
      window := window + [alphabetIdx];
      result[idx] := Quotient(result[idx], b);
      words := words[idx := words[idx] / b];
      i := i + 1;
    }
    ok := true;
  }

  /** Slug generation: each try replaces `dst` by the next window of the digit stream. */
  method GenerateSlug(cfg: UrlShorteningConfig, before: string, longUrl: string, nthTry: nat)
    returns (ok: bool, dst: string)
    requires cfg.Valid() && nthTry < 256
    ensures ok <==> cfg.Has(longUrl, nthTry)
    ensures ok && nthTry == 0 ==> dst == before
    ensures ok && nthTry > 0 ==> dst == cfg.Candidate(longUrl, nthTry)
    ensures !ok ==> dst == Text(AfterWindows(cfg.StreamOf(longUrl), cfg.slugLength))
  {
    var b, n := |cfg.alphabet|, cfg.slugLength;
    var hashed := cfg.hash(longUrl);
    var result := new Uint64[4](i requires 0 <= i < 4 => hashed[i]);
    assert result[..] == hashed;
    ghost var used: seq<nat>, done := [], 0;
    var idx, left := 0, nthTry;
    ok, dst := true, before;
    while left > 0
      invariant 0 <= left == nthTry - done && idx < 4
      invariant cfg.StreamOf(longUrl) == used + Remaining(result[..], idx, b)
      invariant |used| == done * n
      invariant done == 0 ==> dst == before
      invariant done > 0 ==> cfg.Has(longUrl, done) && dst == cfg.Candidate(longUrl, done)
    {
      left := left - 1;
      ghost var window;
      ok, idx, dst, window := AppendDigits(result, idx, b, n);
      if !ok {
        NoWindow(cfg, longUrl, done, |used|, nthTry);
        AfterWindowsIs(used, window, n, done);
        return;
      }
      Regroup(used, window, Remaining(result[..], idx, b));
      LastWindow(cfg, longUrl, done, used, window);
      used, done := used + window, done + 1;
    }
  }

  // ---------- The guard as written ----------

  /** Taking digits ends with all of them, with the guard's refusal, or with a read past the words. */
  datatype Fetch = Fetched(ds: seq<nat>) | GaveUp | ReadPastEnd

  /** The digit loop with the guard `idx > limit`; the source writes 4, which refuses one word late. */
  function FetchDigits(ws: seq<nat>, idx: nat, b: nat, k: nat, limit: nat): Fetch
    requires 2 <= b && idx < |ws|
    decreases k
  {
    var j := Source(ws, idx);
    if k == 0 then Fetched([])
    else if j != idx && j > limit then GaveUp
    else if j >= |ws| then ReadPastEnd
    else match FetchDigits(ws[j := ws[j] / b], j, b, k - 1, limit)
      case Fetched(ds) => Fetched([ws[j] % b] + ds)
      case failed => failed
  }

  /**
   With the guard as written the loop reads past the four words exactly when more digits are asked
   for than the hash has; the guard `idx > 3` gives up then, and the two agree on everything else.
   */
  lemma {:induction false} GuardAsWritten(ws: seq<nat>, idx: nat, b: nat, k: nat)
    requires 2 <= b && |ws| == 4 && idx < 4
    ensures FetchDigits(ws, idx, b, k, 4).ReadPastEnd? <==> k > |Remaining(ws, idx, b)|
    ensures FetchDigits(ws, idx, b, k, 3).GaveUp? <==> k > |Remaining(ws, idx, b)|
    ensures k <= |Remaining(ws, idx, b)| ==>
              FetchDigits(ws, idx, b, k, 4) == FetchDigits(ws, idx, b, k, 3)
              == Fetched(Remaining(ws, idx, b)[..k])
    decreases k
  {
    if k > 0 {
      TakeDigit(ws, idx, b, []);
      var j := Source(ws, idx);
      if j < 4 {
        var rest := Remaining(ws[j := ws[j] / b], j, b);
        assert [] + Remaining(ws, idx, b) == Remaining(ws, idx, b) == [ws[j] % b] + rest;
        GuardAsWritten(ws[j := ws[j] / b], j, b, k - 1);
        assert k - 1 <= |rest| ==> Remaining(ws, idx, b)[..k] == [ws[j] % b] + rest[..k - 1];
      }
    }
  }

  /**
   Tries and slugs, told by the digit loop alone: try `n` exists exactly when the loop gets all its
   digits out of the hash words, from the first word on, and its slug is the last of these digits.
   */
  lemma CandidateIsFetched(cfg: UrlShorteningConfig, url: string, n: nat)
    requires cfg.Valid() && 1 <= n
    ensures var fetched := FetchDigits(cfg.hash(url), 0, |cfg.alphabet|, n * cfg.slugLength, 4);
      && (cfg.Has(url, n) <==> fetched.Fetched?)
      && (cfg.Has(url, n) ==>
            && |fetched.ds| == (n - 1) * cfg.slugLength + cfg.slugLength && 0 <= (n - 1) * cfg.slugLength
            && cfg.Candidate(url, n) == Text(fetched.ds[(n - 1) * cfg.slugLength..]))
  {
    var s, len := cfg.StreamOf(url), cfg.slugLength;
    GuardAsWritten(cfg.hash(url), 0, |cfg.alphabet|, n * len);
    WindowIs(s, len, n);
    MulMonotone(0, n - 1, len);
    if cfg.Has(url, n) {
      assert s[..n * len][(n - 1) * len..] == s[(n - 1) * len..n * len];
    }
  }

  // ---------- The fixed-length slug ----------

  /** The index of an alphabet symbol; 58 for every other character. */
  function IndexOf(c: char): nat {
    if '1' <= c <= '9' then (c - '1') as nat
    else if 'A' <= c <= 'H' then 9 + (c - 'A') as nat
    else if 'J' <= c <= 'N' then 17 + (c - 'J') as nat
    else if 'P' <= c <= 'Z' then 22 + (c - 'P') as nat
    else if 'a' <= c <= 'k' then 33 + (c - 'a') as nat
    else if 'm' <= c <= 'z' then 44 + (c - 'm') as nat
    else 58
  }

  /** The number that a slug spells in base 58, low digit first. */
  function Decode(s: string): nat {
    Value(seq(|s|, i requires 0 <= i < |s| => IndexOf(s[i])), 58)
  }

  lemma SevenDigits()
    ensures Pow(58, 7) == 2_207_984_167_552
  {
  }

  method GenerateShortenedUrl(hash: Uint64) returns (out: string)
    ensures out == Text(Fixed(hash, 58, 7))
  {
    var result := hash;
    out := "";
    for i := 0 to SHORTENED_URL_LEN
      invariant out + Text(Fixed(result, 58, SHORTENED_URL_LEN - i)) == Text(Fixed(hash, 58, 7))
    {
      ghost var rest := Fixed(result / 58, 58, SHORTENED_URL_LEN - i - 1);
      assert Fixed(result, 58, SHORTENED_URL_LEN - i) == [result % 58] + rest;
      assert Text([result % 58] + rest) == [Symbol(result % 58)] + Text(rest);
      out := out + [Symbol(result % 58)];
      result := result / 58;
    }
  }

  /** The seven characters spell the hash modulo 58 to the 7. */
  lemma DecodeShortenedUrl(hash: Uint64)
    ensures Decode(Text(Fixed(hash, 58, 7))) == hash % 2_207_984_167_552
  {
    var ds := Fixed(hash, 58, 7);
    var s := Text(ds);
    forall i | 0 <= i < |s| ensures IndexOf(s[i]) == ds[i] {
      assert ds[i] in ds;
    }
    assert seq(|s|, i requires 0 <= i < |s| => IndexOf(s[i])) == ds;
    ValueFixed(hash, 58, 7);
    SevenDigits();
  }

  /** Two hashes share a fixed-length slug exactly when they agree modulo 58 to the 7. */
  lemma SameShortenedUrl(h: Uint64, k: Uint64)
    ensures Text(Fixed(h, 58, 7)) == Text(Fixed(k, 58, 7))
      <==> h % 2_207_984_167_552 == k % 2_207_984_167_552
  {
    var hs, ks := Fixed(h, 58, 7), Fixed(k, 58, 7);
    ValueFixed(h, 58, 7);
    ValueFixed(k, 58, 7);
    SevenDigits();
    TextInjective(hs, ks);
    if Value(hs, 58) == Value(ks, 58) {
      ValueInjective(hs, ks, 58);
    }
  }
}
