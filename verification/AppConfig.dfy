/** Parsing of configuration values: the hexadecimal hash key and comma-separated lists. */
module AppConfig {
  import opened UrlShortening
  import opened Digits
  import opened Wrappers

  // ---------- Unsigned hexadecimal numbers, as std::stoull reads them ----------

  /** The value of a hexadecimal digit; 16 for every other character. */
  function HexDigit(c: char): (d: nat) {
    if '0' <= c <= '9' then (c - '0') as nat
    else if 'a' <= c <= 'f' then 10 + (c - 'a') as nat
    else if 'A' <= c <= 'F' then 10 + (c - 'A') as nat
    else 16
  }

  /** The sixteen digits, in either case. */
  lemma HexDigitIff(c: char, d: nat)
    requires d < 16
    ensures HexDigit(c) == d <==> c == "0123456789abcdef"[d] || c == "0123456789ABCDEF"[d]
  {
    assert "0123456789abcdef"[d] == if d < 10 then '0' + d as char else 'a' + (d - 10) as char;
    assert "0123456789ABCDEF"[d] == if d < 10 then '0' + d as char else 'A' + (d - 10) as char;
  }

  predicate AllHex(s: string) {
    forall i :: 0 <= i < |s| ==> HexDigit(s[i]) < 16
  }

  /** The value of a digit sequence, high digit first. */
  function HexValue(s: string): nat {
    if s == "" then 0 else HexValue(s[..|s| - 1]) * 16 + HexDigit(s[|s| - 1])
  }

  predicate IsSpace(c: char) {
    c == ' ' || '\t' <= c <= '\r'
  }

  function SkipSpaces(s: string): (r: string)
    ensures |r| <= |s|
  {
    if s != "" && IsSpace(s[0]) then SkipSpaces(s[1..]) else s
  }

  /** The longest prefix of hexadecimal digits. */
  function HexPrefix(s: string): (r: string)
    ensures r <= s && AllHex(r)
  {
    if s != "" && HexDigit(s[0]) < 16 then [s[0]] + HexPrefix(s[1..]) else ""
  }

  function SkipBasePrefix(s: string): (r: string)
    ensures |r| <= |s|
  {
    if |s| > 2 && s[0] == '0' && (s[1] == 'x' || s[1] == 'X') && HexDigit(s[2]) < 16 then s[2..] else s
  }

  /** Spaces, an optional sign, an optional 0x, and digits up to the first other character. */
  function Stoull(s: string): Option<Uint64>
  {
    var t := SkipSpaces(s);
    var signed := t != "" && (t[0] == '+' || t[0] == '-');
    var digits := HexPrefix(SkipBasePrefix(if signed then t[1..] else t));
    var v := HexValue(digits);
    if digits == "" || v > MAX_WORD then None
    else if signed && t[0] == '-' && v != 0 then Some(MAX_WORD + 1 - v)
    else Some(v)
  }

  lemma {:induction false} SkipSpacesIs(spaces: string, s: string)
    requires (forall c :: c in spaces ==> c in " \t\n\U{000B}\U{000C}\r") && (s != "" ==> s[0] !in " \t\n\U{000B}\U{000C}\r")
    ensures SkipSpaces(spaces + s) == s
  {
    if spaces == "" {
      assert spaces + s == s;
    } else {
      assert spaces[0] in spaces && (spaces + s)[1..] == spaces[1..] + s;
      SkipSpacesIs(spaces[1..], s);
    }
  }

  lemma {:induction false} HexPrefixIs(digits: string, rest: string)
    requires AllHex(digits) && (rest != "" ==> HexDigit(rest[0]) == 16)
    ensures HexPrefix(digits + rest) == digits
  {
    if digits == "" {
      assert digits + rest == rest;
    } else {
      assert (digits + rest)[1..] == digits[1..] + rest;
      HexPrefixIs(digits[1..], rest);
    }
  }

  /** A base prefix is one only when a digit follows it. */
  lemma SkipBasePrefixIs(base: string, digits: string, rest: string)
    requires base in {"", "0x", "0X"} && digits != "" && AllHex(digits) && (rest != "" ==> HexDigit(rest[0]) == 16)
    requires base == "" && digits == "0" && |rest| > 1 && rest[0] in "xX" ==> HexDigit(rest[1]) == 16
    ensures SkipBasePrefix(base + digits + rest) == digits + rest
  {
    var s := base + digits + rest;
    if base == "" {
      assert s == digits + rest;
      assert |digits| > 1 ==> s[1] == digits[1] && HexDigit(s[1]) < 16;
    } else {
      assert s[2..] == digits + rest && s[2] == digits[0] && s[1] == base[1];
    }
  }

  lemma StoullParts(s: string, t: string, body: string, digits: string)
    requires t == SkipSpaces(s) && t != ""
    requires body == if t[0] == '+' || t[0] == '-' then t[1..] else t
    requires digits == HexPrefix(SkipBasePrefix(body)) && digits != ""
    ensures Stoull(s)
         == if HexValue(digits) > MAX_WORD then None
            else if t[0] == '-' && HexValue(digits) != 0 then Some(MAX_WORD + 1 - HexValue(digits))
            else Some(HexValue(digits))
  {
  }

  lemma UnsignedStart(base: string, digits: string, rest: string)
    requires base in {"", "0x", "0X"} && digits != "" && AllHex(digits)
    ensures var body := base + digits + rest; body != "" && body[0] !in " \t\n\U{000B}\U{000C}\r+-"
  {
    var body := base + digits + rest;
    assert HexDigit(digits[0]) < 16;
    assert body[0] == if base == "" then digits[0] else '0';
  }

  lemma SignSplit(sign: string, body: string)
    requires sign in {"", "+", "-"} && body != "" && body[0] !in " \t\n\U{000B}\U{000C}\r+-"
    ensures var t := sign + body;
      && t != "" && t[0] !in " \t\n\U{000B}\U{000C}\r"
      && body == (if t[0] == '+' || t[0] == '-' then t[1..] else t)
      && (t[0] == '-' <==> sign == "-")
  {
    var t := sign + body;
    assert t[0] == if sign == "" then body[0] else sign[0];
    assert sign == "" ==> t == body;
    assert sign != "" ==> t[1..] == body;
  }

  lemma SignedReads(spaces: string, sign: string, body: string, digits: string)
    requires forall c :: c in spaces ==> c in " \t\n\U{000B}\U{000C}\r"
    requires sign in {"", "+", "-"} && body != "" && body[0] !in " \t\n\U{000B}\U{000C}\r+-"
    requires digits == HexPrefix(SkipBasePrefix(body)) && digits != ""
    ensures var v := HexValue(digits);
      Stoull(spaces + (sign + body))
      == if v >= 0x1_0000_0000_0000_0000 then None
         else if sign == "-" && v > 0 then Some(0x1_0000_0000_0000_0000 - v)
         else Some(v)
  {
    var t := sign + body;
    SignSplit(sign, body);
    SkipSpacesIs(spaces, t);
    StoullParts(spaces + t, t, body, digits);
  }

  /**
   A number is read through leading white space, one sign and one base prefix, up to the first
   character that is no hexadecimal digit; it must fit into 64 bits, and a minus negates modulo 2^64.
   */
  lemma StoullReads(spaces: string, sign: string, base: string, digits: string, rest: string)
    requires forall c :: c in spaces ==> c in " \t\n\U{000B}\U{000C}\r"
    requires sign in {"", "+", "-"} && base in {"", "0x", "0X"}
    requires digits != "" && AllHex(digits) && (rest != "" ==> HexDigit(rest[0]) == 16)
    requires base == "" && digits == "0" && |rest| > 1 && rest[0] in "xX" ==> HexDigit(rest[1]) == 16
    ensures var v := HexValue(digits);
      Stoull(spaces + (sign + (base + digits + rest)))
      == if v >= 0x1_0000_0000_0000_0000 then None
         else if sign == "-" && v > 0 then Some(0x1_0000_0000_0000_0000 - v)
         else Some(v)
  {
    UnsignedStart(base, digits, rest);
    SkipBasePrefixIs(base, digits, rest);
    HexPrefixIs(digits, rest);
    SignedReads(spaces, sign, base + digits + rest, digits);
  }

  /** Without a digit after white space and one sign there is no number. */
  lemma StoullNeedsDigit(spaces: string, sign: string, rest: string)
    requires forall c :: c in spaces ==> c in " \t\n\U{000B}\U{000C}\r"
    requires sign in {"", "+", "-"} && (rest != "" ==> HexDigit(rest[0]) == 16)
    requires sign == "" && rest != "" ==> rest[0] !in " \t\n\U{000B}\U{000C}\r+-"
    ensures Stoull(spaces + (sign + rest)) == None
  {
    SkipSpacesIs(spaces, sign + rest);
    assert sign == "" ==> sign + rest == rest;
    assert sign != "" ==> (sign + rest)[1..] == rest;
  }

  // ---------- The hash key ----------

  function Part(src: string, i: nat): string
    requires |src| == 64 && i < 4
  {
    src[16 * i..16 * i + 16]
  }

  /** The four words of a key; nothing when the length is wrong or a part is not a number. */
  function KeyWith(number: string -> Option<Uint64>, src: string): Option<seq<Uint64>> {
    if |src| != 64 || exists i :: 0 <= i < 4 && number(Part(src, i)).None? then None
    else Some(seq(4, i requires 0 <= i < 4 => number(Part(src, i)).value))
  }

  function KeyOf(src: string): Option<seq<Uint64>> {
    KeyWith(Stoull, src)
  }

  /** The loop over the parts, for any way to read a number. */
  method FillKey(number: string -> Option<Uint64>, src: string) returns (key: Option<array<Uint64>>)
    ensures key.Some? <==> KeyWith(number, src).Some?
    ensures key.Some? ==> fresh(key.value) && key.value[..] == KeyWith(number, src).value
  {
    if |src| != 64 {
      return None;
    }
    var out := new Uint64[4];
    for i := 0 to 4
      invariant forall k :: 0 <= k < i ==> number(Part(src, k)) == Some(out[k])
    {
      var n := number(Part(src, i));
      if n.None? {
        return None;
      }
      out[i] := n.value;
    }
    key := Some(out);
  }

  method CreateHighwayhashKey(src: string) returns (key: Option<array<Uint64>>)
    ensures key.Some? <==> KeyOf(src).Some?
    ensures key.Some? ==> fresh(key.value) && key.value[..] == KeyOf(src).value
  {
    key := FillKey(Stoull, src);
  }

  /** The lower-case digit of a value below 16. */
  function HexChar(d: nat): char
    requires d < 16
  {
    if d < 10 then '0' + d as char else 'a' + (d - 10) as char
  }

  /** The `k` low hexadecimal digits of `n`, high digit first. */
  function Printed(n: nat, k: nat): (s: string)
    ensures |s| == k && AllHex(s)
  {
    if k == 0 then "" else Printed(n / 16, k - 1) + [HexChar(n % 16)]
  }

  function PrintedKey(words: seq<Uint64>): (s: string)
    requires |words| == 4
    ensures |s| == 64 && AllHex(s)
  {
    Printed(words[0], 16) + Printed(words[1], 16) + Printed(words[2], 16) + Printed(words[3], 16)
  }

  function Lower(s: string): string {
    seq(|s|, i requires 0 <= i < |s| => if 'A' <= s[i] <= 'F' then s[i] - 'A' + 'a' else s[i])
  }

  lemma {:induction false} HexPrefixAll(s: string)
    requires AllHex(s)
    ensures HexPrefix(s) == s
  {
    if s != "" {
      HexPrefixAll(s[1..]);
    }
  }

  lemma {:induction false} HexValueBelow(s: string)
    requires AllHex(s)
    ensures HexValue(s) < Pow(16, |s|)
  {
    if s != "" {
      HexValueBelow(s[..|s| - 1]);
    }
  }

  lemma Pow16()
    ensures Pow(16, 16) == MAX_WORD + 1
  {
    Square(16, 4, 65536);
    Square(16, 8, 4294967296);
  }

  lemma Pow16AtMost(k: nat)
    requires k <= 16
    ensures Pow(16, k) <= MAX_WORD + 1
  {
    PowMonotone(16, k, 16);
    Pow16();
  }

  lemma HexValueFits(s: string)
    requires |s| <= 16 && AllHex(s)
    ensures HexValue(s) <= MAX_WORD
  {
    HexValueBelow(s);
    Pow16AtMost(|s|);
  }

  /** A word of hexadecimal digits has no space, sign or base prefix. */
  lemma PlainHex(s: string)
    requires s != "" && AllHex(s)
    ensures SkipSpaces(s) == s && s[0] != '+' && s[0] != '-' && SkipBasePrefix(s) == s
  {
    assert HexDigit(s[0]) < 16 && (|s| > 1 ==> HexDigit(s[1]) < 16);
  }

  /** On hexadecimal digits alone, none of the other rules of the parser applies. */
  lemma StoullHex(s: string)
    requires 1 <= |s| <= 16 && AllHex(s)
    ensures Stoull(s) == Some(HexValue(s))
  {
    PlainHex(s);
    HexPrefixAll(s);
    HexValueFits(s);
  }

  lemma Horner(a: nat, p: nat, b: nat, d: nat)
    ensures (a * p + b) * 16 + d == a * (16 * p) + (b * 16 + d)
  {
    assert (a * p) * 16 == a * (16 * p);
  }

  lemma {:induction false} HexValueAppend(s: string, t: string)
    ensures HexValue(s + t) == HexValue(s) * Pow(16, |t|) + HexValue(t)
    decreases |t|
  {
    if t == "" {
      assert s + t == s;
    } else {
      var init, last := t[..|t| - 1], t[|t| - 1];
      assert (s + t)[..|s + t| - 1] == s + init && (s + t)[|s + t| - 1] == last;
      HexValueAppend(s, init);
      Horner(HexValue(s), Pow(16, |init|), HexValue(init), HexDigit(last));
    }
  }

  lemma HexValueAppendWord(s: string, t: string)
    requires |t| == 16
    ensures HexValue(s + t) == HexValue(s) * (MAX_WORD + 1) + HexValue(t)
  {
    HexValueAppend(s, t);
    Pow16();
  }

  lemma PartsJoin(src: string)
    requires |src| == 64
    ensures src == Part(src, 0) + Part(src, 1) + Part(src, 2) + Part(src, 3)
  {
  }

  lemma PartsOf(a: string, b: string, c: string, d: string)
    requires |a| == |b| == |c| == |d| == 16
    ensures var src := a + b + c + d;
      |src| == 64 && Part(src, 0) == a && Part(src, 1) == b && Part(src, 2) == c && Part(src, 3) == d
  {
  }

  lemma KeyWithIs(number: string -> Option<Uint64>, src: string, words: seq<Uint64>)
    requires |src| == 64 && |words| == 4
    requires forall i :: 0 <= i < 4 ==> number(Part(src, i)) == Some(words[i])
    ensures KeyWith(number, src) == Some(words)
  {
    assert seq(4, i requires 0 <= i < 4 => number(Part(src, i)).value) == words;
    assert KeyWith(number, src).Some?;
  }

  lemma KeyWithIff(number: string -> Option<Uint64>, src: string)
    requires |src| == 64
    ensures KeyWith(number, src).Some?
      <==> number(Part(src, 0)).Some? && number(Part(src, 1)).Some?
           && number(Part(src, 2)).Some? && number(Part(src, 3)).Some?
  {
  }

  /** A key parses exactly when it has 64 characters and each 16 of them are read as a number. */
  lemma KeyIff(src: string)
    ensures KeyOf(src).Some?
      <==> |src| == 64 && Stoull(src[..16]).Some? && Stoull(src[16..32]).Some?
           && Stoull(src[32..48]).Some? && Stoull(src[48..]).Some?
  {
    if |src| == 64 {
      assert Part(src, 0) == src[..16] && Part(src, 1) == src[16..32];
      assert Part(src, 2) == src[32..48] && Part(src, 3) == src[48..];
      KeyWithIff(Stoull, src);
    }
  }

  /** The words of a key of 64 digits are the values of its parts. */
  lemma KeyOfParts(src: string, words: seq<Uint64>)
    requires |src| == 64 && AllHex(src) && |words| == 4
    requires forall i :: 0 <= i < 4 ==> words[i] == HexValue(Part(src, i))
    ensures KeyOf(src) == Some(words)
  {
    forall i | 0 <= i < 4 ensures Stoull(Part(src, i)) == Some(words[i]) {
      StoullHex(Part(src, i));
    }
    KeyWithIs(Stoull, src, words);
  }

  lemma KeyParts(src: string)
    requires |src| == 64 && AllHex(src)
    ensures KeyOf(src).Some? && |KeyOf(src).value| == 4
    ensures forall i :: 0 <= i < 4 ==> KeyOf(src).value[i] == HexValue(Part(src, i))
  {
    HexValueFits(Part(src, 0));
    HexValueFits(Part(src, 1));
    HexValueFits(Part(src, 2));
    HexValueFits(Part(src, 3));
    KeyOfParts(src, [HexValue(Part(src, 0)), HexValue(Part(src, 1)), HexValue(Part(src, 2)), HexValue(Part(src, 3))]);
  }

  /** The words of a key of 64 digits are its four parts, and together its big-endian value. */
  lemma KeyIsBigEndian(src: string)
    requires |src| == 64 && AllHex(src)
    ensures KeyOf(src).Some?
    ensures var w, p := KeyOf(src).value, MAX_WORD + 1;
      HexValue(src) == ((w[0] * p + w[1]) * p + w[2]) * p + w[3]
  {
    KeyParts(src);
    PartsJoin(src);
    var p0, p1, p2, p3 := Part(src, 0), Part(src, 1), Part(src, 2), Part(src, 3);
    HexValueAppendWord(p0 + p1 + p2, p3);
    HexValueAppendWord(p0 + p1, p2);
    HexValueAppendWord(p0, p1);
  }

  lemma {:induction false} PrintedValue(n: nat, k: nat)
    requires n < Pow(16, k)
    ensures HexValue(Printed(n, k)) == n
  {
    if k > 0 {
      DivBelow(n, 16, Pow(16, k - 1));
      PrintedValue(n / 16, k - 1);
      assert Printed(n, k)[..k - 1] == Printed(n / 16, k - 1);
    }
  }

  lemma {:induction false} ValuePrinted(s: string)
    requires AllHex(s)
    ensures Printed(HexValue(s), |s|) == Lower(s)
  {
    if s != "" {
      var init := s[..|s| - 1];
      ValuePrinted(init);
      assert HexValue(s) / 16 == HexValue(init) && HexValue(s) % 16 == HexDigit(s[|s| - 1]);
      assert Lower(s) == Lower(init) + [HexChar(HexDigit(s[|s| - 1]))];
    }
  }

  lemma PrintedWord(w: Uint64)
    ensures HexValue(Printed(w, 16)) == w
  {
    Pow16();
    PrintedValue(w, 16);
  }

  lemma PrintedPartIs(words: seq<Uint64>, i: nat)
    requires |words| == 4 && i < 4
    ensures Part(PrintedKey(words), i) == Printed(words[i], 16)
  {
    PartsOf(Printed(words[0], 16), Printed(words[1], 16), Printed(words[2], 16), Printed(words[3], 16));
  }

  /** Parsing a printed key gives the words back. */
  lemma ParsePrinted(words: seq<Uint64>)
    requires |words| == 4
    ensures KeyOf(PrintedKey(words)) == Some(words)
  {
    forall i | 0 <= i < 4 ensures words[i] == HexValue(Part(PrintedKey(words), i)) {
      PrintedPartIs(words, i);
      PrintedWord(words[i]);
    }
    KeyOfParts(PrintedKey(words), words);
  }

  lemma LowerAppend(s: string, t: string)
    ensures Lower(s + t) == Lower(s) + Lower(t)
  {
  }

  lemma LowerParts(src: string)
    requires |src| == 64
    ensures Lower(src) == Lower(Part(src, 0)) + Lower(Part(src, 1)) + Lower(Part(src, 2)) + Lower(Part(src, 3))
  {
    var a, b, c, d := Part(src, 0), Part(src, 1), Part(src, 2), Part(src, 3);
    PartsJoin(src);
    LowerAppend(a + b + c, d);
    LowerAppend(a + b, c);
    LowerAppend(a, b);
  }

  lemma PrintedPart(src: string, i: nat)
    requires |src| == 64 && AllHex(src) && i < 4
    ensures KeyOf(src).Some? && |KeyOf(src).value| == 4 && Printed(KeyOf(src).value[i], 16) == Lower(Part(src, i))
  {
    KeyParts(src);
    ValuePrinted(Part(src, i));
  }

  /** Printing a parsed key gives the digits back, in lower case. */
  lemma PrintParsed(src: string)
    requires |src| == 64 && AllHex(src)
    ensures KeyOf(src).Some? && PrintedKey(KeyOf(src).value) == Lower(src)
  {
    PrintedPart(src, 0);
    PrintedPart(src, 1);
    PrintedPart(src, 2);
    PrintedPart(src, 3);
    LowerParts(src);
  }

  // ---------- Comma-separated lists ----------

  /** The position of the first delimiter, or the length when there is none. */
  function Find(s: string, delim: char): (e: nat)
    ensures e <= |s| && delim !in s[..e] && (e < |s| ==> s[e] == delim)
  {
    if s == "" || s[0] == delim then 0
    else
      var e := Find(s[1..], delim);
      assert s[..1 + e] == [s[0]] + s[1..][..e];
      1 + e
  }

  /** The fields of a list; a delimiter at the very end starts no further field. */
  function Fields(s: string, delim: char): seq<string>
    decreases |s|
  {
    if s == "" then []
    else
      var e := Find(s, delim);
      if e == |s| then [s] else [s[..e]] + Fields(s[e + 1..], delim)
  }

  lemma FirstField(s: string, delim: char)
    requires Find(s, delim) < |s|
    ensures Fields(s, delim) == [s[..Find(s, delim)]] + Fields(s[Find(s, delim) + 1..], delim)
  {
  }

  lemma Slices(csv: string, i: nat, j: nat)
    requires i <= j < |csv|
    ensures csv[i..][..j - i] == csv[i..j] && csv[i..][j - i + 1..] == csv[j + 1..]
  {
  }

  lemma MoveFirst(found: seq<string>, f: string, rest: seq<string>)
    ensures found + ([f] + rest) == (found + [f]) + rest
  {
  }

  /** One field at position `i` of a list, after the fields found so far. */
  lemma FieldAt(csv: string, i: nat, j: nat, delim: char, found: seq<string>)
    requires i <= j < |csv| && j == i + Find(csv[i..], delim)
    ensures found + Fields(csv[i..], delim) == (found + [csv[i..j]]) + Fields(csv[j + 1..], delim)
  {
    FirstField(csv[i..], delim);
    Slices(csv, i, j);
    MoveFirst(found, csv[i..j], Fields(csv[j + 1..], delim));
  }

  lemma LastField(csv: string, i: nat, delim: char)
    requires i <= |csv| && i + Find(csv[i..], delim) == |csv|
    ensures Fields(csv[i..], delim) == if i < |csv| then [csv[i..]] else []
  {
  }

  method SplitCsvString(csv: string, delim: char) returns (dst: seq<string>)
    ensures dst == Fields(csv, delim)
  {
    dst := [];
    assert csv[0..] == csv;
    var i := 0;
    var j := i + Find(csv[i..], delim);
    while j < |csv|
      invariant 0 <= i <= j <= |csv| && j == i + Find(csv[i..], delim)
      invariant dst + Fields(csv[i..], delim) == Fields(csv, delim)
      decreases |csv| - i
    {
      FieldAt(csv, i, j, delim, dst);
      dst := dst + [csv[i..j]];
      i := j + 1;
      j := i + Find(csv[i..], delim);
    }
    LastField(csv, i, delim);
    if i < |csv| {
      dst := dst + [csv[i..]];
    }
  }

  function Joined(fields: seq<string>, delim: char): string {
    if fields == [] then ""
    else if |fields| == 1 then fields[0]
    else fields[0] + [delim] + Joined(fields[1..], delim)
  }

  /** The list without one delimiter at its end. */
  function Trimmed(s: string, delim: char): string {
    if s != "" && s[|s| - 1] == delim then s[..|s| - 1] else s
  }

  lemma TrimmedField(f: string, delim: char, rest: string)
    ensures Trimmed(f + [delim] + rest, delim) == if rest == "" then f else f + [delim] + Trimmed(rest, delim)
  {
    var s := f + [delim] + rest;
    assert rest != "" ==> s[|s| - 1] == rest[|rest| - 1] && s[..|s| - 1] == f + [delim] + rest[..|rest| - 1];
  }

  /** Joining the fields gives the list back, without one delimiter at its end. */
  lemma {:induction false} JoinSplit(s: string, delim: char)
    ensures Joined(Fields(s, delim), delim) == Trimmed(s, delim)
    decreases |s|
  {
    if s != "" {
      var e := Find(s, delim);
      if e < |s| {
        var rest := s[e + 1..];
        JoinSplit(rest, delim);
        assert s == s[..e] + [delim] + rest;
        TrimmedField(s[..e], delim, rest);
        assert rest != "" ==> Fields(rest, delim) != [];
      } else {
        assert s[..e] == s && s[|s| - 1] in s;
      }
    }
  }

  /** No field holds a delimiter. */
  lemma {:induction false} FieldsLackDelimiter(s: string, delim: char)
    ensures forall f :: f in Fields(s, delim) ==> delim !in f
    decreases |s|
  {
    if s != "" {
      var e := Find(s, delim);
      if e < |s| {
        FieldsLackDelimiter(s[e + 1..], delim);
      } else {
        assert s[..e] == s;
      }
    }
  }

  lemma {:induction false} FindFirst(f: string, delim: char, rest: string)
    requires delim !in f
    ensures Find(f, delim) == |f| && Find(f + [delim] + rest, delim) == |f|
  {
    var all := f + [delim] + rest;
    if f != "" {
      assert f[0] in f && forall c :: c in f[1..] ==> c in f;
      FindFirst(f[1..], delim, rest);
      assert all[1..] == f[1..] + [delim] + rest;
    }
  }

  /** Splitting gives joined fields back exactly when the last of them is not empty. */
  lemma {:induction false} SplitJoinIff(fields: seq<string>, delim: char)
    requires forall f :: f in fields ==> delim !in f
    ensures Fields(Joined(fields, delim), delim) == fields <==> fields == [] || fields[|fields| - 1] != ""
    decreases |fields|
  {
    if fields != [] {
      var f, more := fields[0], fields[1..];
      FindFirst(f, delim, Joined(more, delim));
      assert forall g :: g in more ==> g in fields;
      if more == [] {
        assert fields == [f];
      } else {
        SplitJoinIff(more, delim);
        var s := f + [delim] + Joined(more, delim);
        assert s[..|f|] == f && s[|f| + 1..] == Joined(more, delim);
        assert Fields(s, delim) == [f] + Fields(Joined(more, delim), delim);
        assert fields == [f] + more && fields[|fields| - 1] == more[|more| - 1];
        assert ([f] + Fields(Joined(more, delim), delim))[1..] == Fields(Joined(more, delim), delim);
      }
    }
  }
}
