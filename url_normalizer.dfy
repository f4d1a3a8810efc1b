/** `normalizeLinkedinUrl`: the dedup key under which a captured profile is
    upserted. */
module UrlNormalizer {
  import opened Wrappers
  import opened JsText

  /** The regular expression `/c.*$/` (no flags) matches at position `i`:
      `s[i]` is `c` and `.*` can reach the end of the input, which it can
      only when no line terminator follows. */
  predicate MatchesAt(s: string, i: nat, c: char)
    requires i < |s|
  {
    s[i] == c && NoLineTerminator(s[i + 1..])
  }

  /** `s.replace(/c.*$/, "")`: everything from the leftmost match onwards is
      removed. */
  function CutAtMatch(s: string, c: char): (r: string)
    ensures |r| <= |s|
  {
    if s == [] then []
    else if MatchesAt(s, 0, c) then []
    else [s[0]] + CutAtMatch(s[1..], c)
  }

  /** Dropping the first character shifts every later match position down
      by one. */
  lemma MatchesAtShift(s: string, j: nat, c: char)
    requires 1 <= j < |s|
    ensures MatchesAt(s[1..], j - 1, c) == MatchesAt(s, j, c)
  {
    assert s[1..][j..] == s[j + 1..];
  }

  /** The result of `CutAtMatch` is a prefix of its input holding no match,
      and what was removed starts with one. */
  lemma {:induction false} CutAtMatchSpec(s: string, c: char)
    ensures CutAtMatch(s, c) <= s
    ensures forall j :: 0 <= j < |CutAtMatch(s, c)| ==> !MatchesAt(s, j, c)
    ensures |CutAtMatch(s, c)| < |s| ==> MatchesAt(s, |CutAtMatch(s, c)|, c)
    decreases |s|
  {
    if s != [] && !MatchesAt(s, 0, c) {
      var t := CutAtMatch(s[1..], c);
      CutAtMatchSpec(s[1..], c);
      forall j | 1 <= j < |s| ensures MatchesAt(s[1..], j - 1, c) == MatchesAt(s, j, c) {
        MatchesAtShift(s, j, c);
      }
      assert CutAtMatch(s, c) == [s[0]] + t;
    }
  }

  /** `s.replace(/\/$/, "")`: one `/` at the very end is removed, and only
      then does the string change. */
  function DropTrailingSlash(s: string): (r: string)
    ensures s == r || s == r + "/"
    ensures r == s <==> s == [] || s[|s| - 1] != '/'
  {
    if s != [] && s[|s| - 1] == '/' then s[..|s| - 1] else s
  }

  /** The trimmed, lower-cased URL from which the key is cut. */
  function Cleaned(u: string): string
  {
    ToLower(Trim(u))
  }

  /** The cleaned URL without its query string and fragment. */
  function Stem(u: string): string
  {
    CutAtMatch(CutAtMatch(Cleaned(u), '?'), '#')
  }

  /** The key of a URL that is not empty. */
  function Key(u: string): string
  {
    DropTrailingSlash(Stem(u))
  }

  /** `normalizeLinkedinUrl(url)`; `None` stands for `undefined` or `null`.
      The key of an absent or empty URL is empty. */
  function Normalize(url: Option<string>): (key: string)
    ensures url == None || url == Some("") ==> key == ""
    ensures url.Some? && url.value != "" ==> key == Key(url.value)
  {
    match url
    case None => ""
    case Some(u) => if u == "" then "" else Key(u)
  }

  /** A slice of a one-line string is on one line. */
  lemma OneLineSlice(s: string, i: nat, j: nat)
    requires i <= j <= |s| && NoLineTerminator(s)
    ensures NoLineTerminator(s[i..j])
  {
    forall m | 0 <= m < j - i ensures !IsLineTerminator(s[i..j][m]) {
      assert s[i..j][m] == s[i + m];
    }
  }

  /** Matches that survive in a prefix were matches in the whole string, as
      long as what was cut off holds no line terminator. */
  lemma MatchInPrefix(s: string, p: string, j: nat, c: char)
    requires p <= s && j < |p|
    requires NoLineTerminator(s[|p|..])
    requires MatchesAt(p, j, c)
    ensures MatchesAt(s, j, c)
  {
    assert s[j + 1..] == p[j + 1..] + s[|p|..];
  }

  /** A string without a match is left as it is. */
  lemma {:induction false} NoMatchUnchanged(s: string, c: char)
    requires forall j :: 0 <= j < |s| ==> !MatchesAt(s, j, c)
    ensures CutAtMatch(s, c) == s
    decreases |s|
  {
    if s != [] {
      forall j | 0 <= j < |s| - 1 ensures !MatchesAt(s[1..], j, c) {
        MatchesAtShift(s, j + 1, c);
      }
      NoMatchUnchanged(s[1..], c);
      assert [s[0]] + s[1..] == s;
    }
  }

  /** A string without the character at all is left as it is. */
  lemma AbsentUnchanged(s: string, c: char)
    requires c !in s
    ensures CutAtMatch(s, c) == s
  {
    NoMatchUnchanged(s, c);
  }

  /** A prefix of a string without a match of `c` has none either, as long
      as what was cut off holds no line terminator. */
  lemma NoMatchInPrefix(s: string, p: string, c: char)
    requires p <= s && NoLineTerminator(s[|p|..])
    requires forall j :: 0 <= j < |s| ==> !MatchesAt(s, j, c)
    ensures forall j :: 0 <= j < |p| ==> !MatchesAt(p, j, c)
  {
    forall j | 0 <= j < |p| ensures !MatchesAt(p, j, c) {
      if MatchesAt(p, j, c) { MatchInPrefix(s, p, j, c); }
    }
  }

  /** What `CutAtMatch` removes holds no line terminator, unless it is the
      searched character itself. */
  lemma CutRemainderOneLine(s: string, c: char)
    requires !IsLineTerminator(c)
    ensures NoLineTerminator(s[|CutAtMatch(s, c)|..])
  {
    var r := CutAtMatch(s, c);
    CutAtMatchSpec(s, c);
    if |r| < |s| {
      assert s[|r|..] == [s[|r|]] + s[|r| + 1..];
    }
  }

  /** Cutting at a match of `c` leaves no match of `c`, so cutting twice is
      cutting once. */
  lemma CutAtMatchIdempotent(s: string, c: char)
    requires !IsLineTerminator(c)
    ensures forall j :: 0 <= j < |CutAtMatch(s, c)| ==> !MatchesAt(CutAtMatch(s, c), j, c)
    ensures CutAtMatch(CutAtMatch(s, c), c) == CutAtMatch(s, c)
  {
    var r := CutAtMatch(s, c);
    CutAtMatchSpec(s, c);
    CutRemainderOneLine(s, c);
    forall j | 0 <= j < |r| ensures !MatchesAt(r, j, c) {
      if MatchesAt(r, j, c) { MatchInPrefix(s, r, j, c); }
    }
    NoMatchUnchanged(r, c);
  }

  /** On one line, cutting at a match of `c` is cutting at the first `c`:
      no `c` survives. */
  lemma CutOneLine(s: string, c: char)
    requires NoLineTerminator(s)
    ensures c !in CutAtMatch(s, c)
    ensures NoLineTerminator(CutAtMatch(s, c))
  {
    var r := CutAtMatch(s, c);
    CutAtMatchSpec(s, c);
    forall j | 0 <= j < |r| ensures r[j] != c {
      OneLineSlice(s, j + 1, |s|);
      assert !MatchesAt(s, j, c);
    }
    OneLineSlice(s, 0, |r|);
    assert s[0..|r|] == r;
  }

  /** Trimming and lower-casing keep a one-line URL on one line. */
  lemma CleanedOneLine(u: string)
    requires NoLineTerminator(u)
    ensures NoLineTerminator(Cleaned(u))
  {
    var i, j := TrimIsSlice(u);
    OneLineSlice(u, i, j);
    var t := Cleaned(u);
    ToLowerAt(Trim(u));
    forall k | 0 <= k < |t| ensures !IsLineTerminator(t[k]) {
      assert t[k] == LowerChar(Trim(u)[k]);
    }
  }

  /** On a URL written on one line, the stem is the cleaned URL up to (not
      including) its first `?` or `#`. */
  lemma StemShape(u: string)
    requires NoLineTerminator(u)
    ensures Stem(u) <= Cleaned(u) && '?' !in Stem(u) && '#' !in Stem(u)
    ensures |Stem(u)| == |Cleaned(u)| || Cleaned(u)[|Stem(u)|] in {'?', '#'}
  {
    var t := Cleaned(u);
    CleanedOneLine(u);
    var a := CutAtMatch(t, '?');
    CutAtMatchSpec(t, '?');
    CutOneLine(t, '?');
    var stem := CutAtMatch(a, '#');
    CutAtMatchSpec(a, '#');
    CutOneLine(a, '#');
    assert '?' !in stem by {
      forall k | 0 <= k < |stem| ensures stem[k] != '?' {
        assert stem[k] == a[k];
      }
    }
    if |stem| < |t| {
      if |stem| < |a| {
        assert a[|stem|] == '#';
      } else {
        assert t[|a|] == '?';
      }
    }
  }

  /** On a URL written on one line, the key is the cleaned URL up to (not
      including) its first `?` or `#`, less at most one trailing `/`; no `?`
      and no `#` survives. */
  lemma NormalizeShape(u: string)
    requires u != ""
    requires NoLineTerminator(u)
    ensures Normalize(Some(u)) <= Stem(u) <= Cleaned(u)
    ensures |Stem(u)| == |Cleaned(u)| || Cleaned(u)[|Stem(u)|] in {'?', '#'}
    ensures '?' !in Stem(u) && '#' !in Stem(u)
    ensures Normalize(Some(u)) == Stem(u) || Stem(u) == Normalize(Some(u)) + "/"
    ensures '?' !in Normalize(Some(u)) && '#' !in Normalize(Some(u))
  {
    StemShape(u);
    var key := Key(u);
    assert key <= Stem(u);
  }

  /** Cutting at a match of `d` creates no match of `c`. */
  lemma CutKeepsNoMatch(s: string, c: char, d: char)
    requires !IsLineTerminator(d)
    requires forall j :: 0 <= j < |s| ==> !MatchesAt(s, j, c)
    ensures forall j :: 0 <= j < |CutAtMatch(s, d)| ==> !MatchesAt(CutAtMatch(s, d), j, c)
  {
    CutAtMatchSpec(s, d);
    CutRemainderOneLine(s, d);
    NoMatchInPrefix(s, CutAtMatch(s, d), c);
  }

  /** A stem holds no match of `?`: the first cut leaves none, and the
      second cut only shortens the string by a part on one line. */
  lemma StemHasNoQuery(u: string)
    ensures forall j :: 0 <= j < |Stem(u)| ==> !MatchesAt(Stem(u), j, '?')
  {
    CutAtMatchIdempotent(Cleaned(u), '?');
    CutKeepsNoMatch(CutAtMatch(Cleaned(u), '?'), '?', '#');
  }

  /** A stem holds no match of `#`. */
  lemma StemHasNoFragment(u: string)
    ensures forall j :: 0 <= j < |Stem(u)| ==> !MatchesAt(Stem(u), j, '#')
  {
    CutAtMatchIdempotent(CutAtMatch(Cleaned(u), '?'), '#');
  }

  /** Dropping a trailing slash creates no match. */
  lemma DropKeepsNoMatch(s: string, c: char)
    requires forall j :: 0 <= j < |s| ==> !MatchesAt(s, j, c)
    ensures forall j :: 0 <= j < |DropTrailingSlash(s)| ==> !MatchesAt(DropTrailingSlash(s), j, c)
  {
    var r := DropTrailingSlash(s);
    assert NoLineTerminator(s[|r|..]) by {
      assert |s| - |r| <= 1;
    }
    NoMatchInPrefix(s, r, c);
  }

  /** A key holds no match of `?` or `#`. */
  lemma KeyHasNoMatch(u: string)
    ensures forall j :: 0 <= j < |Key(u)| ==> !MatchesAt(Key(u), j, '?')
    ensures forall j :: 0 <= j < |Key(u)| ==> !MatchesAt(Key(u), j, '#')
  {
    StemHasNoQuery(u);
    StemHasNoFragment(u);
    DropKeepsNoMatch(Stem(u), '?');
    DropKeepsNoMatch(Stem(u), '#');
  }

  /** A key is a prefix of the cleaned URL. */
  lemma KeyIsPrefix(u: string)
    ensures Key(u) <= Cleaned(u)
  {
    var t := Cleaned(u);
    var a := CutAtMatch(t, '?');
    CutAtMatchSpec(t, '?');
    CutAtMatchSpec(a, '#');
    assert Key(u) <= Stem(u);
    assert Stem(u) <= a;
  }

  /** A key has no upper-case letter and does not start with white space. */
  lemma KeyIsClean(u: string)
    ensures forall j :: 0 <= j < |Key(u)| ==> !('A' <= Key(u)[j] <= 'Z')
    ensures Key(u) != [] ==> !IsSpace(Key(u)[0])
  {
    var t := Cleaned(u);
    var key := Key(u);
    KeyIsPrefix(u);
    ToLowerAt(Trim(u));
    forall j | 0 <= j < |key| ensures !('A' <= key[j] <= 'Z') {
      assert key[j] == t[j];
    }
    if key != [] {
      var i, j := TrimIsSlice(u);
      assert key[0] == t[0] == LowerChar(Trim(u)[0]);
    }
  }

  /** A key that ends in white space is shortened by normalising it again. */
  lemma RenormalizeTrims(key: string)
    requires key != "" && IsSpace(key[|key| - 1])
    ensures Normalize(Some(key)) != key
  {
    var i, j := TrimIsSlice(key);
    assert |Trim(key)| < |key|;
    KeyIsPrefix(key);
  }

  /** A key that ends in neither white space nor `/` is its own key. */
  lemma RenormalizeKeeps(u: string)
    requires Key(u) != "" && !IsSpace(Key(u)[|Key(u)| - 1])
    ensures Stem(Key(u)) == Key(u)
  {
    var key := Key(u);
    KeyHasNoMatch(u);
    KeyIsClean(u);
    assert TrimStart(key) == key;
    assert TrimEnd(key) == key;
    ToLowerAt(key);
    assert ToLower(key) == key;
    NoMatchUnchanged(key, '?');
    NoMatchUnchanged(key, '#');
  }

  /** Normalising a key again gives the same key exactly when the key is
      empty or ends in neither white space nor `/`. So normalisation is not
      idempotent in general: see `NotIdempotent`. */
  lemma NormalizeTwiceIff(url: Option<string>)
    ensures var key := Normalize(url);
      Normalize(Some(key)) == key <==>
        key == "" || (!IsSpace(key[|key| - 1]) && key[|key| - 1] != '/')
  {
    var key := Normalize(url);
    if key != "" {
      if IsSpace(key[|key| - 1]) {
        RenormalizeTrims(key);
      } else {
        RenormalizeKeeps(url.value);
      }
    }
  }

  /** A URL with no white space at its ends, no upper-case letter, no `?`
      and no `#` is cleaned and stemmed to itself. */
  lemma PlainStem(u: string)
    requires u != [] && !IsSpace(u[0]) && !IsSpace(u[|u| - 1])
    requires forall j :: 0 <= j < |u| ==> !('A' <= u[j] <= 'Z')
    requires '?' !in u && '#' !in u
    ensures Stem(u) == u
  {
    assert TrimStart(u) == u;
    assert TrimEnd(u) == u;
    ToLowerAt(u);
    assert ToLower(u) == u;
    AbsentUnchanged(u, '?');
    AbsentUnchanged(u, '#');
  }

  /** The key of a URL that `PlainStem` leaves as it is: the URL less at
      most one trailing `/`. */
  lemma PlainKey(u: string)
    requires u != [] && !IsSpace(u[0]) && !IsSpace(u[|u| - 1])
    requires forall j :: 0 <= j < |u| ==> !('A' <= u[j] <= 'Z')
    requires '?' !in u && '#' !in u
    ensures Normalize(Some(u)) == DropTrailingSlash(u)
  {
    PlainStem(u);
  }

  /** A doubled trailing slash loses one slash per pass: the key of `x//`
      is `x/`, whose own key is `x`. */
  lemma NotIdempotent(u: string)
    requires u == "x//"
    ensures Normalize(Some(u)) == "x/"
    ensures Normalize(Some(Normalize(Some(u)))) == "x"
  {
    PlainKey(u);
    assert DropTrailingSlash(u) == u[..2] == "x/";
    PlainKey("x/");
    assert DropTrailingSlash("x/") == "x/"[..1] == "x";
  }

  /** The stem is the cleaned URL up to the first `?` or `#`, wherever that
      is shown to be. */
  lemma StemUpTo(u: string, t: string, e: nat)
    requires NoLineTerminator(u) && t == Cleaned(u)
    requires e <= |t|
    requires '?' !in t[..e] && '#' !in t[..e]
    requires e == |t| || t[e] in {'?', '#'}
    ensures Stem(u) == t[..e]
  {
    StemShape(u);
  }

  /** Lower-casing creates no `?`, `#` or `/`. */
  lemma LowerCharKeeps(c: char)
    ensures LowerChar(c) == '?' <==> c == '?'
    ensures LowerChar(c) == '#' <==> c == '#'
    ensures LowerChar(c) == '/' <==> c == '/'
  {
  }

  /** Trimming a string that starts with `b`, where `b` has no white space
      at either end, keeps all of `b` and a prefix of the rest that loses
      only white space. */
  lemma TrimKeepsBase(b: string, x: string) returns (y: string)
    requires b != "" && !IsSpace(b[0]) && !IsSpace(b[|b| - 1])
    ensures Trim(b + x) == b + y && y <= x
    ensures forall k :: |y| <= k < |x| ==> IsSpace(x[k])
  {
    var u := b + x;
    var i, j := TrimIsSlice(u);
    assert i == 0 by {
      assert u[0] == b[0];
    }
    assert j >= |b| by {
      assert u[|b| - 1] == b[|b| - 1];
    }
    y := x[..j - |b|];
    assert u[..j] == b + y;
    forall k | |y| <= k < |x| ensures IsSpace(x[k]) {
      assert x[k] == u[|b| + k];
    }
  }

  /** Lower-casing a base URL creates no `?` or `#`. */
  lemma LowerBase(b: string)
    requires '?' !in b && '#' !in b
    ensures '?' !in ToLower(b) && '#' !in ToLower(b)
  {
    ToLowerAt(b);
    forall k | 0 <= k < |b| ensures ToLower(b)[k] != '?' && ToLower(b)[k] != '#' {
      LowerCharKeeps(b[k]);
    }
  }

  /** What trimming keeps of a suffix `sl + q`: all of `sl` and, when `q` is
      not empty, the first character of `q`. */
  lemma TrimmedSuffix(sl: string, q: string, y: string)
    requires sl == "" || sl == "/"
    requires q == "" || q[0] == '?' || q[0] == '#'
    requires y <= sl + q
    requires forall k :: |y| <= k < |sl + q| ==> IsSpace((sl + q)[k])
    ensures |y| >= |sl| && y[..|sl|] == sl
    ensures q == "" ==> y == sl
    ensures q != "" ==> |y| > |sl| && y[|sl|] == q[0]
  {
    var x := sl + q;
    if sl == "/" {
      assert !IsSpace(x[0]);
    }
    if q != "" {
      assert x[|sl|] == q[0] && !IsSpace(x[|sl|]);
    }
  }

  /** Lower-casing keeps the facts `TrimmedSuffix` states. */
  lemma LoweredSuffix(sl: string, q: string, y: string)
    requires sl == "" || sl == "/"
    requires q == "" || q[0] == '?' || q[0] == '#'
    requires |y| >= |sl| && y[..|sl|] == sl
    requires q == "" ==> y == sl
    requires q != "" ==> |y| > |sl| && y[|sl|] == q[0]
    ensures |ToLower(y)| >= |sl| && ToLower(y)[..|sl|] == sl
    ensures q == "" ==> ToLower(y) == sl
    ensures q != "" ==> |ToLower(y)| > |sl| && ToLower(y)[|sl|] == q[0]
  {
    var ly := ToLower(y);
    ToLowerAt(y);
    if sl == "/" {
      assert ly[0] == LowerChar('/') == '/';
    }
    if q != "" {
      LowerCharKeeps(q[0]);
      assert ly[|sl|] == LowerChar(q[0]);
    }
  }

  /** The cleaned form of a base URL with a suffix `sl + q` appended is the
      lower-cased base followed by the lower-cased part of the suffix that
      trimming keeps. */
  lemma CleanedDecorated(b: string, sl: string, q: string) returns (y: string)
    requires b != "" && !IsSpace(b[0]) && !IsSpace(b[|b| - 1])
    requires sl == "" || sl == "/"
    requires q == "" || q[0] == '?' || q[0] == '#'
    ensures Cleaned(b + sl + q) == ToLower(b) + ToLower(y)
    ensures |y| >= |sl| && y[..|sl|] == sl
    ensures q == "" ==> y == sl
    ensures q != "" ==> |y| > |sl| && y[|sl|] == q[0]
  {
    var x := sl + q;
    assert b + sl + q == b + x;
    y := TrimKeepsBase(b, x);
    TrimmedSuffix(sl, q, y);
    ToLowerConcat(b, y);
  }

  /** A one-line base with a one-line suffix is on one line. */
  lemma DecoratedOneLine(b: string, sl: string, q: string)
    requires NoLineTerminator(b) && NoLineTerminator(q)
    requires sl == "" || sl == "/"
    ensures NoLineTerminator(b + sl + q)
  {
    var u := b + sl + q;
    forall k | 0 <= k < |u| ensures !IsLineTerminator(u[k]) {
      if k < |b| { assert u[k] == b[k]; }
      else if k < |b| + |sl| { assert u[k] == '/'; }
      else { assert u[k] == q[k - |b| - |sl|]; }
    }
  }

  /** In `lb + ly`, where `ly` starts with `sl` and then, if anything, a `?`
      or `#`, the part before that `?` or `#` is `lb + sl`. */
  lemma CutPoint(lb: string, sl: string, ly: string, q: string)
    requires '?' !in lb && '#' !in lb
    requires sl == "" || sl == "/"
    requires q == "" || q[0] == '?' || q[0] == '#'
    requires |ly| >= |sl| && ly[..|sl|] == sl
    requires q == "" ==> ly == sl
    requires q != "" ==> |ly| > |sl| && ly[|sl|] == q[0]
    ensures |lb| + |sl| <= |lb + ly|
    ensures (lb + ly)[..|lb| + |sl|] == lb + sl
    ensures '?' !in lb + sl && '#' !in lb + sl
    ensures |lb| + |sl| == |lb + ly| || (lb + ly)[|lb| + |sl|] in {'?', '#'}
  {
    var t := lb + ly;
    var e := |lb| + |sl|;
    assert t[..e] == lb + ly[..|sl|];
    if q != "" {
      assert t[e] == ly[|sl|];
    }
  }

  /** The cleaned form of a base URL with a suffix `sl + q` appended holds
      the lower-cased base and `sl`, followed by nothing or by a `?` or `#`. */
  lemma CleanedCut(b: string, sl: string, q: string) returns (t: string)
    requires b != "" && !IsSpace(b[0]) && !IsSpace(b[|b| - 1])
    requires '?' !in b && '#' !in b
    requires sl == "" || sl == "/"
    requires q == "" || q[0] == '?' || q[0] == '#'
    ensures t == Cleaned(b + sl + q)
    ensures |b| + |sl| <= |t| && t[..|b| + |sl|] == ToLower(b) + sl
    ensures '?' !in t[..|b| + |sl|] && '#' !in t[..|b| + |sl|]
    ensures |b| + |sl| == |t| || t[|b| + |sl|] in {'?', '#'}
  {
    var y := CleanedDecorated(b, sl, q);
    var lb, ly := ToLower(b), ToLower(y);
    LoweredSuffix(sl, q, y);
    LowerBase(b);
    CutPoint(lb, sl, ly, q);
    t := lb + ly;
    assert |lb| == |b|;
  }

  /** The stem of a base URL with a suffix `sl + q` appended is the
      lower-cased base followed by `sl`. */
  lemma StemDecorated(b: string, sl: string, q: string)
    requires b != "" && !IsSpace(b[0]) && !IsSpace(b[|b| - 1])
    requires '?' !in b && '#' !in b && NoLineTerminator(b)
    requires sl == "" || sl == "/"
    requires q == "" || q[0] == '?' || q[0] == '#'
    requires NoLineTerminator(q)
    ensures Stem(b + sl + q) == ToLower(b) + sl
  {
    DecoratedOneLine(b, sl, q);
    var t := CleanedCut(b, sl, q);
    StemUpTo(b + sl + q, t, |b| + |sl|);
  }

  /** Dropping the trailing slash of `lb + sl`, where `lb` does not end in
      `/`, gives `lb`. */
  lemma DropAddedSlash(lb: string, sl: string)
    requires lb != [] && lb[|lb| - 1] != '/'
    requires sl == "" || sl == "/"
    ensures DropTrailingSlash(lb + sl) == lb
  {
    if sl == "/" {
      assert (lb + sl)[..|lb|] == lb;
    }
  }

  /** Lower-casing keeps a last character that is not `/`. */
  lemma LowerLastNotSlash(b: string)
    requires b != "" && b[|b| - 1] != '/'
    ensures ToLower(b) != "" && ToLower(b)[|b| - 1] != '/'
  {
    ToLowerAt(b);
    LowerCharKeeps(b[|b| - 1]);
  }

  /** The key of a base URL not ending in `/`, with a suffix `sl + q`
      appended, is the lower-cased base. */
  lemma KeyDecorated(b: string, sl: string, q: string)
    requires b != "" && !IsSpace(b[0]) && !IsSpace(b[|b| - 1]) && b[|b| - 1] != '/'
    requires '?' !in b && '#' !in b && NoLineTerminator(b)
    requires sl == "" || sl == "/"
    requires q == "" || q[0] == '?' || q[0] == '#'
    requires NoLineTerminator(q)
    ensures Key(b + sl + q) == ToLower(b)
  {
    StemDecorated(b, sl, q);
    LowerLastNotSlash(b);
    DropAddedSlash(ToLower(b), sl);
  }

  /** The dedup key ignores case, a trailing slash, the query string and
      the fragment: a base URL `b` with `/`, `?query` or `#fragment` (or
      `/?query`, `/#fragment`) appended gets the key of `b`, which is `b`
      lower-cased. */
  lemma DedupKey(b: string, slash: bool, q: string)
    requires b != "" && !IsSpace(b[0]) && !IsSpace(b[|b| - 1]) && b[|b| - 1] != '/'
    requires '?' !in b && '#' !in b && NoLineTerminator(b)
    requires q == "" || q[0] == '?' || q[0] == '#'
    requires NoLineTerminator(q)
    ensures Normalize(Some(b + (if slash then "/" else "") + q)) == ToLower(b)
  {
    KeyDecorated(b, if slash then "/" else "", q);
  }

  /** The profile URL of the example below ends in neither a space nor a
      slash and holds no `?` or `#`. */
  lemma ProfileBase(b: string)
    requires b == "HTTPS://LinkedIn.com/in/Jane-Doe"
    ensures b != "" && !IsSpace(b[0]) && !IsSpace(b[|b| - 1]) && b[|b| - 1] != '/'
    ensures '?' !in b && '#' !in b
  {
  }

  /** The profile URL of the example below is one line. */
  lemma ProfileOneLine(b: string)
    requires b == "HTTPS://LinkedIn.com/in/Jane-Doe"
    ensures NoLineTerminator(b)
  {
  }

  /** Lower-casing agrees with a target string position by position. */
  lemma LowerPointwise(s: string, t: string)
    requires |s| == |t| && forall k :: 0 <= k < |s| ==> LowerChar(s[k]) == t[k]
    ensures ToLower(s) == t
  {
    ToLowerAt(s);
  }

  /** Lower-casing the profile URL of the example below. */
  lemma ProfileLower(b: string)
    requires b == "HTTPS://LinkedIn.com/in/Jane-Doe"
    ensures ToLower(b) == "https://linkedin.com/in/jane-doe"
  {
    LowerPointwise(b, "https://linkedin.com/in/jane-doe");
  }

  /** The profile URL with a trailing slash, a query string and a fragment
      gets the lower-cased bare profile URL as its key. */
  lemma ProfileUrlKey(b: string, u: string)
    requires b == "HTTPS://LinkedIn.com/in/Jane-Doe" && u == b + "/?x=1#frag"
    ensures Normalize(Some(u)) == "https://linkedin.com/in/jane-doe"
  {
    ProfileLower(b);
    ProfileBase(b);
    ProfileOneLine(b);
    assert u == b + "/" + "?x=1#frag";
    DedupKey(b, true, "?x=1#frag");
  }
}
