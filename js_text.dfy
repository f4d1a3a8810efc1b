/** The JavaScript string primitives the core relies on: `trim`, the
    regular-expression class `\s`, line terminators (which `.` does not match),
    ASCII `toLowerCase`, `Array.prototype.join`, `String.prototype.includes`
    and `replace(/\s+/g, " ")`. */
module JsText {

  /** WhiteSpace and LineTerminator code points of ECMAScript: the set that
      `String.prototype.trim` removes and that `\s` matches. */
  predicate IsSpace(c: char) {
    || c == '\t' || c == '\n' || c == '\U{000B}' || c == '\U{000C}' || c == '\r'
    || c == ' ' || c == '\U{00A0}' || c == '\U{1680}'
    || ('\U{2000}' <= c <= '\U{200A}')
    || c == '\U{2028}' || c == '\U{2029}' || c == '\U{202F}' || c == '\U{205F}'
    || c == '\U{3000}' || c == '\U{FEFF}'
  }

  /** The code points that end a line for a regular expression: `.` matches
      every character except these. */
  predicate IsLineTerminator(c: char) {
    c == '\n' || c == '\r' || c == '\U{2028}' || c == '\U{2029}'
  }

  predicate NoLineTerminator(s: string) {
    forall k :: 0 <= k < |s| ==> !IsLineTerminator(s[k])
  }

  /** Drops leading white space. */
  function TrimStart(s: string): (r: string)
    ensures |r| <= |s|
  {
    if s != [] && IsSpace(s[0]) then TrimStart(s[1..]) else s
  }

  /** `TrimStart(s)` is the longest suffix of `s` that does not start with
      white space. */
  lemma {:induction false} TrimStartSpec(s: string)
    ensures TrimStart(s) == s[|s| - |TrimStart(s)|..]
    ensures forall k :: 0 <= k < |s| - |TrimStart(s)| ==> IsSpace(s[k])
    ensures TrimStart(s) == [] || !IsSpace(TrimStart(s)[0])
    decreases |s|
  {
    if s != [] && IsSpace(s[0]) {
      TrimStartSpec(s[1..]);
      var r := TrimStart(s[1..]);
      assert s[1..][|s| - 1 - |r|..] == s[|s| - |r|..];
      forall k | 1 <= k < |s| - |r| ensures IsSpace(s[k]) {
        assert s[k] == s[1..][k - 1];
      }
    }
  }

  /** Drops trailing white space. */
  function TrimEnd(s: string): (r: string)
    ensures |r| <= |s|
  {
    if s != [] && IsSpace(s[|s| - 1]) then TrimEnd(s[..|s| - 1]) else s
  }

  /** `TrimEnd(s)` is the longest prefix of `s` that does not end with white
      space. */
  lemma {:induction false} TrimEndSpec(s: string)
    ensures TrimEnd(s) == s[..|TrimEnd(s)|]
    ensures forall k :: |TrimEnd(s)| <= k < |s| ==> IsSpace(s[k])
    ensures TrimEnd(s) == [] || !IsSpace(TrimEnd(s)[|TrimEnd(s)| - 1])
    decreases |s|
  {
    if s != [] && IsSpace(s[|s| - 1]) {
      var p := s[..|s| - 1];
      TrimEndSpec(p);
      var r := TrimEnd(p);
      assert p[..|r|] == s[..|r|];
      forall k | |r| <= k < |s| - 1 ensures IsSpace(s[k]) {
        assert s[k] == p[k];
      }
    }
  }

  /** `s.trim()` */
  function Trim(s: string): (r: string)
  {
    TrimEnd(TrimStart(s))
  }

  /** `Trim(s)` is the slice of `s` that remains once the white space at both
      ends is gone, and nothing else. */
  lemma TrimIsSlice(s: string) returns (i: nat, j: nat)
    ensures i <= j <= |s| && Trim(s) == s[i..j]
    ensures forall k :: 0 <= k < i ==> IsSpace(s[k])
    ensures forall k :: j <= k < |s| ==> IsSpace(s[k])
    ensures i < j ==> !IsSpace(s[i]) && !IsSpace(s[j - 1])
  {
    var t := TrimStart(s);
    TrimStartSpec(s);
    var r := TrimEnd(t);
    TrimEndSpec(t);
    i := |s| - |t|;
    j := i + |r|;
    assert t == s[i..];
    assert r == t[..|r|];
    assert r == s[i..j];
    forall k | j <= k < |s| ensures IsSpace(s[k]) {
      assert s[k] == t[k - i];
    }
    if i < j {
      assert s[i] == t[0] && s[j - 1] == r[|r| - 1];
    }
  }

  /** `toLowerCase` on one character, restricted to ASCII letters. */
  function LowerChar(c: char): char {
    if 'A' <= c <= 'Z' then (c as int + 32) as char else c
  }

  /** `s.toLowerCase()` for ASCII: every upper-case letter is replaced by its
      lower-case letter, position by position, and nothing else changes. */
  function ToLower(s: string): (r: string)
    ensures |r| == |s|
  {
    if s == [] then [] else [LowerChar(s[0])] + ToLower(s[1..])
  }

  /** Lower-casing works position by position and leaves no upper-case
      letter. */
  lemma {:induction false} ToLowerAt(s: string)
    ensures forall k :: 0 <= k < |s| ==> ToLower(s)[k] == LowerChar(s[k])
    ensures forall k :: 0 <= k < |s| ==> !('A' <= ToLower(s)[k] <= 'Z')
    decreases |s|
  {
    if s != [] {
      ToLowerAt(s[1..]);
      forall k | 1 <= k < |s| ensures ToLower(s)[k] == LowerChar(s[k]) {
        assert ToLower(s)[k] == ToLower(s[1..])[k - 1];
      }
    }
  }

  /** Lower-casing neither creates nor removes white space. */
  lemma LowerCharSpace(c: char)
    ensures IsSpace(LowerChar(c)) <==> IsSpace(c)
  {
  }

  /** Lower-casing works character by character, so it distributes over
      concatenation. */
  lemma ToLowerConcat(a: string, b: string)
    ensures ToLower(a + b) == ToLower(a) + ToLower(b)
  {
    var l, r := ToLower(a + b), ToLower(a) + ToLower(b);
    ToLowerAt(a + b);
    ToLowerAt(a);
    ToLowerAt(b);
    forall k | 0 <= k < |a + b| ensures l[k] == r[k] {
      if k < |a| {
        assert (a + b)[k] == a[k];
      } else {
        assert (a + b)[k] == b[k - |a|];
      }
    }
  }

  /** `parts.join(sep)` */
  function Join(parts: seq<string>, sep: string): string
  {
    if |parts| == 0 then ""
    else if |parts| == 1 then parts[0]
    else parts[0] + sep + Join(parts[1..], sep)
  }

  /** The joined text starts with the first part. */
  lemma JoinHead(parts: seq<string>, sep: string)
    requires parts != []
    ensures parts[0] <= Join(parts, sep)
  {
  }

  /** Joining a list of at least two strings puts the separator after the
      first. */
  lemma JoinCons(x: string, rs: seq<string>, sep: string)
    requires rs != []
    ensures Join([x] + rs, sep) == x + sep + Join(rs, sep)
  {
    assert ([x] + rs)[1..] == rs;
  }

  /** `s.replace(/c/g, w)`: every occurrence of `c` is replaced by `w`. */
  function ReplaceAll(s: string, c: char, w: string): string {
    if s == [] then []
    else (if s[0] == c then w else [s[0]]) + ReplaceAll(s[1..], c, w)
  }

  /** Replacing in a concatenation replaces in each part. */
  lemma {:induction false} ReplaceAllConcat(a: string, b: string, c: char, w: string)
    ensures ReplaceAll(a + b, c, w) == ReplaceAll(a, c, w) + ReplaceAll(b, c, w)
    decreases |a|
  {
    if a != [] {
      assert (a + b)[0] == a[0] && (a + b)[1..] == a[1..] + b;
      ReplaceAllConcat(a[1..], b, c, w);
    } else {
      assert a + b == b;
    }
  }

  /** A string without `c` is left as it is. */
  lemma {:induction false} ReplaceAllAbsent(s: string, c: char, w: string)
    requires c !in s
    ensures ReplaceAll(s, c, w) == s
    decreases |s|
  {
    if s != [] {
      assert c !in s[1..];
      ReplaceAllAbsent(s[1..], c, w);
      assert [s[0]] + s[1..] == s;
    }
  }

  /** `s.includes(w)`: `w` occurs in `s` starting at some position. */
  predicate Includes(s: string, w: string)
    decreases |s|
  {
    w <= s || (s != [] && Includes(s[1..], w))
  }

  /** `Includes` holds exactly when `w` is a prefix of some suffix of `s`. */
  lemma {:induction false} IncludesIff(s: string, w: string)
    ensures Includes(s, w) <==> exists k :: 0 <= k <= |s| && w <= s[k..]
    decreases |s|
  {
    if w <= s {
      assert s[0..] == s;
    } else if s == [] {
      forall k | 0 <= k <= |s| ensures !(w <= s[k..]) {
        assert s[k..] == s;
      }
    } else {
      IncludesIff(s[1..], w);
      if Includes(s[1..], w) {
        var k :| 0 <= k <= |s[1..]| && w <= s[1..][k..];
        assert s[1..][k..] == s[k + 1..];
      } else {
        forall k | 0 <= k <= |s| ensures !(w <= s[k..]) {
          if k > 0 {
            assert s[1..][k - 1..] == s[k..];
          } else {
            assert s[k..] == s;
          }
        }
      }
    }
  }

  /** A string is single-spaced when its only white space is the plain space
      and no two white-space characters are adjacent. */
  predicate SingleSpaced(s: string) {
    forall k :: 0 <= k < |s| && IsSpace(s[k]) ==>
      s[k] == ' ' && (k + 1 < |s| ==> !IsSpace(s[k + 1]))
  }

  /** The characters of `s` that are not white space, in order. */
  function NonSpace(s: string): string
  {
    if s == [] then []
    else if IsSpace(s[0]) then NonSpace(s[1..])
    else [s[0]] + NonSpace(s[1..])
  }

  /** `s.replace(/\s+/g, " ")`: every maximal run of white space becomes one
      plain space. The result is no longer than `s`, is empty only when `s`
      is, and starts with white space exactly when `s` does; `CollapseSpec`,
      `CollapseLast` and `CollapseRun` state the rest. */
  function CollapseSpaces(s: string): (r: string)
    ensures |r| <= |s|
    ensures r == [] <==> s == []
    ensures r != [] ==> (IsSpace(r[0]) <==> IsSpace(s[0]))
    decreases |s|
  {
    if s == [] then []
    else if IsSpace(s[0]) then " " + CollapseSpaces(TrimStart(s[1..]))
    else [s[0]] + CollapseSpaces(s[1..])
  }

  /** `NonSpace` of a string with one more character in front. */
  lemma NonSpaceCons(c: char, x: string)
    ensures NonSpace([c] + x) == if IsSpace(c) then NonSpace(x) else [c] + NonSpace(x)
  {
    assert ([c] + x)[1..] == x;
  }

  /** The leading-space step of `CollapseSpec`. */
  lemma CollapseSpecSpace(s: string, rest: string)
    requires s != [] && IsSpace(s[0]) && rest == TrimStart(s[1..])
    requires SingleSpaced(CollapseSpaces(rest)) && NonSpace(CollapseSpaces(rest)) == NonSpace(rest)
    ensures SingleSpaced(CollapseSpaces(s)) && NonSpace(CollapseSpaces(s)) == NonSpace(s)
  {
    TrimStartNonSpace(s[1..]);
    NonSpaceCons(s[0], s[1..]);
    assert s == [s[0]] + s[1..];
    var cr := CollapseSpaces(rest);
    CollapseAtSpace(s);
    SingleSpacedConcat(" ", cr);
    NonSpaceCons(' ', cr);
  }

  /** The leading-character step of `CollapseSpec`. */
  lemma CollapseSpecChar(s: string)
    requires s != [] && !IsSpace(s[0])
    requires SingleSpaced(CollapseSpaces(s[1..])) && NonSpace(CollapseSpaces(s[1..])) == NonSpace(s[1..])
    ensures SingleSpaced(CollapseSpaces(s)) && NonSpace(CollapseSpaces(s)) == NonSpace(s)
  {
    NonSpaceCons(s[0], s[1..]);
    assert s == [s[0]] + s[1..];
    var cr := CollapseSpaces(s[1..]);
    CollapseAtChar(s);
    SingleSpacedConcat([s[0]], cr);
    NonSpaceCons(s[0], cr);
  }

  /** The collapsed text is single-spaced and keeps every non-space
      character of `s`, in order. */
  lemma {:induction false} CollapseSpec(s: string)
    ensures SingleSpaced(CollapseSpaces(s))
    ensures NonSpace(CollapseSpaces(s)) == NonSpace(s)
    decreases |s|
  {
    if s != [] {
      if IsSpace(s[0]) {
        var rest := TrimStart(s[1..]);
        CollapseSpec(rest);
        CollapseSpecSpace(s, rest);
      } else {
        CollapseSpec(s[1..]);
        CollapseSpecChar(s);
      }
    }
  }

  /** Leading white space followed by a non-space start is dropped whole. */
  lemma {:induction false} TrimStartSpaces(w: string, b: string)
    requires forall k :: 0 <= k < |w| ==> IsSpace(w[k])
    requires b == [] || !IsSpace(b[0])
    ensures TrimStart(w + b) == b
    decreases |w|
  {
    if w == [] {
      assert w + b == b;
    } else {
      assert (w + b)[1..] == w[1..] + b;
      TrimStartSpaces(w[1..], b);
    }
  }

  /** Trimming the start of `x + y` stops inside `x` when `x` ends in a
      non-space character. */
  lemma {:induction false} TrimStartKeeps(x: string, y: string)
    requires x != [] && !IsSpace(x[|x| - 1])
    ensures TrimStart(x + y) == TrimStart(x) + y
    decreases |x|
  {
    if IsSpace(x[0]) {
      assert (x + y)[1..] == x[1..] + y;
      TrimStartKeeps(x[1..], y);
    }
  }

  /** Trimming the start keeps the last character when it is not white
      space. */
  lemma {:induction false} TrimStartLast(x: string)
    requires x != [] && !IsSpace(x[|x| - 1])
    ensures TrimStart(x) != [] && TrimStart(x)[|TrimStart(x)| - 1] == x[|x| - 1]
    decreases |x|
  {
    if IsSpace(x[0]) {
      TrimStartLast(x[1..]);
    }
  }

  /** Trimming the start removes only white space, and leaves a string
      that does not start with it. */
  lemma {:induction false} TrimStartNonSpace(x: string)
    ensures NonSpace(TrimStart(x)) == NonSpace(x)
    ensures TrimStart(x) == [] || !IsSpace(TrimStart(x)[0])
    decreases |x|
  {
    if x != [] && IsSpace(x[0]) {
      TrimStartNonSpace(x[1..]);
    }
  }

  /** One step of `CollapseSpaces` at a white-space character. */
  lemma CollapseAtSpace(s: string)
    requires s != [] && IsSpace(s[0])
    ensures CollapseSpaces(s) == " " + CollapseSpaces(TrimStart(s[1..]))
  {
  }

  /** One step of `CollapseSpaces` at a non-space character. */
  lemma CollapseAtChar(s: string)
    requires s != [] && !IsSpace(s[0])
    ensures CollapseSpaces(s) == [s[0]] + CollapseSpaces(s[1..])
  {
  }

  /** The collapsed text ends in white space exactly when the input does. */
  lemma {:induction false} CollapseLast(s: string)
    ensures CollapseSpaces(s) != [] ==>
      (IsSpace(CollapseSpaces(s)[|CollapseSpaces(s)| - 1]) <==> IsSpace(s[|s| - 1]))
    decreases |s|
  {
    if s != [] {
      if IsSpace(s[0]) {
        var rest := TrimStart(s[1..]);
        TrimStartSpec(s[1..]);
        CollapseAtSpace(s);
        CollapseLast(rest);
        if rest != [] {
          assert rest[|rest| - 1] == s[|s| - 1];
        } else {
          assert |s| == 1 || IsSpace(s[1..][|s| - 2]);
        }
      } else {
        CollapseAtChar(s);
        CollapseLast(s[1..]);
        if s[1..] != [] {
          assert s[1..][|s| - 2] == s[|s| - 1];
        }
      }
    }
  }

  /** Splitting off the first character of a concatenation. */
  lemma HeadTail(c: char, x: string, y: string)
    ensures ([c] + x + y)[0] == c && ([c] + x + y)[1..] == x + y
    ensures ([c] + x)[0] == c && ([c] + x)[1..] == x
  {
    assert ([c] + x + y)[1..] == x + y;
    assert ([c] + x)[1..] == x;
  }

  /** Regrouping a prefix in front of a space-separated pair. */
  lemma Regroup3(p: string, x: string, y: string)
    ensures p + (x + " " + y) == (p + x) + " " + y
  {
  }

  /** The step of `CollapseRun` at a leading non-space character. */
  lemma CollapseRunChar(c: char, x: string, y: string, b: string)
    requires !IsSpace(c)
    requires CollapseSpaces(x + y) == CollapseSpaces(x) + " " + CollapseSpaces(b)
    ensures CollapseSpaces([c] + x + y) == CollapseSpaces([c] + x) + " " + CollapseSpaces(b)
  {
    HeadTail(c, x, y);
    CollapseAtChar([c] + x + y);
    CollapseAtChar([c] + x);
    Regroup3([c], CollapseSpaces(x), CollapseSpaces(b));
  }

  /** The step of `CollapseRun` at a leading white-space character. */
  lemma CollapseRunSpace(a: string, w: string, b: string, t: string)
    requires a != [] && IsSpace(a[0]) && t == TrimStart(a[1..])
    requires TrimStart((a + w + b)[1..]) == t + w + b
    requires CollapseSpaces(t + w + b) == CollapseSpaces(t) + " " + CollapseSpaces(b)
    ensures CollapseSpaces(a + w + b) == CollapseSpaces(a) + " " + CollapseSpaces(b)
  {
    CollapseAtSpace(a + w + b);
    CollapseAtSpace(a);
    Regroup3(" ", CollapseSpaces(t), CollapseSpaces(b));
  }

  /** Concatenation is associative. */
  lemma Assoc(x: string, y: string, z: string)
    ensures x + (y + z) == x + y + z
  {
  }

  /** Splitting `a + w + b` after the first character of `a`. */
  lemma SplitHead(a: string, w: string, b: string)
    requires a != []
    ensures a == [a[0]] + a[1..]
    ensures a + w + b == [a[0]] + a[1..] + (w + b)
    ensures a[1..] + w + b == a[1..] + (w + b)
    ensures (a + w + b)[1..] == a[1..] + (w + b)
  {
    assert a == [a[0]] + a[1..];
  }

  /** Splitting `w + b` after the first character of `w`. */
  lemma SplitRun(w: string, b: string)
    requires w != []
    ensures (w + b)[0] == w[0] && (w + b)[1..] == w[1..] + b
  {
    assert (w + b)[1..] == w[1..] + b;
  }

  /** A white-space run at the very start collapses to one space. */
  lemma CollapseRunFirst(w: string, b: string)
    requires w != [] && forall k :: 0 <= k < |w| ==> IsSpace(w[k])
    requires b == [] || !IsSpace(b[0])
    ensures CollapseSpaces(w + b) == " " + CollapseSpaces(b)
  {
    SplitRun(w, b);
    TrimStartSpaces(w[1..], b);
    CollapseAtSpace(w + b);
  }

  /** `CollapseRunChar` restated for `a` itself. */
  lemma CollapseRunHead(a: string, w: string, b: string)
    requires a != [] && !IsSpace(a[0])
    requires CollapseSpaces(a[1..] + w + b) == CollapseSpaces(a[1..]) + " " + CollapseSpaces(b)
    ensures CollapseSpaces(a + w + b) == CollapseSpaces(a) + " " + CollapseSpaces(b)
  {
    SplitHead(a, w, b);
    CollapseRunChar(a[0], a[1..], w + b, b);
  }

  /** Where `CollapseRun` continues after leading white space in `a`: the
      trimmed rest of `a` still ends in a non-space character, and trimming
      stops inside it. */
  lemma TrimInsideRun(a: string, w: string, b: string)
    requires a != [] && IsSpace(a[0]) && !IsSpace(a[|a| - 1])
    ensures var t := TrimStart(a[1..]);
      t != [] && !IsSpace(t[|t| - 1])
      && TrimStart((a + w + b)[1..]) == t + w + b
  {
    SplitHead(a, w, b);
    TrimStartLast(a[1..]);
    TrimStartKeeps(a[1..], w + b);
    Assoc(TrimStart(a[1..]), w, b);
  }

  /** A white-space run between two non-space characters becomes exactly one
      plain space: collapsing keeps word boundaries. */
  lemma {:induction false} CollapseRun(a: string, w: string, b: string)
    requires w != [] && forall k :: 0 <= k < |w| ==> IsSpace(w[k])
    requires a == [] || !IsSpace(a[|a| - 1])
    requires b == [] || !IsSpace(b[0])
    ensures CollapseSpaces(a + w + b) == CollapseSpaces(a) + " " + CollapseSpaces(b)
    decreases |a|
  {
    if a == [] {
      CollapseRunFirst(w, b);
      assert a + w + b == w + b;
    } else if !IsSpace(a[0]) {
      CollapseRun(a[1..], w, b);
      CollapseRunHead(a, w, b);
    } else {
      var t := TrimStart(a[1..]);
      TrimInsideRun(a, w, b);
      CollapseRun(t, w, b);
      CollapseRunSpace(a, w, b, t);
    }
  }

  /** Two words separated by a double space come out separated by one. */
  lemma CollapseDoubleSpace(x: char, y: char)
    requires !IsSpace(x) && !IsSpace(y)
    ensures CollapseSpaces([x, ' ', ' ', y]) == [x, ' ', y]
  {
    CollapseRun([x], "  ", [y]);
    CollapseAtChar([x]);
    CollapseAtChar([y]);
    assert [x] + "  " + [y] == [x, ' ', ' ', y];
  }

  /** `CollapseSpaces` leaves `s` unchanged exactly when `s` is already
      single-spaced; in particular it is idempotent. */
  lemma {:induction false} CollapseFixedIff(s: string)
    ensures CollapseSpaces(s) == s <==> SingleSpaced(s)
    decreases |s|
  {
    CollapseSpec(s);
    if s != [] && SingleSpaced(s) {
      assert SingleSpaced(s[1..]) by {
        forall k | 0 <= k < |s[1..]| && IsSpace(s[1..][k])
          ensures s[1..][k] == ' ' && (k + 1 < |s[1..]| ==> !IsSpace(s[1..][k + 1]))
        {
          assert s[1..][k] == s[k + 1];
        }
      }
      CollapseFixedIff(s[1..]);
      if IsSpace(s[0]) {
        assert s[1..] == [] || !IsSpace(s[1]);
        assert TrimStart(s[1..]) == s[1..];
      }
    }
  }

  /** Single spacing is a property of each side of a concatenation, provided
      the join itself does not put two white-space characters side by side. */
  lemma SingleSpacedConcat(a: string, b: string)
    requires a == [] || b == [] || !IsSpace(a[|a| - 1]) || !IsSpace(b[0])
    ensures SingleSpaced(a + b) <==> SingleSpaced(a) && SingleSpaced(b)
  {
    var ab := a + b;
    if SingleSpaced(ab) {
      forall k | 0 <= k < |a| && IsSpace(a[k])
        ensures a[k] == ' ' && (k + 1 < |a| ==> !IsSpace(a[k + 1]))
      {
        assert ab[k] == a[k];
        if k + 1 < |a| { assert ab[k + 1] == a[k + 1]; }
      }
      forall k | 0 <= k < |b| && IsSpace(b[k])
        ensures b[k] == ' ' && (k + 1 < |b| ==> !IsSpace(b[k + 1]))
      {
        assert ab[|a| + k] == b[k];
        if k + 1 < |b| { assert ab[|a| + k + 1] == b[k + 1]; }
      }
    }
    if SingleSpaced(a) && SingleSpaced(b) {
      forall k | 0 <= k < |ab| && IsSpace(ab[k])
        ensures ab[k] == ' ' && (k + 1 < |ab| ==> !IsSpace(ab[k + 1]))
      {
        if k < |a| {
          assert ab[k] == a[k];
          if k + 1 < |a| {
            assert ab[k + 1] == a[k + 1];
          } else if k + 1 < |ab| {
            assert ab[k + 1] == b[0];
          }
        } else {
          assert ab[k] == b[k - |a|];
          if k + 1 < |ab| { assert ab[k + 1] == b[k - |a| + 1]; }
        }
      }
    }
  }

  /** `SingleSpacedConcat` for three pieces. */
  lemma SingleSpacedConcat3(a: string, b: string, c: string)
    requires b != []
    requires a == [] || !IsSpace(a[|a| - 1]) || !IsSpace(b[0])
    requires c == [] || !IsSpace(b[|b| - 1]) || !IsSpace(c[0])
    ensures SingleSpaced(a + b + c) <==> SingleSpaced(a) && SingleSpaced(b) && SingleSpaced(c)
  {
    SingleSpacedConcat(a, b);
    assert (a + b)[|a + b| - 1] == b[|b| - 1];
    SingleSpacedConcat(a + b, c);
  }
}
