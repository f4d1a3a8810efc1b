/** `buildQueriesFromSpec`: compiles a filter spec into the two labelled
    X-ray search queries (a `site:`-restricted boolean search string). */
module QueryCompiler {
  import opened Wrappers
  import opened JsText
  import opened SearchSpecs

  /** The site restriction every query starts with. */
  const SiteClause: string := "site:linkedin.com/in"

  /** `"${w}"`: an exact-phrase term. */
  function Quote(w: string): string {
    "\"" + w + "\""
  }

  /** `ws.map((w) => `"${w}"`)` */
  function QuoteAll(ws: seq<string>): seq<string> {
    seq(|ws|, i requires 0 <= i < |ws| => Quote(ws[i]))
  }

  /** The text of an OR-group: the quoted phrases joined by ` OR `, in
      parentheses, with a leading `-` for the negated exclusion group. */
  function GroupText(negated: bool, ws: seq<string>): string {
    (if negated then "-(" else "(") + Join(QuoteAll(ws), " OR ") + ")"
  }

  /** `ws.length ? `(${...})` : null` (and `-(...)` for exclusions). */
  function Group(negated: bool, ws: seq<string>): Option<string> {
    if |ws| == 0 then None else Some(GroupText(negated, ws))
  }

  /** `spec.location ? `"${spec.location}"` : null` */
  function LocationPart(location: string): Option<string> {
    if location == "" then None else Some(Quote(location))
  }

  /** The candidate parts, in the order the query lists them. */
  function Parts(spec: SearchSpec): seq<Option<string>> {
    [ Some(SiteClause),
      Group(false, spec.jobTitles),
      Group(false, spec.companies),
      Group(false, spec.keywords),
      Group(true, spec.exclusions),
      LocationPart(spec.location) ]
  }

  /** `parts.filter(Boolean)`: drops `null` and the empty string, keeping the
      order of what remains. */
  function Truthy(parts: seq<Option<string>>): (r: seq<string>)
    ensures |r| <= |parts|
  {
    if parts == [] then []
    else
      (if parts[0].Some? && parts[0].value != "" then [parts[0].value] else [])
        + Truthy(parts[1..])
  }

  /** The primary query text, `parts.join(" ")`. The site restriction is
      always its first part, so the text is never empty. */
  function PrimaryText(spec: SearchSpec): (r: string)
    ensures SiteClause <= r
    ensures r != ""
  {
    JoinHead(Truthy(Parts(spec)), " ");
    Join(Truthy(Parts(spec)), " ")
  }

  /** Replacing a character by itself changes nothing; this is what the
      variant's `.replace(/\"/g, "\"")` does. */
  lemma {:induction false} ReplaceByItself(s: string, c: char)
    ensures ReplaceAll(s, c, [c]) == s
  {
    if s != [] {
      ReplaceByItself(s[1..], c);
      assert [s[0]] + s[1..] == s;
    }
  }

  /** The compiled queries, primary first. */
  function BuildQueries(spec: SearchSpec): (qs: seq<Query>)
    ensures |qs| == 2
    ensures qs[0].queryType == "xray_linkedin" && qs[0].queryLabel == "Primary"
    ensures qs[1].queryType == "xray_linkedin_variant" && qs[1].queryLabel == "Title variation"
    ensures qs[0].queryText == PrimaryText(spec)
    ensures qs[1].queryText == CollapseSpaces(qs[0].queryText)
  {
    var main := PrimaryText(spec);
    ReplaceByItself(main, '"');
    [ Query("xray_linkedin", "Primary", main),
      Query("xray_linkedin_variant", "Title variation",
            CollapseSpaces(ReplaceAll(main, '"', "\""))) ]
  }

  // ---------------------------------------------------------------------
  // The structure of the primary query, and a reader that recovers it.

  /** One clause after the site restriction: an OR-group of phrases, a
      negated OR-group, or a single quoted phrase (the location). */
  datatype Clause = AnyOf(phrases: seq<string>) | NoneOf(phrases: seq<string>) | Phrase(text: string)

  /** The text a clause is written as. */
  function Render(c: Clause): string {
    match c
    case AnyOf(ws) => GroupText(false, ws)
    case NoneOf(ws) => GroupText(true, ws)
    case Phrase(w) => Quote(w)
  }

  /** The clause of an OR-group, if the group is not empty. */
  function GroupClause(negated: bool, ws: seq<string>): seq<Clause> {
    if |ws| == 0 then [] else if negated then [NoneOf(ws)] else [AnyOf(ws)]
  }

  /** The clauses a spec contributes after the site restriction: job
      titles, companies, keywords, exclusions and location, each only when
      present. */
  function Clauses(spec: SearchSpec): seq<Clause> {
    GroupClause(false, spec.jobTitles)
      + GroupClause(false, spec.companies)
      + GroupClause(false, spec.keywords)
      + GroupClause(true, spec.exclusions)
      + (if spec.location == "" then [] else [Phrase(spec.location)])
  }

  /** Each clause preceded by one space. */
  function Spaced(cs: seq<Clause>): string {
    if cs == [] then "" else " " + Render(cs[0]) + Spaced(cs[1..])
  }

  /** Splits `s` at its first `"`: the text before it and the rest from the
      `"` on. */
  function TakeToQuote(s: string): (r: (string, string))
    ensures |r.1| <= |s|
  {
    if s == [] || s[0] == '"' then ([], s)
    else
      var (w, t) := TakeToQuote(s[1..]);
      ([s[0]] + w, t)
  }

  /** Reads a quoted phrase at the start of `s`; returns it and what
      follows. */
  function ReadPhrase(s: string): (r: Option<(string, string)>)
    ensures r.Some? ==> |r.value.1| < |s|
  {
    if s == [] || s[0] != '"' then None
    else
      var (w, t) := TakeToQuote(s[1..]);
      if t == [] then None else Some((w, t[1..]))
  }

  /** Reads `"a" OR "b" OR ... "z")` at the start of `s`. */
  function ReadAlternatives(s: string): (r: Option<(seq<string>, string)>)
    ensures r.Some? ==> |r.value.1| < |s|
    decreases |s|
  {
    match ReadPhrase(s)
    case None => None
    case Some((w, t)) =>
      if " OR " <= t then
        match ReadAlternatives(t[4..])
        case None => None
        case Some((ws, u)) => Some(([w] + ws, u))
      else if ")" <= t then Some(([w], t[1..]))
      else None
  }

  /** Reads one clause at the start of `s`. */
  function ReadClause(s: string): (r: Option<(Clause, string)>)
    ensures r.Some? ==> |r.value.1| < |s|
  {
    if "-(" <= s then
      match ReadAlternatives(s[2..])
      case None => None
      case Some((ws, t)) => Some((NoneOf(ws), t))
    else if "(" <= s then
      match ReadAlternatives(s[1..])
      case None => None
      case Some((ws, t)) => Some((AnyOf(ws), t))
    else
      match ReadPhrase(s)
      case None => None
      case Some((w, t)) => Some((Phrase(w), t))
  }

  /** Reads a sequence of clauses, each preceded by one space, that makes up
      all of `s`. */
  function ReadClauses(s: string): Option<seq<Clause>>
    decreases |s|
  {
    if s == [] then Some([])
    else if s[0] != ' ' then None
    else
      match ReadClause(s[1..])
      case None => None
      case Some((c, t)) =>
        match ReadClauses(t)
        case None => None
        case Some(cs) => Some([c] + cs)
  }

  /** Reads a primary query text back into its clauses. */
  function Decode(text: string): Option<seq<Clause>> {
    if SiteClause <= text then ReadClauses(text[|SiteClause|..]) else None
  }

  /** No phrase in `ws` holds a double quote. */
  predicate QuoteFree(ws: seq<string>) {
    forall i :: 0 <= i < |ws| ==> '"' !in ws[i]
  }

  /** The phrases a clause quotes, in order. */
  function Strings(c: Clause): seq<string> {
    match c
    case AnyOf(ws) => ws
    case NoneOf(ws) => ws
    case Phrase(w) => [w]
  }

  /** The phrases of a sequence of clauses, in order. */
  function Phrases(cs: seq<Clause>): seq<string> {
    if cs == [] then [] else Strings(cs[0]) + Phrases(cs[1..])
  }

  /** An OR-group the compiler can emit has at least one phrase. */
  predicate WellFormed(c: Clause) {
    match c
    case AnyOf(ws) => ws != []
    case NoneOf(ws) => ws != []
    case Phrase(_) => true
  }

  /** A clause the reader can recover: well formed, and no phrase holds a
      double quote. */
  predicate Readable(c: Clause) {
    WellFormed(c) && QuoteFree(Strings(c))
  }

  lemma {:induction false} TakeToQuoteOf(w: string, t: string)
    requires '"' !in w
    requires t == [] || t[0] == '"'
    ensures TakeToQuote(w + t) == (w, t)
  {
    if w != [] {
      assert (w + t)[0] == w[0] && w[0] != '"';
      assert (w + t)[1..] == w[1..] + t;
      assert '"' !in w[1..];
      TakeToQuoteOf(w[1..], t);
      assert [w[0]] + w[1..] == w;
    } else {
      assert w + t == t;
    }
  }

  /** A quoted phrase without inner quotes is read back. */
  lemma ReadPhraseOf(w: string, t: string)
    requires '"' !in w
    ensures ReadPhrase(Quote(w) + t) == Some((w, t))
  {
    var s := Quote(w) + t;
    assert s[1..] == w + ("\"" + t);
    TakeToQuoteOf(w, "\"" + t);
  }

  /** An OR-group body with its closing parenthesis is read back. */
  lemma {:induction false} ReadAlternativesOf(ws: seq<string>, t: string)
    requires ws != [] && QuoteFree(ws)
    ensures ReadAlternatives(Join(QuoteAll(ws), " OR ") + ")" + t) == Some((ws, t))
    decreases |ws|
  {
    var qs := QuoteAll(ws);
    if |ws| == 1 {
      assert Join(qs, " OR ") == Quote(ws[0]);
      assert Join(qs, " OR ") + ")" + t == Quote(ws[0]) + (")" + t);
      ReadPhraseOf(ws[0], ")" + t);
      assert (")" + t)[0] == ')' && " OR "[0] == ' ';
      assert !(" OR " <= ")" + t);
      assert (")" + t)[..1] == ")";
      assert (")" + t)[1..] == t;
      assert [ws[0]] == ws;
    } else {
      var rest := Join(QuoteAll(ws[1..]), " OR ");
      assert qs[1..] == QuoteAll(ws[1..]);
      assert Join(qs, " OR ") + ")" + t == Quote(ws[0]) + (" OR " + (rest + ")" + t));
      ReadPhraseOf(ws[0], " OR " + (rest + ")" + t));
      assert (" OR " + (rest + ")" + t))[4..] == rest + ")" + t;
      assert QuoteFree(ws[1..]) by {
        forall i | 0 <= i < |ws[1..]| ensures '"' !in ws[1..][i] {
          assert ws[1..][i] == ws[i + 1];
        }
      }
      ReadAlternativesOf(ws[1..], t);
      assert [ws[0]] + ws[1..] == ws;
    }
  }

  /** A readable clause is read back. */
  lemma ReadClauseOf(c: Clause, t: string)
    requires Readable(c)
    ensures ReadClause(Render(c) + t) == Some((c, t))
  {
    match c
    case AnyOf(ws) =>
      var body := Join(QuoteAll(ws), " OR ") + ")" + t;
      assert Render(c) + t == "(" + body;
      assert ("(" + body)[1..] == body;
      ReadAlternativesOf(ws, t);
    case NoneOf(ws) =>
      var body := Join(QuoteAll(ws), " OR ") + ")" + t;
      assert Render(c) + t == "-(" + body;
      assert ("-(" + body)[2..] == body;
      ReadAlternativesOf(ws, t);
    case Phrase(w) =>
      assert [w][0] == w;
      ReadPhraseOf(w, t);
  }

  /** The spaced text of a non-empty list of clauses: a space, the first
      clause's text, then the rest. */
  lemma SpacedCons(cs: seq<Clause>)
    requires cs != []
    ensures Spaced(cs) == " " + (Render(cs[0]) + Spaced(cs[1..]))
  {
  }

  /** The clauses after the first of a readable list are readable. */
  lemma ReadableTail(cs: seq<Clause>)
    requires cs != [] && forall i :: 0 <= i < |cs| ==> Readable(cs[i])
    ensures Readable(cs[0])
    ensures forall i :: 0 <= i < |cs[1..]| ==> Readable(cs[1..][i])
  {
    forall i | 0 <= i < |cs[1..]| ensures Readable(cs[1..][i]) {
      assert cs[1..][i] == cs[i + 1];
    }
  }

  /** A sequence of readable clauses, each after one space, is read back. */
  lemma {:induction false} ReadClausesOf(cs: seq<Clause>)
    requires forall i :: 0 <= i < |cs| ==> Readable(cs[i])
    ensures ReadClauses(Spaced(cs)) == Some(cs)
    decreases |cs|
  {
    if cs != [] {
      var c, tail := cs[0], Spaced(cs[1..]);
      ReadableTail(cs);
      ReadClausesOf(cs[1..]);
      ReadClauseOf(c, tail);
      ReadClausesStep(Render(c) + tail, c, tail, cs[1..]);
      SpacedCons(cs);
      assert [c] + cs[1..] == cs;
    }
  }

  /** One step of the clause reader: a space, a clause, and the rest. */
  lemma ReadClausesStep(s: string, c: Clause, t: string, cs: seq<Clause>)
    requires ReadClause(s) == Some((c, t)) && ReadClauses(t) == Some(cs)
    ensures ReadClauses(" " + s) == Some([c] + cs)
  {
    assert (" " + s)[1..] == s;
  }

  // ---------------------------------------------------------------------
  // The primary text is the site restriction followed by the clauses.

  /** The text of each clause, in order. */
  function Renders(cs: seq<Clause>): seq<string> {
    seq(|cs|, i requires 0 <= i < |cs| => Render(cs[i]))
  }

  lemma {:induction false} TruthyConcat(a: seq<Option<string>>, b: seq<Option<string>>)
    ensures Truthy(a + b) == Truthy(a) + Truthy(b)
    decreases |a|
  {
    if a != [] {
      assert (a + b)[1..] == a[1..] + b;
      TruthyConcat(a[1..], b);
    } else {
      assert a + b == b;
    }
  }

  /** `filter(Boolean)` keeps exactly the groups that are present. */
  lemma TruthyGroup(negated: bool, ws: seq<string>)
    ensures Truthy([Group(negated, ws)]) == Renders(GroupClause(negated, ws))
  {
    if ws != [] {
      assert GroupText(negated, ws)[0] in {'(', '-'};
    }
  }

  lemma TruthyLocation(location: string)
    ensures Truthy([LocationPart(location)])
      == Renders(if location == "" then [] else [Phrase(location)])
  {
  }

  lemma RendersConcat(a: seq<Clause>, b: seq<Clause>)
    ensures Renders(a + b) == Renders(a) + Renders(b)
  {
  }

  /** `filter(Boolean)` takes the parts one at a time. */
  lemma TruthyStep(p: seq<Option<string>>, k: nat)
    requires k < |p|
    ensures Truthy(p[k..]) == Truthy([p[k]]) + Truthy(p[k + 1..])
  {
    assert p[k..][1..] == p[k + 1..];
    assert [p[k]][1..] == [];
  }

  /** `filter(Boolean)` on the six candidate parts works part by part. */
  lemma TruthySix(p: seq<Option<string>>)
    requires |p| == 6
    ensures Truthy(p) == Truthy([p[0]]) + Truthy([p[1]]) + Truthy([p[2]])
      + Truthy([p[3]]) + Truthy([p[4]]) + Truthy([p[5]])
  {
    assert p[0..] == p;
    TruthyStep(p, 0);
    TruthyStep(p, 1);
    TruthyStep(p, 2);
    TruthyStep(p, 3);
    TruthyStep(p, 4);
    TruthyStep(p, 5);
    assert Truthy(p[6..]) == [];
    NestRight(Truthy([p[0]]), Truthy([p[1]]), Truthy([p[2]]),
              Truthy([p[3]]), Truthy([p[4]]), Truthy([p[5]]));
  }

  lemma NestRight<T>(a: seq<T>, b: seq<T>, c: seq<T>, d: seq<T>, e: seq<T>, f: seq<T>)
    ensures a + (b + (c + (d + (e + (f + []))))) == a + b + c + d + e + f
  {
    assert f + [] == f;
  }

  /** The texts of a spec's clauses, group by group. */
  lemma RendersOfClauses(spec: SearchSpec)
    ensures Renders(Clauses(spec))
      == Renders(GroupClause(false, spec.jobTitles))
       + Renders(GroupClause(false, spec.companies))
       + Renders(GroupClause(false, spec.keywords))
       + Renders(GroupClause(true, spec.exclusions))
       + Renders(if spec.location == "" then [] else [Phrase(spec.location)])
  {
    var g1, g2, g3, g4 := GroupClause(false, spec.jobTitles), GroupClause(false, spec.companies),
                          GroupClause(false, spec.keywords), GroupClause(true, spec.exclusions);
    var g5: seq<Clause> := if spec.location == "" then [] else [Phrase(spec.location)];
    RendersConcat(g1 + g2 + g3 + g4, g5);
    RendersConcat(g1 + g2 + g3, g4);
    RendersConcat(g1 + g2, g3);
    RendersConcat(g1, g2);
  }

  /** The parts that survive the filter, group by group. */
  lemma TruthyPieces(spec: SearchSpec)
    ensures Truthy(Parts(spec))
      == [SiteClause]
       + Renders(GroupClause(false, spec.jobTitles))
       + Renders(GroupClause(false, spec.companies))
       + Renders(GroupClause(false, spec.keywords))
       + Renders(GroupClause(true, spec.exclusions))
       + Renders(if spec.location == "" then [] else [Phrase(spec.location)])
  {
    TruthySix(Parts(spec));
    assert Truthy([Some(SiteClause)]) == [SiteClause];
    TruthyGroup(false, spec.jobTitles);
    TruthyGroup(false, spec.companies);
    TruthyGroup(false, spec.keywords);
    TruthyGroup(true, spec.exclusions);
    TruthyLocation(spec.location);
  }

  /** The parts that survive the filter are the site restriction and the
      text of each clause of the spec. */
  lemma TruthyParts(spec: SearchSpec)
    ensures Truthy(Parts(spec)) == [SiteClause] + Renders(Clauses(spec))
  {
    TruthyPieces(spec);
    RendersOfClauses(spec);
    var r1 := Renders(GroupClause(false, spec.jobTitles));
    var r2 := Renders(GroupClause(false, spec.companies));
    var r3 := Renders(GroupClause(false, spec.keywords));
    var r4 := Renders(GroupClause(true, spec.exclusions));
    var r5 := Renders(if spec.location == "" then [] else [Phrase(spec.location)]);
    Regroup([SiteClause], r1, r2, r3, r4, r5);
  }

  lemma Regroup<T>(x: seq<T>, r1: seq<T>, r2: seq<T>, r3: seq<T>, r4: seq<T>, r5: seq<T>)
    ensures x + r1 + r2 + r3 + r4 + r5 == x + (r1 + r2 + r3 + r4 + r5)
  {
  }

  /** The texts of a non-empty list of clauses: the first clause's text,
      then the rest. */
  lemma RendersCons(cs: seq<Clause>)
    requires cs != []
    ensures Renders(cs) == [Render(cs[0])] + Renders(cs[1..])
  {
  }

  /** Joining with single spaces puts one space before each clause text. */
  lemma {:induction false} JoinSpaced(x: string, cs: seq<Clause>)
    ensures Join([x] + Renders(cs), " ") == x + Spaced(cs)
    decreases |cs|
  {
    if cs != [] {
      var r, rest := Render(cs[0]), Renders(cs[1..]);
      RendersCons(cs);
      JoinCons(x, [r] + rest, " ");
      JoinSpaced(r, cs[1..]);
      assert x + " " + (r + Spaced(cs[1..])) == x + Spaced(cs);
    } else {
      assert [x] + Renders(cs) == [x];
    }
  }

  /** The primary text is the site restriction followed by each clause of
      the spec, in the order job titles, companies, keywords, exclusions,
      location, each after a single space. */
  lemma PrimaryStructure(spec: SearchSpec)
    ensures PrimaryText(spec) == SiteClause + Spaced(Clauses(spec))
  {
    TruthyParts(spec);
    JoinSpaced(SiteClause, Clauses(spec));
  }

  /** Every phrase the primary text quotes, in order: job titles,
      companies, keywords, exclusions and the location when present. */
  function UsedStrings(spec: SearchSpec): seq<string> {
    spec.jobTitles + spec.companies + spec.keywords + spec.exclusions
      + (if spec.location == "" then [] else [spec.location])
  }

  lemma {:induction false} PhrasesConcat(a: seq<Clause>, b: seq<Clause>)
    ensures Phrases(a + b) == Phrases(a) + Phrases(b)
    decreases |a|
  {
    if a != [] {
      assert (a + b)[1..] == a[1..] + b;
      PhrasesConcat(a[1..], b);
    } else {
      assert a + b == b;
    }
  }

  /** An OR-group clause quotes its phrases and is well formed. */
  lemma GroupClausePhrases(negated: bool, ws: seq<string>)
    ensures Phrases(GroupClause(negated, ws)) == ws
    ensures forall i :: 0 <= i < |GroupClause(negated, ws)| ==> WellFormed(GroupClause(negated, ws)[i])
  {
  }

  /** The clauses of a spec quote exactly its used strings, and each is
      well formed. */
  lemma ClausePhrases(spec: SearchSpec)
    ensures Phrases(Clauses(spec)) == UsedStrings(spec)
    ensures forall i :: 0 <= i < |Clauses(spec)| ==> WellFormed(Clauses(spec)[i])
  {
    var g1, g2, g3, g4 := GroupClause(false, spec.jobTitles), GroupClause(false, spec.companies),
                          GroupClause(false, spec.keywords), GroupClause(true, spec.exclusions);
    var g5: seq<Clause> := if spec.location == "" then [] else [Phrase(spec.location)];
    assert Clauses(spec) == g1 + g2 + g3 + g4 + g5;
    PhrasesConcat(g1 + g2 + g3 + g4, g5);
    PhrasesConcat(g1 + g2 + g3, g4);
    PhrasesConcat(g1 + g2, g3);
    PhrasesConcat(g1, g2);
    GroupClausePhrases(false, spec.jobTitles);
    GroupClausePhrases(false, spec.companies);
    GroupClausePhrases(false, spec.keywords);
    GroupClausePhrases(true, spec.exclusions);
    assert Phrases(g5) == (if spec.location == "" then [] else [spec.location]);
    forall i | 0 <= i < |Clauses(spec)| ensures WellFormed(Clauses(spec)[i]) {
      var cs := Clauses(spec);
      if i < |g1 + g2 + g3 + g4| {
        assert cs[i] == (g1 + g2 + g3 + g4)[i];
        if i < |g1 + g2 + g3| {
          assert cs[i] == (g1 + g2 + g3)[i];
        }
      }
    }
  }

  /** Reading back the primary text recovers the spec's clauses, provided no
      phrase holds a double quote (the compiler does not escape them). */
  lemma DecodePrimary(spec: SearchSpec)
    requires QuoteFree(UsedStrings(spec))
    ensures Decode(PrimaryText(spec)) == Some(Clauses(spec))
  {
    var cs := Clauses(spec);
    PrimaryStructure(spec);
    ClausePhrases(spec);
    forall i | 0 <= i < |cs| ensures Readable(cs[i]) {
      PhrasesReadable(cs, i);
    }
    ReadClausesOf(cs);
    assert (SiteClause + Spaced(cs))[|SiteClause|..] == Spaced(cs);
  }

  /** A clause whose phrases are among quote-free phrases is quote free. */
  lemma {:induction false} PhrasesReadable(cs: seq<Clause>, i: nat)
    requires i < |cs| && WellFormed(cs[i]) && QuoteFree(Phrases(cs))
    ensures Readable(cs[i])
    decreases i
  {
    assert Phrases(cs) == Strings(cs[0]) + Phrases(cs[1..]);
    if i == 0 {
      forall k | 0 <= k < |Strings(cs[0])| ensures '"' !in Strings(cs[0])[k] {
        assert Strings(cs[0])[k] == Phrases(cs)[k];
      }
    } else {
      forall k | 0 <= k < |Phrases(cs[1..])| ensures '"' !in Phrases(cs[1..])[k] {
        assert Phrases(cs[1..])[k] == Phrases(cs)[|Strings(cs[0])| + k];
      }
      PhrasesReadable(cs[1..], i - 1);
    }
  }

  /** Quote-free specs with the same primary text have the same clauses:
      the text determines every group and the location. */
  lemma PrimaryDeterminesClauses(a: SearchSpec, b: SearchSpec)
    requires QuoteFree(UsedStrings(a)) && QuoteFree(UsedStrings(b))
    requires PrimaryText(a) == PrimaryText(b)
    ensures Clauses(a) == Clauses(b)
  {
    DecodePrimary(a);
    DecodePrimary(b);
  }

  /** The primary text cannot tell job titles from companies: a spec whose
      only group is `ws` as job titles and one whose only group is `ws` as
      companies give the same text. */
  lemma TitlesLikeCompanies(ws: seq<string>, location: string)
    ensures PrimaryText(SearchSpec([], ws, [], location, [], [], []))
         == PrimaryText(SearchSpec(ws, [], [], location, [], [], []))
  {
    var a := SearchSpec([], ws, [], location, [], [], []);
    var b := SearchSpec(ws, [], [], location, [], [], []);
    PrimaryStructure(a);
    PrimaryStructure(b);
    assert Clauses(a) == Clauses(b);
  }

  /** The primary text is the bare site restriction exactly when every
      group is empty and there is no location. */
  lemma BareIff(spec: SearchSpec)
    ensures PrimaryText(spec) == SiteClause
      <==> (spec.jobTitles == [] && spec.companies == [] && spec.keywords == []
            && spec.exclusions == [] && spec.location == "")
  {
    PrimaryStructure(spec);
    ClausePhrases(spec);
    var cs := Clauses(spec);
    if cs != [] {
      assert |SiteClause + Spaced(cs)| > |SiteClause|;
    }
    if UsedStrings(spec) == [] {
      assert spec.jobTitles == [] && spec.companies == [] && spec.keywords == []
        && spec.exclusions == [] && spec.location == "";
    }
    if spec.jobTitles == [] && spec.companies == [] && spec.keywords == []
      && spec.exclusions == [] && spec.location == "" {
      assert cs == [];
      assert SiteClause + "" == SiteClause;
    }
  }

  // ---------------------------------------------------------------------
  // When the variant differs from the primary text.

  /** Every string in `ws` is single-spaced. */
  predicate AllSingleSpaced(ws: seq<string>) {
    forall i :: 0 <= i < |ws| ==> SingleSpaced(ws[i])
  }

  lemma AllSingleSpacedConcat(a: seq<string>, b: seq<string>)
    ensures AllSingleSpaced(a + b) <==> AllSingleSpaced(a) && AllSingleSpaced(b)
  {
    if AllSingleSpaced(a + b) {
      forall i | 0 <= i < |a| ensures SingleSpaced(a[i]) {
        assert (a + b)[i] == a[i];
      }
      forall i | 0 <= i < |b| ensures SingleSpaced(b[i]) {
        assert (a + b)[|a| + i] == b[i];
      }
    }
    if AllSingleSpaced(a) && AllSingleSpaced(b) {
      forall i | 0 <= i < |a + b| ensures SingleSpaced((a + b)[i]) {
        if i < |a| { assert (a + b)[i] == a[i]; } else { assert (a + b)[i] == b[i - |a|]; }
      }
    }
  }

  /** The site restriction holds no white space. */
  lemma SiteSpaced()
    ensures SingleSpaced(SiteClause)
    ensures !IsSpace(SiteClause[|SiteClause| - 1])
  {
    forall k | 0 <= k < |SiteClause| ensures !IsSpace(SiteClause[k]) {
    }
  }

  /** Quoting keeps single spacing and puts a non-space at both ends. */
  lemma QuoteSpaced(w: string)
    ensures SingleSpaced(Quote(w)) <==> SingleSpaced(w)
  {
    SingleSpacedConcat("\"", w);
    SingleSpacedConcat("\"" + w, "\"");
  }

  /** An OR-group body of several phrases: the first quoted phrase, ` OR `,
      and the body of the rest. */
  lemma OrJoinCons(ws: seq<string>)
    requires |ws| > 1
    ensures Join(QuoteAll(ws), " OR ")
      == Quote(ws[0]) + " OR " + Join(QuoteAll(ws[1..]), " OR ")
  {
    assert QuoteAll(ws)[1..] == QuoteAll(ws[1..]);
  }

  /** An OR-group body starts and ends with `"`. */
  lemma OrJoinShape(ws: seq<string>)
    requires ws != []
    ensures var j := Join(QuoteAll(ws), " OR ");
      j != [] && j[0] == '"' && j[|j| - 1] == '"'
  {
    if |ws| > 1 {
      OrJoinCons(ws);
      OrJoinShape(ws[1..]);
    }
  }

  /** A non-empty list is all single-spaced when its head and its tail
      are. */
  lemma AllSingleSpacedCons(ws: seq<string>)
    requires ws != []
    ensures AllSingleSpaced(ws) <==> SingleSpaced(ws[0]) && AllSingleSpaced(ws[1..])
  {
    assert ws == [ws[0]] + ws[1..];
    AllSingleSpacedConcat([ws[0]], ws[1..]);
    assert AllSingleSpaced([ws[0]]) <==> SingleSpaced(ws[0]) by {
      assert [ws[0]][0] == ws[0];
    }
  }

  /** One step of `OrJoinSpaced`: a phrase put before a body of several. */
  lemma OrJoinSpacedStep(ws: seq<string>)
    requires |ws| > 1
    requires SingleSpaced(Join(QuoteAll(ws[1..]), " OR ")) <==> AllSingleSpaced(ws[1..])
    ensures SingleSpaced(Join(QuoteAll(ws), " OR ")) <==> AllSingleSpaced(ws)
  {
    QuoteSpaced(ws[0]);
    AllSingleSpacedCons(ws);
    OrJoinCons(ws);
    OrJoinShape(ws[1..]);
    assert SingleSpaced(" OR ");
    SingleSpacedConcat3(Quote(ws[0]), " OR ", Join(QuoteAll(ws[1..]), " OR "));
  }

  /** An OR-group body is single-spaced exactly when all its phrases are. */
  lemma {:induction false} OrJoinSpaced(ws: seq<string>)
    requires ws != []
    ensures SingleSpaced(Join(QuoteAll(ws), " OR ")) <==> AllSingleSpaced(ws)
    decreases |ws|
  {
    if |ws| > 1 {
      OrJoinSpaced(ws[1..]);
      OrJoinSpacedStep(ws);
    } else {
      QuoteSpaced(ws[0]);
      AllSingleSpacedCons(ws);
      assert Join(QuoteAll(ws), " OR ") == Quote(ws[0]);
    }
  }

  /** The text of a well-formed clause starts and ends with a non-space. */
  lemma RenderShape(c: Clause)
    requires WellFormed(c)
    ensures var r := Render(c);
      r != [] && !IsSpace(r[0]) && !IsSpace(r[|r| - 1])
  {
  }

  /** An OR-group is single-spaced exactly when all its phrases are. */
  lemma GroupSpaced(negated: bool, ws: seq<string>)
    requires ws != []
    ensures SingleSpaced(GroupText(negated, ws)) <==> AllSingleSpaced(ws)
  {
    var open: string := if negated then "-(" else "(";
    assert SingleSpaced(open) && SingleSpaced(")");
    OrJoinSpaced(ws);
    OrJoinShape(ws);
    SingleSpacedConcat3(open, Join(QuoteAll(ws), " OR "), ")");
  }

  /** The text of a well-formed clause is single-spaced exactly when all its
      phrases are. */
  lemma RenderSpaced(c: Clause)
    requires WellFormed(c)
    ensures SingleSpaced(Render(c)) <==> AllSingleSpaced(Strings(c))
  {
    match c
    case Phrase(w) =>
      QuoteSpaced(w);
      assert AllSingleSpaced([w]) <==> SingleSpaced(w) by {
        assert [w][0] == w;
      }
    case AnyOf(ws) =>
      GroupSpaced(false, ws);
    case NoneOf(ws) =>
      GroupSpaced(true, ws);
  }

  /** Clauses after single spaces: nothing, or a space first and a
      non-space last. */
  lemma SpacedShape(cs: seq<Clause>)
    requires forall i :: 0 <= i < |cs| ==> WellFormed(cs[i])
    ensures var s := Spaced(cs);
      s == [] || (s[0] == ' ' && !IsSpace(s[|s| - 1]))
  {
    if cs != [] {
      RenderShape(cs[0]);
      SpacedShape(cs[1..]);
    }
  }

  /** Clauses after single spaces are single-spaced exactly when all their
      phrases are. */
  lemma {:induction false} SpacedSpaced(cs: seq<Clause>)
    requires forall i :: 0 <= i < |cs| ==> WellFormed(cs[i])
    ensures SingleSpaced(Spaced(cs)) <==> AllSingleSpaced(Phrases(cs))
    decreases |cs|
  {
    if cs != [] {
      var r := Render(cs[0]);
      var tail := Spaced(cs[1..]);
      RenderShape(cs[0]);
      RenderSpaced(cs[0]);
      SpacedShape(cs[1..]);
      SpacedSpaced(cs[1..]);
      assert SingleSpaced(" ");
      SingleSpacedConcat3(" ", r, tail);
      AllSingleSpacedConcat(Strings(cs[0]), Phrases(cs[1..]));
    }
  }

  /** The primary text is single-spaced exactly when every string it quotes
      is single-spaced. */
  lemma PrimarySpacedIff(spec: SearchSpec)
    ensures SingleSpaced(PrimaryText(spec)) <==> AllSingleSpaced(UsedStrings(spec))
  {
    PrimaryStructure(spec);
    ClausePhrases(spec);
    SpacedSpaced(Clauses(spec));
    SpacedShape(Clauses(spec));
    SiteSpaced();
    SingleSpacedConcat(SiteClause, Spaced(Clauses(spec)));
  }

  /** The variant query has the same text as the primary exactly when no
      string of the spec that the query quotes holds a tab, a line break,
      any white space other than the plain space, or two white-space
      characters in a row. */
  lemma VariantSameIff(spec: SearchSpec)
    ensures BuildQueries(spec)[1].queryText == BuildQueries(spec)[0].queryText
      <==> AllSingleSpaced(UsedStrings(spec))
  {
    CollapseFixedIff(PrimaryText(spec));
    PrimarySpacedIff(spec);
  }

  /** A spec with every field empty compiles to the bare site restriction,
      for both queries. */
  lemma EmptySpecQueries()
    ensures BuildQueries(EmptySpec)[0].queryText == SiteClause
    ensures BuildQueries(EmptySpec)[1].queryText == SiteClause
  {
    BareIff(EmptySpec);
    SiteSpaced();
    CollapseFixedIff(SiteClause);
  }

  /** Two clauses, each after a single space. */
  lemma SpacedTwo(c1: Clause, c2: Clause)
    ensures Spaced([c1, c2]) == " " + Render(c1) + " " + Render(c2)
  {
    assert [c1, c2][1..] == [c2];
    assert [c2][1..] == [];
    assert Spaced([c2]) == " " + Render(c2) + "";
    assert Render(c2) + "" == Render(c2);
  }

  /** A single job title and a location: for "Sales Director" in
      "Manchester" the text is `site:linkedin.com/in ("Sales Director")
      "Manchester"`. */
  lemma TitleAndLocation(spec: SearchSpec, title: string, place: string)
    requires spec == SearchSpec([], [title], [], place, [], [], [])
    requires place != ""
    ensures PrimaryText(spec) == SiteClause + " (" + Quote(title) + ") " + Quote(place)
  {
    var c1, c2 := AnyOf([title]), Phrase(place);
    assert Clauses(spec) == [c1, c2];
    PrimaryStructure(spec);
    SpacedTwo(c1, c2);
    assert Join(QuoteAll([title]), " OR ") == Quote(title);
  }
}
