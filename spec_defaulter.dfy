/** `defaultSpecFromPrompt`: the stand-in for a prompt interpreter. It does
    not read the prompt's entities; it only routes on a location name. */
module SpecDefaulter {
  import opened Wrappers
  import opened JsText
  import opened SearchSpecs

  const DefaultCompanies: seq<string> := ["SG Fleet UK", "Holman", "Lex Autolease"]
  const DefaultJobTitles: seq<string> :=
    ["Business Development Manager", "Corporate Sales Manager", "Sales Director"]
  const DefaultKeywords: seq<string> := ["leasing", "fleet", "contract hire"]
  const DefaultExclusions: seq<string> := ["internal sales", "telesales"]
  const DefaultRankingCriteria: seq<string> := ["Leasing", "Products"]

  /** `prompt || ""`; `None` stands for `undefined` or `null`. */
  function PromptText(prompt: Option<string>): string {
    match prompt
    case None => ""
    case Some(p) => p
  }

  /** The three-way location choice on the lower-cased prompt. */
  function PickLocation(text: string): (r: string)
    ensures r == "Manchester" <==> Includes(text, "manchester")
    ensures r == "London" <==> !Includes(text, "manchester") && Includes(text, "london")
    ensures r == "United Kingdom" <==> !Includes(text, "manchester") && !Includes(text, "london")
  {
    if Includes(text, "manchester") then "Manchester"
    else if Includes(text, "london") then "London"
    else "United Kingdom"
  }

  /** The fixed spec of a non-blank prompt, for a chosen location. */
  function FixedSpec(location: string): SearchSpec {
    SearchSpec(DefaultCompanies, DefaultJobTitles, [location], location,
               DefaultKeywords, DefaultExclusions, DefaultRankingCriteria)
  }

  /** `defaultSpecFromPrompt(prompt)`. A blank prompt gives the empty spec;
      any other prompt gives the fixed spec, which depends on the prompt
      only through the location picked. */
  function DefaultSpec(prompt: Option<string>): (spec: SearchSpec)
    ensures Trim(PromptText(prompt)) == "" ==> spec == EmptySpec
    ensures Trim(PromptText(prompt)) != "" ==>
      spec.location in {"Manchester", "London", "United Kingdom"}
      && spec.locations == [spec.location]
      && spec == FixedSpec(spec.location)
  {
    var trimmed := Trim(PromptText(prompt));
    if trimmed == "" then EmptySpec
    else FixedSpec(PickLocation(ToLower(trimmed)))
  }

  // ---------------------------------------------------------------------
  // The same choices stated on the prompt itself.

  /** The prompt is absent or holds only white space. */
  predicate Blank(prompt: Option<string>) {
    match prompt
    case None => true
    case Some(p) => forall k :: 0 <= k < |p| ==> IsSpace(p[k])
  }

  /** `w` occurs in the prompt, ignoring ASCII case. */
  predicate Mentions(p: string, w: string) {
    exists k :: 0 <= k <= |p| - |w| && Occurs(p, w, k)
  }

  /** `w` occurs in `p` at position `k`, ignoring ASCII case. */
  predicate Occurs(p: string, w: string, k: nat)
    requires k + |w| <= |p|
  {
    forall m :: 0 <= m < |w| ==> LowerChar(p[k + m]) == w[m]
  }

  /** Trimming leaves nothing exactly when there is only white space. */
  lemma TrimEmptyIff(s: string)
    ensures Trim(s) == "" <==> forall k :: 0 <= k < |s| ==> IsSpace(s[k])
  {
    var i, j := TrimIsSlice(s);
    if Trim(s) == "" {
      assert i == j;
      forall k | 0 <= k < |s| ensures IsSpace(s[k]) {
        if k >= i { assert k >= j; }
      }
    }
  }

  /** A blank prompt, and only a blank one, gives the empty spec. */
  lemma BlankIff(prompt: Option<string>)
    ensures DefaultSpec(prompt) == EmptySpec <==> Blank(prompt)
  {
    TrimEmptyIff(PromptText(prompt));
  }

  /** An occurrence in the trimmed, lower-cased prompt is an occurrence
      in the prompt. */
  lemma FoundInPrompt(p: string, w: string, k: nat)
    requires k <= |ToLower(Trim(p))| && w <= ToLower(Trim(p))[k..]
    ensures Mentions(p, w)
  {
    var i, j := TrimIsSlice(p);
    var tr := Trim(p);
    var t := ToLower(tr);
    ToLowerAt(tr);
    assert |t| == j - i && k + |w| <= |t|;
    forall m | 0 <= m < |w| ensures LowerChar(p[i + k + m]) == w[m] {
      assert w[m] == t[k..][m] == t[k + m];
      assert tr[k + m] == p[i + k + m];
    }
    assert Occurs(p, w, i + k);
  }

  /** An occurrence of a word without white space starts and ends on
      characters that are not white space, so it lies between the white
      space at the two ends of the prompt. */
  lemma OccursBetween(p: string, w: string, k: nat, i: nat, j: nat)
    requires w != [] && forall m :: 0 <= m < |w| ==> !IsSpace(w[m])
    requires k + |w| <= |p| && Occurs(p, w, k)
    requires i <= j <= |p|
    requires forall m :: 0 <= m < i ==> IsSpace(p[m])
    requires forall m :: j <= m < |p| ==> IsSpace(p[m])
    ensures i <= k && k + |w| <= j
  {
    var last := k + |w| - 1;
    assert LowerChar(p[k + 0]) == w[0];
    assert LowerChar(p[k + (|w| - 1)]) == w[|w| - 1];
    LowerCharSpace(p[k]);
    LowerCharSpace(p[last]);
  }

  /** An occurrence within a slice of the prompt is found in the lower-cased
      slice. */
  lemma OccursInSlice(p: string, w: string, k: nat, i: nat, j: nat)
    requires i <= k && k + |w| <= j <= |p| && Occurs(p, w, k)
    ensures w <= ToLower(p[i..j])[k - i..]
  {
    var t := ToLower(p[i..j]);
    ToLowerAt(p[i..j]);
    forall m | 0 <= m < |w| ensures t[k - i..][m] == w[m] {
      assert t[k - i..][m] == LowerChar(p[i..j][k - i + m]) == LowerChar(p[k + m]);
    }
  }

  /** An occurrence in the prompt of a word without white space lies within
      the trimmed prompt. */
  lemma FoundInTrimmed(p: string, w: string, k: nat) returns (n: nat)
    requires w != [] && forall m :: 0 <= m < |w| ==> !IsSpace(w[m])
    requires k + |w| <= |p| && Occurs(p, w, k)
    ensures n <= |ToLower(Trim(p))| && w <= ToLower(Trim(p))[n..]
  {
    var i, j := TrimIsSlice(p);
    OccursBetween(p, w, k, i, j);
    OccursInSlice(p, w, k, i, j);
    n := k - i;
  }

  /** Searching the trimmed, lower-cased prompt for a word without white
      space is a case-insensitive search of the prompt itself. */
  lemma IncludesIffMentions(p: string, w: string)
    requires w != [] && forall m :: 0 <= m < |w| ==> !IsSpace(w[m])
    ensures Includes(ToLower(Trim(p)), w) <==> Mentions(p, w)
  {
    var t := ToLower(Trim(p));
    IncludesIff(t, w);
    if Includes(t, w) {
      var k :| 0 <= k <= |t| && w <= t[k..];
      FoundInPrompt(p, w, k);
    }
    if Mentions(p, w) {
      var k :| 0 <= k <= |p| - |w| && Occurs(p, w, k);
      var n := FoundInTrimmed(p, w, k);
    }
  }

  /** The two location names hold no white space. */
  lemma NamesUnspaced()
    ensures forall m :: 0 <= m < |"manchester"| ==> !IsSpace("manchester"[m])
    ensures forall m :: 0 <= m < |"london"| ==> !IsSpace("london"[m])
  {
  }

  /** The location picked for a prompt that is not blank. */
  lemma LocationChoice(prompt: Option<string>)
    requires !Blank(prompt)
    ensures var p, loc := PromptText(prompt), DefaultSpec(prompt).location;
      && (loc == "Manchester" <==> Mentions(p, "manchester"))
      && (loc == "London" <==> !Mentions(p, "manchester") && Mentions(p, "london"))
      && (loc == "United Kingdom" <==> !Mentions(p, "manchester") && !Mentions(p, "london"))
  {
    var p := PromptText(prompt);
    TrimEmptyIff(p);
    NamesUnspaced();
    IncludesIffMentions(p, "manchester");
    IncludesIffMentions(p, "london");
  }

  /** Two prompts that are not blank and pick the same location give the
      same spec. */
  lemma SameLocationSameSpec(a: Option<string>, b: Option<string>)
    requires !Blank(a) && !Blank(b)
    requires DefaultSpec(a).location == DefaultSpec(b).location
    ensures DefaultSpec(a) == DefaultSpec(b)
  {
    TrimEmptyIff(PromptText(a));
    TrimEmptyIff(PromptText(b));
  }

  // ---------------------------------------------------------------------
  // Worked prompts.

  /** A word does not occur where one of its lower-case letters is missing
      in both cases. */
  lemma NotMentioned(p: string, w: string, m: nat)
    requires m < |w| && 'a' <= w[m] <= 'z'
    requires w[m] !in p && (w[m] as int - 32) as char !in p
    ensures !Mentions(p, w)
  {
  }

  /** What the London prompt mentions. */
  lemma LondonFacts(p: string)
    requires p == "Looking for sales roles in London"
    ensures !Blank(Some(p)) && !Mentions(p, "manchester") && Mentions(p, "london")
  {
    assert !IsSpace(p[0]);
    LondonNoManchester(p);
    LondonAt27(p);
  }

  lemma LondonNoManchester(p: string)
    requires p == "Looking for sales roles in London"
    ensures !Mentions(p, "manchester")
  {
    assert 'm' !in p && 'M' !in p;
    NotMentioned(p, "manchester", 0);
  }

  lemma LondonAt27(p: string)
    requires p == "Looking for sales roles in London"
    ensures Mentions(p, "london")
  {
    assert p[27..] == "London";
    assert Occurs(p, "london", 27);
  }

  /** A prompt naming London, and not Manchester, routes to London. */
  lemma LondonPrompt(p: string)
    requires p == "Looking for sales roles in London"
    ensures DefaultSpec(Some(p)).location == "London"
  {
    LondonFacts(p);
    LocationChoice(Some(p));
  }

  /** What the two-city prompt mentions. */
  lemma BothCitiesFacts(p: string)
    requires p == "London or Manchester"
    ensures !Blank(Some(p)) && Mentions(p, "manchester")
  {
    assert !IsSpace(p[0]);
    assert Occurs(p, "manchester", 10);
  }

  /** Manchester wins when both names occur. */
  lemma BothCitiesPrompt(p: string)
    requires p == "London or Manchester"
    ensures DefaultSpec(Some(p)).location == "Manchester"
  {
    BothCitiesFacts(p);
    LocationChoice(Some(p));
  }

  /** What the Berlin prompt mentions. */
  lemma BerlinFacts(p: string)
    requires p == "Fleet sales in Berlin"
    ensures !Blank(Some(p)) && !Mentions(p, "manchester") && !Mentions(p, "london")
  {
    assert !IsSpace(p[0]);
    NotMentioned(p, "manchester", 0);
    NotMentioned(p, "london", 1);
  }

  /** A prompt naming neither city falls back to the whole country. */
  lemma BerlinPrompt(p: string)
    requires p == "Fleet sales in Berlin"
    ensures DefaultSpec(Some(p)).location == "United Kingdom"
  {
    BerlinFacts(p);
    LocationChoice(Some(p));
  }
}
