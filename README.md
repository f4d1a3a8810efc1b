# Profile sourcing helpers, modelled in Dafny

The profile-sourcing application turns a recruiter's free-text prompt into a
search spec (target companies, job titles, keywords, exclusions, location).
It compiles that spec into LinkedIn "X-ray" web-search queries. Each profile
it finds is stored under a deduplication key derived from its LinkedIn URL,
and the scored profiles are exported as CSV. These four helpers in
`app/lib/utils.js` are the part of the application this project models:

- `normalizeLinkedinUrl` computes the dedup key. It trims, lower-cases, cuts
  the query string and the fragment, and drops one trailing slash.
  Module `UrlNormalizer`, file `url_normalizer.dfy`.
- `buildQueriesFromSpec` compiles a spec into the primary query and its
  "Title variation" variant. Module `QueryCompiler`, file
  `query_compiler.dfy`; the spec and query records are in `search_spec.dfy`.
- `defaultSpecFromPrompt` builds the fixed default spec whose location is
  picked from the prompt. Module `SpecDefaulter`, file `spec_defaulter.dfy`.
- `toCsv` renders profile rows as CSV. It is a method with a loop, in module
  `CsvExport`, file `csv_export.dfy`.

The JavaScript built-ins these helpers rely on are written out in `JsText`
(`js_text.dfy`):

- `trim` and the `\s` class use the ECMAScript white-space set.
- `toLowerCase` is modelled for ASCII letters.
- `join`, `includes` and `replace` with `/c/g` and `/\s+/g` are modelled.
- The regular expressions `/\?.*$/` and `/#.*$/` cut at the leftmost `?` or
  `#` whose remainder holds no line terminator, as ECMAScript's `.` does not
  match one (`UrlNormalizer.CutAtMatch`).

`Option` (in `wrappers.dfy`) stands for a value that may be `undefined` or
`null`.

Each operation has a partner property:

- **URL key:** stated as a prefix, with no query or fragment, lower-cased and
  trimmed. The model pins down exactly when re-normalising changes nothing.
- **Primary query text:** a decoder `QueryCompiler.Decode` reads the clause
  list back (`DecodePrimary`).
- **Variant:** characterised against the primary.
- **Default spec:** the location choice is stated on the prompt itself, with
  an upper- and lower-case-insensitive match.
- **CSV export:** `CsvExport.ReadCsv` reads an RFC 4180-style document back
  into the header and the field values of every row (`CsvRoundTrip`).

Three facts about the code are worth stating outright:

- **Normalisation is not idempotent.** The code drops only one trailing
  slash, so `"x//"` gives `"x/"`, which gives `"x"` (`NotIdempotent`). A key
  that ends in white space also changes when normalised again
  (`RenormalizeTrims`). `NormalizeTwiceIff` states exactly when a key is
  stable.
- **The variant is not always textually identical to the primary.** The
  code collapses white-space runs, so the two are equal exactly when every
  phrase the primary quotes is single-spaced (`VariantSameIff`).
- **The primary text is never empty.** It always starts with the site
  clause (`PrimaryText`), so an empty-query guard placed after it never
  fires.

## Model

| member | source | states |
|---|---|---|
| UrlNormalizer.Normalize | app/lib/utils.js:1-8 | an absent or empty URL has the empty key; any other URL has the key cut from its trimmed, lower-cased text |
| UrlNormalizer.NormalizeShape | app/lib/utils.js:3-6 | for a non-empty URL on one line, the key is a prefix of the query-free stem, and the stem is a prefix of the trimmed lower-cased URL. The stem stops at its end or just before a `?` or `#`. Neither stem nor key holds `?` or `#`. The key is the stem or the stem less one trailing `/` |
| UrlNormalizer.KeyIsPrefix | app/lib/utils.js:3-6 | the key is a prefix of the trimmed, lower-cased URL |
| UrlNormalizer.KeyHasNoMatch | app/lib/utils.js:4-5 | the key holds no position where `/\?.*$/` or `/#.*$/` could match |
| UrlNormalizer.KeyIsClean | app/lib/utils.js:3 | the key has no upper-case letter and does not start with white space |
| UrlNormalizer.CutAtMatch | app/lib/utils.js:4-5 | `replace(/c.*$/, "")` never lengthens the text; `CutAtMatchSpec` is its partner and says where the cut falls |
| UrlNormalizer.CutAtMatchSpec | app/lib/utils.js:4-5 | `replace(/c.*$/, "")` keeps a prefix. Before the cut no position matches. Whenever something is cut, the cut is at a match |
| UrlNormalizer.CutAtMatchIdempotent | app/lib/utils.js:4-5 | after one cut no match is left, so cutting again changes nothing |
| UrlNormalizer.DropTrailingSlash | app/lib/utils.js:6 | `replace(/\/$/, "")` removes at most one final `/`, and leaves the text unchanged exactly when it does not end in `/` |
| UrlNormalizer.NormalizeTwiceIff | app/lib/utils.js:1-8 | normalising a key again gives the same key if and only if the key is empty or ends in neither white space nor `/` |
| UrlNormalizer.NotIdempotent | app/lib/utils.js:1-8 | `"x//"` normalises to `"x/"`, which normalises to `"x"` |
| UrlNormalizer.RenormalizeTrims | app/lib/utils.js:3 | a key ending in white space is changed by normalising it again |
| UrlNormalizer.DedupKey | app/lib/utils.js:1-8 | a non-empty base URL on one line, holding no `?` or `#`, and neither starting nor ending in white space nor ending in `/`, followed by an optional `/` and then an optional one-line `?query` or `#fragment`, has the base URL lower-cased as its key, whatever its letter case |
| UrlNormalizer.ProfileUrlKey | app/lib/utils.js:1-8 | `HTTPS://LinkedIn.com/in/Jane-Doe/?x=1#frag` has the key `https://linkedin.com/in/jane-doe` |
| JsText.TrimIsSlice | app/lib/utils.js:3 | `trim()` returns a contiguous slice. Only white space lies outside it, and it neither starts nor ends with white space |
| JsText.ToLowerAt | app/lib/utils.js:3 | `toLowerCase()` maps each character to its lower-case letter in place and leaves no upper-case letter |
| QueryCompiler.BuildQueries | app/lib/utils.js:27-34 | exactly two records. The first is `xray_linkedin` / `Primary` carrying the primary text. The second is `xray_linkedin_variant` / `Title variation`, carrying the primary with white-space runs collapsed |
| QueryCompiler.ReplaceByItself | app/lib/utils.js:32 | replacing every `"` by `"` leaves a string unchanged |
| JsText.CollapseSpaces | app/lib/utils.js:32 | `replace(/\s+/g, " ")` never lengthens the text. It is empty only when the input is, and starts with white space exactly when the input does |
| JsText.CollapseSpec | app/lib/utils.js:32 | the collapsed text is single-spaced and keeps the input's non-space characters, in order |
| JsText.CollapseLast | app/lib/utils.js:32 | the collapsed text ends in white space exactly when the input does |
| JsText.CollapseRun | app/lib/utils.js:32 | a run of white space between text that does not end in white space and text that does not start with it becomes exactly one space, and each side collapses on its own |
| JsText.CollapseDoubleSpace | app/lib/utils.js:32 | two non-space characters separated by two spaces come out separated by one |
| JsText.CollapseFixedIff | app/lib/utils.js:32 | collapsing white space changes nothing if and only if the text is already single-spaced |
| QueryCompiler.PrimaryStructure | app/lib/utils.js:11-25 | the primary text is the site clause followed by, each after one space: the title, company and keyword groups, the negated exclusion group and the quoted location. Each is present only when non-empty, in that order |
| QueryCompiler.DecodePrimary | app/lib/utils.js:11-25 | when no phrase holds a `"`, decoding the primary text gives back exactly its clauses, each group's phrases in input order |
| QueryCompiler.PrimaryDeterminesClauses | app/lib/utils.js:11-25 | two quote-free specs with the same primary text have the same clause list: the same OR-groups, each with its phrases in order, the same negated group and the same location clause |
| QueryCompiler.TitlesLikeCompanies | app/lib/utils.js:18-25 | the clause list does not say which field a group came from: the same phrases as job titles or as companies give the same primary text |
| QueryCompiler.ReadClausesOf | app/lib/utils.js:18-25 | the clause reader recovers any list of quote-free clauses with non-empty groups from its space-separated rendering |
| QueryCompiler.PrimaryText | app/lib/utils.js:17-25 | the primary text always starts with `site:linkedin.com/in` and is never empty; `PrimaryStructure` and `DecodePrimary` are its partners |
| QueryCompiler.Truthy | app/lib/utils.js:23 | `filter(Boolean)` never lengthens the list; `TruthyConcat` shows it works piece by piece and keeps order |
| JsText.JoinHead | app/lib/utils.js:18-25 | `join(sep)` of a non-empty list starts with its first element |
| JsText.JoinCons | app/lib/utils.js:18-25 | `join(sep)` of two or more strings is the first, the separator, then the join of the rest; `QueryCompiler.JoinSpaced`, `CsvExport.JoinLines` and `CsvExport.JoinSeven` build on it |
| QueryCompiler.BareIff | app/lib/utils.js:16-25 | the primary text is exactly `site:linkedin.com/in` if and only if titles, companies, keywords and exclusions are empty and the location is empty |
| QueryCompiler.EmptySpecQueries | app/lib/utils.js:10-35 | for the all-empty spec both query texts are `site:linkedin.com/in` |
| QueryCompiler.TitleAndLocation | app/lib/utils.js:11-25 | a spec with one title and a location compiles to the site clause, the parenthesised quoted title and the quoted location |
| QueryCompiler.OrJoinSpaced | app/lib/utils.js:11-21 | a group joined with ` OR ` is single-spaced if and only if each of its phrases is |
| QueryCompiler.PrimarySpacedIff | app/lib/utils.js:11-25 | the primary text is single-spaced if and only if every phrase it quotes is |
| QueryCompiler.VariantSameIff | app/lib/utils.js:32 | the variant text equals the primary text if and only if every phrase the primary quotes is single-spaced |
| SpecDefaulter.DefaultSpec | app/lib/utils.js:37-71 | a blank prompt gives the all-empty spec. Any other prompt gives the fixed spec, with `locations == [location]` and a location among Manchester, London and United Kingdom |
| SpecDefaulter.TrimEmptyIff | app/lib/utils.js:38-39 | trimming leaves nothing if and only if the text is all white space |
| SpecDefaulter.BlankIff | app/lib/utils.js:38-49 | the default spec is the all-empty spec if and only if the prompt is absent or all white space |
| JsText.IncludesIff | app/lib/utils.js:52-56 | `includes` holds if and only if the word starts at some position of the text |
| SpecDefaulter.IncludesIffMentions | app/lib/utils.js:51-56 | a word without white space is included in the trimmed, lower-cased prompt if and only if the prompt contains it ignoring letter case |
| SpecDefaulter.PickLocation | app/lib/utils.js:52-56 | on the lower-cased text, Manchester if and only if it includes "manchester"; London if and only if it includes "london" but not "manchester"; United Kingdom if and only if it includes neither |
| SpecDefaulter.LocationChoice | app/lib/utils.js:51-56 | for a non-blank prompt the location is Manchester if and only if "manchester" is mentioned. Otherwise it is London if and only if "london" is, and otherwise United Kingdom |
| SpecDefaulter.SameLocationSameSpec | app/lib/utils.js:58-70 | two non-blank prompts with the same location get equal specs |
| SpecDefaulter.NotMentioned | app/lib/utils.js:52-56 | a word is not mentioned when one of its letters appears in the prompt in neither case |
| SpecDefaulter.LondonPrompt | app/lib/utils.js:51-56 | "Looking for sales roles in London" gets London |
| SpecDefaulter.BothCitiesPrompt | app/lib/utils.js:51-56 | "London or Manchester" gets Manchester, which takes priority |
| SpecDefaulter.BerlinPrompt | app/lib/utils.js:51-56 | "Fleet sales in Berlin" gets United Kingdom |
| CsvExport.ToCsv | app/lib/utils.js:73-95 | the output is the header line, then one line per row in order, joined by line feeds. Reading it back gives the column names followed by every row's field values |
| CsvExport.CsvRoundTrip | app/lib/utils.js:73-95 | reading the exported text gives the header names and then each row's seven values, with absent values as empty strings |
| CsvExport.ExportText | app/lib/utils.js:83-94 | the export is the header line followed by a line feed and a line for each row |
| CsvExport.HeaderText | app/lib/utils.js:74-83 | the header line is `full_name,current_company,current_title,location,linkedin_url,score,status`, unquoted |
| CsvExport.EmptyExport | app/lib/utils.js:83-94 | no rows give the header line alone, with no line feed |
| CsvExport.QuoteField | app/lib/utils.js:88-89 | a written field is at least two characters long and starts and ends with `"`; `ReadFieldOf` is its inverse |
| CsvExport.ReadFieldOf | app/lib/utils.js:86-90 | a quoted, escaped field reads back as its original value, leaving what follows it |
| CsvExport.ReadQuotedOf | app/lib/utils.js:88-89 | un-doubling `""` up to the closing quote recovers the escaped value |
| CsvExport.ReadRecordOf | app/lib/utils.js:86-91 | a comma-joined line of quoted fields reads back as its values, in column order |
| CsvExport.ReadDataOf | app/lib/utils.js:85-92 | the data lines read back as the rows' field lists, in input order |
| JsText.ReplaceAllConcat | app/lib/utils.js:88 | `replace(/"/g, '""')` works piece by piece over concatenation |
| JsText.ReplaceAllAbsent | app/lib/utils.js:88 | a value without `"` is unchanged by the escaping |
| CsvExport.EscapeFirstQuote | app/lib/utils.js:88 | the first `"` of a value is doubled and the text before it is kept |
| CsvExport.QuoteTwoQuotes | app/lib/utils.js:88-89 | a value with two quotes is wrapped in quotes, with both quotes doubled |
| CsvExport.QuotedName | app/lib/utils.js:88-89 | `Jane "JJ" Doe` is written as `"Jane ""JJ"" Doe"` |

## Left out

- `toLowerCase` is ASCII-only here. Unicode case mapping, which can change a string's length, is not modelled.
- Strings are sequences of characters. JavaScript's UTF-16 code units and surrogate pairs are not distinguished.
- `String(raw)` in `toCsv` converts numbers and booleans, such as `score`. CSV fields are modelled as optional strings, so number formatting is not modelled.
- An absent spec field (`|| []`) is identified with an empty one. Non-string array elements and their string conversion in template literals are not modelled.
- UrlNormalizer.Normalize, QueryCompiler.BuildQueries: only well-typed inputs are modelled, so two JavaScript failures are not. `normalizeLinkedinUrl` returns `""` for every falsy value (`0`, `false`, `NaN`, `null`), but a truthy non-string URL such as a number throws a TypeError at `url.trim` (utils.js:2-3). The model's URL is an optional string. `buildQueriesFromSpec` throws a TypeError when the spec itself is absent, or when a truthy group field is not an array (for example `job_titles: "x"` has no `.map`; utils.js:11-14). The model's spec fields are typed sequences.
- `defaultSpecFromPrompt(prompt || "")` treats every falsy prompt alike; the model has only an absent prompt and a string.
- The CSV reader (`CsvExport.ReadCsv`) is an independent reference for the round trip. It is not part of the application, and it reads line feeds only, as `toCsv` writes them; CRLF input is not modelled.
- The UI pages, the API routes, and the database upsert keyed by the normalised URL are not part of this model. Neither are the Supabase client wrappers and the external search provider. They are I/O and external services.
