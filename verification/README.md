# Competitor graph compiler and viewer logic, in Dafny

This project models the data compiler of a software-sector competitive
intelligence site, together with the pure logic of its browser viewer.

The compiler (`compileData` in `compile-data.js`) reads per-company, per-year
competitor surveys. Each survey record names a company, its ticker, a year, a
context text and a list of competitors with notes. From these it builds one
entity graph:

- **Name normalisation and slugs.** `normalizeCompanyName` and `createSlug` are
  regular-expression chains. They are modelled character by character (module
  `Names`). The corporate-suffix regex is modelled as the regex engine's
  left-to-right scan, and proved equal to a token-level definition.
- **Pass 1** (`SubjectPass`) builds one public entity per ticker, in
  first-seen order. Its slug and name come from the first file for that ticker.
  Its `years` map is last-write-wins.
- **Pass 2** (`MentionPass`) visits every competitor mention. The visit order
  is: subjects in `publicCompanies` order, years ascending, mentions in list
  order. It is a fold of `Step` over that event list. Each step does four
  things:
  - it resolves the mention to the first matching public company, or else to
    the memoised non-public entity for the slug;
  - it appends a relationship;
  - it records a deduplicated `mentionedBy` citation and a per-year note;
  - it records a deduplicated competitor reference.

  Object identity is modelled by position: `Public(i)` is the i-th subject and
  `Other(i)` the i-th non-public entity.
- **Output** (`OutputOrder`) models two things:
  - the public part of `allEntities` as a JavaScript `Map` keyed by slug;
  - the stable output sort, public first and then by mention count descending.
- **Industries** (`Industries`) tags each public company with the categories
  whose keywords occur in its lower-cased, space-joined contexts.
- `Compiler` puts the pieces together and states the whole-run facts.

The viewer (`app.js`) contributes the following modules:

- its own `createSlug`, proved equal to the compiler's (`ViewerSlug`);
- page counting, slicing and the page-button row (`Pagination`);
- the year-then-latest financial fallback and the revenue panel
  (`Financials`);
- the grouping of citations by mentioning company (`Citations`);
- the list filters and the search box (`ListFilters`).

Surveys are taken as an already-parsed sequence of records. The viewer's
entities and industry map are taken as parameters.

## Model

| member | source | states |
|---|---|---|
| Names.Lower | compile-data.js:16 | no capital letter is left; every character that is not a capital stays in place; a capital becomes its small letter |
| Names.LowerIdempotent | compile-data.js:16 | lower-casing an already lower-cased name changes nothing |
| Names.StripPunctuation | compile-data.js:17 | a character survives exactly when it is not one of the 21 stripped punctuation characters |
| Names.StripCounts | compile-data.js:17 | every character outside the punctuation class is kept as many times as it occurs, and the class's characters are all gone |
| Names.StripAppend | compile-data.js:17 | stripping a concatenation strips each part, so the kept characters stay in their original order |
| Names.ReplaceRunsChars | compile-data.js:18 | after collapsing runs, the only new character is the replacement; every character outside the runs is still present |
| Names.ReplaceRunsSplit | compile-data.js:18 | the replacement splits in front of any character outside the runs, so each side is replaced on its own |
| Names.ReplaceRunsOfRun | compile-data.js:18 | a whole run, however long, becomes one replacement character |
| Names.ReplaceRunsPlain | compile-data.js:18 | a string with no run character is left unchanged |
| Names.ReplaceRunsSeparated | compile-data.js:26-27 | after a run replacement no two run characters are adjacent; this is why slugs never hold `--` |
| Names.TrimShape | compile-data.js:20 | `trim()` returns one contiguous piece of the input; only whitespace is cut from either side, and the piece neither starts nor ends with whitespace |
| Names.FirstMatchSpec | compile-data.js:19 | the suffix regex matches at a word boundary exactly when the whole following word is a listed suffix; the match length is that word |
| Names.RemoveStopwordsIsDrop | compile-data.js:19 | the regex engine's scan deletes exactly the maximal words that are listed suffixes, compared case-insensitively |
| Names.DropWordsSpec | compile-data.js:19 | after suffix removal no word is a listed suffix, and every separator character is kept in order |
| Names.NormalizeShape | compile-data.js:14-21 | a normalised name holds no stripped punctuation, only plain spaces as whitespace, no leading or trailing whitespace, and no suffix word |
| Names.SlugShape | compile-data.js:24-28 | a slug holds no whitespace, no punctuation but `-`, no `--`, and no leading or trailing `-`; it is empty exactly when the normalised name is |
| Names.SlugOfWord | compile-data.js:14-28 | a name whose lower-case form is one ASCII word that is not a suffix normalises and slugs to that word |
| ViewerSlug.SlugifyIsSlug | app.js:616-625 | the viewer's one-chain `createSlug` computes the compiler's `createSlug` for every string |
| ViewerSlug.ChainSplit | app.js:616-625 | running a chain of replacements is running its two halves one after the other |
| ViewerSlug.NormalizeLinksNormalize | app.js:618-622 | the viewer's first five links (lower-case, strip, collapse spaces, drop suffixes, trim) compute the compiler's `normalizeCompanyName` |
| ViewerSlug.SlugLinksSlug | app.js:623-624 | the last two links turn whitespace runs into `-` and merge `-` runs, as the compiler's slug step does |
| SubjectPass.SubjectsFresh | compile-data.js:42-59 | pass 1 yields public entities with pairwise different tickers and empty `mentionedBy` and `competitors` |
| SubjectPass.SubjectOfTicker | compile-data.js:46-59 | a ticker has an entity exactly when some record has that ticker; its name and slug come from the first such record |
| SubjectPass.SubjectYears | compile-data.js:61-68 | a year is in a subject's `years` exactly when a record has that ticker and year; the data is the last such record's |
| SubjectPass.SubjectsInFirstSeenOrder | compile-data.js:49-50 | subjects are in the order their tickers first appear |
| SubjectPass.SubjectSlugs | compile-data.js:46 | every subject's slug is `createSlug` of its name |
| SubjectPass.AddRecordTickers | compile-data.js:49-68 | one record changes at most its own ticker's entity and appends an entity only for a new ticker |
| MentionPass.PublicMatch | compile-data.js:86-91 | the first subject whose slug equals the mention's slug or whose normalised name equals the mention's |
| MentionPass.Resolve | compile-data.js:84-107 | the target is the first subject that matches by slug or normalised name and the non-public list is unchanged; with no such subject it is the first non-public entity with the slug, and one is appended, with the mention's name, exactly when none had that slug |
| MentionPass.PublicMatchBySlug | compile-data.js:87 | for subjects whose slugs are `createSlug` of their names, the public match is the first subject with the mention's slug: the name comparison never changes the result |
| MentionPass.AddCitation | compile-data.js:118-126 | afterwards the list has an entry for the slug and year; the old list is a prefix; the citation is appended exactly when no entry had that slug and year; a duplicate-free list stays duplicate-free |
| MentionPass.AddRef | compile-data.js:140-147 | afterwards the list refers to the slug; the old list is a prefix; the reference is appended exactly when none had that slug; a duplicate-free list stays duplicate-free |
| MentionPass.AddNote | compile-data.js:129-137 | a non-public entity gains the year as a key and the note at the end of that year's list, and every other year's notes are kept; a public entity is unchanged |
| MentionPass.Touch | compile-data.js:117-137 | the resolved entity's slug, name and competitors are kept, and its `mentionedBy` gains the deduplicated citation |
| MentionPass.AddCompetitor | compile-data.js:139-147 | only the mentioning subject's `competitors` list changes; afterwards it refers to the target, the old list is a prefix, and the target is appended exactly when it was not referred to yet |
| MentionPass.StepNotes | compile-data.js:128-137 | a step appends exactly one note for the mentioning subject, under the mention's year, and only to a non-public target; every other non-public entity's notes stay as they were |
| MentionPass.StepRels | compile-data.js:109-115 | each mention appends exactly one relationship from the subject's slug to the resolved slug, with the year and notes |
| MentionPass.StepKeepsSubjects | compile-data.js:79-150 | pass 2 never changes a subject's slug, name, ticker or years |
| MentionPass.StepInv | compile-data.js:94-147 | a step keeps `mentionedBy` and `competitors` duplicate-free and non-public slugs distinct and different from every subject's slug |
| MentionPass.ReplayInv | compile-data.js:79-150 | the same invariant holds after any sequence of mentions |
| MentionPass.StepGrows | compile-data.js:117-147 | a step only appends: every list is a prefix of its new value, so first occurrences stay unchanged |
| MentionPass.ReplayGrows | compile-data.js:79-150 | the growth holds over any sequence of mentions |
| MentionPass.StepTarget | compile-data.js:84-147 | after a step the mention's target holds a citation for the subject and year, and the subject holds a reference to the target |
| MentionPass.ReplayRecorded | compile-data.js:79-150 | after the pass, every mention's citation and competitor reference is still present |
| MentionPass.EventsCount | compile-data.js:79-81 | the number of visited mentions is the total over all subjects and years |
| MentionPass.ReplayRels | compile-data.js:109-115 | the relationship list is the per-mention relationships in visiting order |
| MentionPass.PassRels | compile-data.js:79-115 | relationship count equals the total mention count; entry i is mention i's edge |
| MentionPass.PassRecorded | compile-data.js:79-150 | the invariant and every mention's cross-references hold after the whole pass |
| OutputOrder.SetBySlug | compile-data.js:73 | `Map.set`: the map grows by one exactly when the slug is new; every old key keeps its position and every other entry its value; the new value is present |
| OutputOrder.SetBySlugGet | compile-data.js:73 | a `get` after `set` returns the value just set for its slug, and for every other slug what it returned before |
| OutputOrder.PublicEntriesSlugs | compile-data.js:71-74 | the public part of `allEntities` has distinct slugs, exactly the subjects' slugs |
| OutputOrder.PublicEntriesLast | compile-data.js:71-74 | each entry is the last subject with its slug |
| OutputOrder.PublicEntriesOrder | compile-data.js:71-74 | entries are in the order their slugs first appear among the subjects |
| OutputOrder.PublicEntriesDistinct | compile-data.js:71-74 | with distinct subject slugs the public part is exactly the subjects |
| OutputOrder.CompareConsistent | compile-data.js:167-171 | the comparator is antisymmetric, total and transitive, and returns 0 exactly on same publicness and mention count |
| OutputOrder.SortEntities | compile-data.js:167-171 | the sorted list is a permutation of `allEntities` |
| OutputOrder.SortStable | compile-data.js:167-171 | entities that compare equal keep their `allEntities` order |
| OutputOrder.SortSorted | compile-data.js:167-171 | the result is ordered by the comparator |
| OutputOrder.OutputOrdered | compile-data.js:167-171 | public entities come first, mention counts do not increase within a group, and ties keep input order |
| OutputOrder.SortedUnique | compile-data.js:167-171 | a sorted list with the same tie classes is unique, so any stable sort gives this output |
| OutputOrder.PrivateCountDistinct | compile-data.js:162-164 | with distinct subject slugs `privateEntities` is the number of non-public entities |
| Industries.Includes | compile-data.js:217 | `includes` holds exactly when the keyword occurs at some position |
| Industries.JoinSpaceIncludes | compile-data.js:211-213 | a keyword found in one context is found in the joined text |
| Industries.AllTextIncludes | compile-data.js:211-213 | a keyword in any year's lower-cased context occurs in the subject's text |
| Industries.AnyKeyword | compile-data.js:217 | `some` holds exactly when one of the keywords is included |
| Industries.HitsFrom | compile-data.js:216-220 | the hit categories, in table order, without repeats, and all of them |
| Industries.TagsMeaning | compile-data.js:215-220 | a category is tagged exactly when one of its keywords occurs; tags follow table order |
| Industries.CollectShape | compile-data.js:222-224 | a slug is in the map exactly when some subject with it has tags; its value is the last such subject's non-empty tags |
| Industries.InferShape | compile-data.js:208-227 | `inferIndustries`: exactly the subjects with tags; each slug maps to the tags of its last tagged subject |
| Compiler.CompileRelationships | compile-data.js:79-115 | `totalRelationships` equals the number of mentions; relationship i is mention i's edge |
| Compiler.CompileResolvesBySlug | compile-data.js:82-91 | against the real subjects, resolution is the first subject with the mention's slug |
| Compiler.CompileCrossReferences | compile-data.js:79-150 | after compilation every mention appears in its target's `mentionedBy` and its subject's `competitors`; lists are duplicate-free |
| Compiler.CompileEntities | compile-data.js:162-171 | the output entities are `allEntities`, reordered by the comparator and stable; `totalEntities` is their number |
| Compiler.CompilePrivateCount | compile-data.js:162-164 | with distinct subject slugs `privateEntities` counts the non-public entities |
| Compiler.CompileIndustries | compile-data.js:156 | the industry map depends only on pass 1: pass 2 does not change it |
| Compiler.InferSame | compile-data.js:208-227 | classification reads only each subject's slug and survey years |
| Pagination.TotalPages | app.js:160 | `Math.ceil`: the fewest pages of `perPage` items that hold all items |
| Pagination.ClampPage | app.js:161 | a page beyond the count resets to 1; otherwise it is kept |
| Pagination.Slice | app.js:162-164 | `Array.prototype.slice`: a negative index counts from the end and is cut at 0, an index past the end is cut at the length; the result is the items between the two cut indices, in order, or nothing when they cross |
| Pagination.SliceConcat | app.js:162-164 | adjacent slices join into the slice that spans both, so consecutive pages tile the list |
| Pagination.Page | app.js:162-164 | a page holds at most `perPage` items |
| Pagination.PageRun | app.js:162-164 | page c is the run of items from `(c-1)*perPage` to `c*perPage`, cut at the end |
| Pagination.PageOfItem | app.js:160-164 | every item is on page `i / perPage + 1` at offset `i % perPage`, and that page is within the page count |
| Pagination.WindowAppends | app.js:208-210 | the loop appends the neighbour pages in order when none is listed yet |
| Pagination.PageListParts | app.js:200-214 | the row is: 1, an optional ellipsis, the neighbours of `current`, an optional ellipsis, the last page |
| Pagination.PageListIncreasing | app.js:200-214 | the row starts with 1 and ends with the last page, and its numbers strictly increase |
| Pagination.PageListNumbers | app.js:200-214 | a page number is listed exactly when it is 1, the last page, or within one of `current` |
| Pagination.PageListGaps | app.js:200-214 | an ellipsis appears exactly when `current > 3` or `current < totalPages - 2`, and always between two numbers that hide at least one page |
| Financials.EntityMapLookup | app.js:24-26 | the map filled by `entityMap.set` returns the last entity with a slug, and has a slug exactly when some entity has it |
| Financials.Lookup | app.js:603 | `entityMap.get` finds nothing exactly when no entity has the slug |
| Financials.CompetitorFinancials | app.js:602-604 | `getCompetitorFinancials` returns null exactly for an unknown slug |
| Financials.CompetitorFallback | app.js:602-613 | a known competitor gets that year's snapshot when the year is truthy and recorded, and the latest snapshot otherwise; this is the same choice as `updateFinancialStats` |
| Financials.PanelFigures | app.js:575-589 | the panel is shown exactly when the chosen snapshot has a truthy figure; revenue falls back to `revenue_2024` then "N/A", the market cap to "N/A" |
| Financials.AsWrittenMislabels | app.js:591-593 | as written, latest figures can be shown under a year's label |
| Financials.CorrectedLabel | app.js:575-593 | corrected, the label names the year exactly when that year's snapshot is shown |
| Citations.GroupBySlugSpec | app.js:542-548 | one group per mentioning slug, each holding that slug's first entry and all its years in input order |
| Citations.GroupBySlugCount | app.js:542-548 | the groups hold `mentions.length` years in all |
| Citations.GroupAsWrittenThrows | app.js:542-548 | as written, the grouping throws exactly when some slug is an inherited object property; otherwise it is the intended grouping |
| Citations.ConstructorSlug | compile-data.js:24-28 | the company "Constructor" gets the slug "constructor" |
| Citations.ConstructorThrows | app.js:544-547 | a citation from that company makes the as-written grouping throw |
| ListFilters.WhereExact | app.js:145 | `filter` keeps each entity as often as the list holds it when the predicate accepts it, and drops it otherwise |
| ListFilters.WhereAppend | app.js:97-100 | `filter` keeps list order |
| ListFilters.WhereSatisfies | app.js:97-100 | every entity `filter` keeps satisfies the predicate |
| ListFilters.PublicOnly | app.js:144-146 | the public filter keeps exactly the public entities |
| ListFilters.InIndustry | app.js:149-154 | the industry filter keeps exactly the entities whose industry list holds the tag; a missing list counts as empty |
| ListFilters.ListedExact | app.js:143-154 | an entity is listed exactly when it passes every active filter |
| ListFilters.InIndustryAsWrittenThrows | app.js:150-153 | as written, the industry filter throws exactly when an entity's slug is an inherited object property with no own entry |
| ListFilters.ConstructorFilterThrows | app.js:151-152 | a non-public entity "constructor" makes the as-written industry filter throw |
| ListFilters.Matching | app.js:96-100 | the search filter keeps exactly the entities that match by lower-cased name or truthy ticker, each as often as the list holds it, in list order |
| ListFilters.Search | app.js:89-101 | a query under 2 characters gives nothing; otherwise at most 8 results, each matching by lower-cased name or truthy ticker |
| ListFilters.SearchFirstMatches | app.js:96-101 | the results are the first 8 matches in list order, and all matches when there are fewer |
| ListFilters.SearchPrefix | app.js:96-101 | the results for a list are a prefix of the results for any extension of it |

Design notes:

- The resolver's second test, normalised names equal, is redundant. The slug
  is a function of the normalised name, so equal normalised names give equal
  slugs (`MentionPass.PublicMatchBySlug`).
- Two tickers may share a slug. Then `allEntities` holds the later subject at
  the earlier one's position, and `privateEntities`, computed by subtraction,
  is one too small per repeated slug. The model states the counting facts
  under the distinct-slug condition.
- Keywords with a trailing space (`"bi "`, `"hr "`, `"ai "`, `"ml "`) can match
  across the space that joins two years' contexts. The model joins exactly as
  the code does, so it matches there too.
- `app.js` reads `entityType`, `ownership` and `parentSlug`, but
  `compileData` never sets them: mentioned entities are created without them.

## Left out

- File and process I/O are not modelled: directory listing, JSON parsing and
  writing, the `data.js` wrapper, console logging. Survey records arrive as a
  parsed sequence, and missing `sources`/`competitors` default to empty before
  they reach the model.
- The `generated` timestamp is left out; it is a clock read.
- Financial enrichment and `entityType`/`ownership`/`parentSlug` are not
  modelled. No code that computes them is in scope. The viewer's financial
  fields are parameters (`Financials.Listed`), with a missing
  `financialsByYear` treated as an empty one.
- Names.Lower: models `toLowerCase` for ASCII letters only. Full Unicode case
  mapping is not modelled.
- Strings are sequences of Unicode scalar values, while JavaScript strings are
  sequences of UTF-16 code units. A character outside the Basic Multilingual
  Plane, such as an emoji, has length 1 here and length 2 in JavaScript.
- ListFilters.Search: the query-length threshold counts Unicode scalar values,
  so a one-emoji query gives nothing here, while `app.js:91` sees length 2 and
  searches. Queries made of Basic Multilingual Plane characters behave alike.
- Survey records are assumed well-typed. In the source, `createSlug` of a
  missing or non-string `company` (`compile-data.js:46`) or competitor `name`
  (`compile-data.js:82`) throws, and so does a truthy `competitors` value that
  is not iterable (`compile-data.js:81`); any of these aborts `compileData`.
  The model has no such records, so it has no abort path.
- Graph years are natural numbers. Integer-like object keys iterate in
  ascending numeric order, so `Object.entries(company.years)` is modelled as
  the ascending key list. Non-numeric year keys are not modelled.
- Figures are strings, with the empty string standing for every falsy value.
  JavaScript's `null`/`undefined`/`""`/`0` distinctions and number values are
  not modelled.
- The `localeCompare` sorts are left out: the company list sort before paging,
  the citation groups' name sort, and the string sort of their years.
  Collation is locale-dependent. So `Citations` groups stay in first-seen
  order, and paging is stated over any list.
- Citations.GroupBySlug: the groups are produced in first-seen order.
  `Object.values` would put integer-like slugs first; the later name sort
  makes this order irrelevant except for ties.
- DOM rendering, event handlers, `setTimeout`, hash routing and HTML building
  are not modelled.
- `extractDomain` is left out because it depends on the `URL` parser.
- The market-cap chip sort is left out because it uses JavaScript numbers and
  collation.
- `server.js` is not part of this model. It is an HTTP static file server.
- The key order of the written `industries` object is not modelled. It is a
  map in the model, so only its contents are stated.

## Findings

| source | as written | input that shows it | evidently intended | confidence | as-written member | corrected member |
|---|---|---|---|---|---|---|
| app.js:591-593 | the revenue label reads "Revenue (year)" whenever a year is selected, even when the figures shown are the latest-snapshot fallback | an entity with `financials` revenue "$5B" and no `financialsByYear["2023"]`, viewed for year "2023": "$5B" is labelled "Revenue (2023)" | label the year only when that year's snapshot is shown, "Revenue (Latest)" otherwise | medium, not executed | Financials.PanelAsWritten (shown by Financials.AsWrittenMislabels) | Financials.PanelCorrected (proved by Financials.CorrectedLabel) |
| app.js:542-548 | groups are looked up in a plain `{}`, so the slug "constructor" reads the inherited `Object.prototype.constructor`, no group is created, and `.years.push` throws a `TypeError` | an entity mentioned by the survey subject "Constructor" (slug "constructor") | one group per slug, whatever the slug | high, not executed | Citations.GroupAsWritten (shown by Citations.ConstructorThrows) | Citations.GroupBySlug (proved by Citations.GroupBySlugSpec) |
| app.js:150-153 | `industries[e.slug] \|\| []` reads the inherited `constructor` function for an entity with slug "constructor" and no own entry, and `.includes` on it throws | an industry selected while the list holds a non-public competitor named "Constructor" | a missing entry counts as an empty list | high, not executed | ListFilters.InIndustryAsWritten (shown by ListFilters.ConstructorFilterThrows) | ListFilters.InIndustry (proved by ListFilters.ListedExact) |
