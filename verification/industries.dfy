/**
 * `inferIndustries`: each survey subject is tagged with every industry one of
 * whose keywords occurs in the lower-cased text of its surveys' contexts.
 */
module Industries {
  import opened Names
  import opened Graph

  /** One entry of the keyword table: an industry name and the substrings that signal it. */
  datatype Category = Category(name: string, keywords: seq<string>)

  /** The keyword table, in definition order. Trailing spaces are part of the keywords. */
  const Table: seq<Category> := [
    Category("Cloud & Infrastructure", ["cloud", "infrastructure", "iaas", "paas", "hosting", "cdn", "edge"]),
    Category("Cybersecurity", ["security", "cybersecurity", "endpoint", "firewall", "threat", "malware", "antivirus"]),
    Category("Enterprise Software", ["erp", "enterprise", "business software", "sap", "oracle"]),
    Category("Data & Analytics", ["data", "analytics", "warehouse", "database", "bi ", "business intelligence"]),
    Category("DevOps & Development", ["devops", "developer", "git", "ci/cd", "code", "software development"]),
    Category("HR & Payroll", ["payroll", "hr ", "human resources", "hcm", "workforce"]),
    Category("CRM & Marketing", ["crm", "marketing", "customer", "salesforce", "hubspot"]),
    Category("Financial Software", ["financial", "accounting", "fintech", "payment", "billing"]),
    Category("Design & Engineering", ["cad", "plm", "simulation", "design", "engineering"]),
    Category("Collaboration", ["collaboration", "communication", "video", "meeting", "document"]),
    Category("AI & Machine Learning", ["ai ", "artificial intelligence", "machine learning", "ml "]),
    Category("Healthcare & Life Sciences", ["healthcare", "life sciences", "pharma", "medical", "clinical"])
  ]

  /** `kw` occurs in `text` at position `i`. */
  predicate OccursAt(text: string, kw: string, i: nat) {
    i + |kw| <= |text| && text[i..i + |kw|] == kw
  }

  /** `text.includes(kw)`. */
  function Includes(text: string, kw: string): (b: bool)
    ensures b <==> exists i :: 0 <= i <= |text| && OccursAt(text, kw, i)
    decreases |text|
  {
    if kw <= text then
      assert OccursAt(text, kw, 0);
      true
    else if text == [] then false
    else
      OccursShift(text, kw);
      Includes(text[1..], kw)
  }

  /** Past a non-matching first position, occurrences are those of the tail, shifted by one. */
  lemma OccursShift(text: string, kw: string)
    requires text != [] && !(kw <= text)
    ensures (exists i :: 0 <= i <= |text| && OccursAt(text, kw, i))
      <==> (exists i :: 0 <= i <= |text[1..]| && OccursAt(text[1..], kw, i))
  {
    if exists i :: 0 <= i <= |text[1..]| && OccursAt(text[1..], kw, i) {
      var i :| 0 <= i <= |text[1..]| && OccursAt(text[1..], kw, i);
      assert text[i + 1..i + 1 + |kw|] == text[1..][i..i + |kw|];
      assert OccursAt(text, kw, i + 1);
    }
    if exists i :: 0 <= i <= |text| && OccursAt(text, kw, i) {
      var i :| 0 <= i <= |text| && OccursAt(text, kw, i);
      if i > 0 {
        assert text[1..][i - 1..i - 1 + |kw|] == text[i..i + |kw|];
        assert OccursAt(text[1..], kw, i - 1);
      }
    }
  }

  /** An occurrence inside a part of a concatenation is an occurrence in the whole. */
  lemma IncludesConcat(a: string, b: string, kw: string)
    ensures Includes(a, kw) ==> Includes(a + b, kw)
    ensures Includes(b, kw) ==> Includes(a + b, kw)
  {
    if Includes(a, kw) {
      var i :| 0 <= i <= |a| && OccursAt(a, kw, i);
      assert (a + b)[i..i + |kw|] == a[i..i + |kw|];
      assert OccursAt(a + b, kw, i);
    }
    if Includes(b, kw) {
      var i :| 0 <= i <= |b| && OccursAt(b, kw, i);
      assert (a + b)[|a| + i..|a| + i + |kw|] == b[i..i + |kw|];
      assert OccursAt(a + b, kw, |a| + i);
    }
  }

  /** `parts.join(' ')`. */
  function JoinSpace(parts: seq<string>): string {
    if parts == [] then ""
    else if |parts| == 1 then parts[0]
    else parts[0] + " " + JoinSpace(parts[1..])
  }

  /** A keyword occurring in one of the parts occurs in the joined text. */
  lemma {:induction false} JoinSpaceIncludes(parts: seq<string>, j: nat, kw: string)
    requires j < |parts| && Includes(parts[j], kw)
    ensures Includes(JoinSpace(parts), kw)
    decreases |parts|
  {
    if |parts| > 1 {
      if j == 0 {
        IncludesConcat(parts[0], " " + JoinSpace(parts[1..]), kw);
        assert parts[0] + " " + JoinSpace(parts[1..]) == parts[0] + (" " + JoinSpace(parts[1..]));
      } else {
        JoinSpaceIncludes(parts[1..], j - 1, kw);
        IncludesConcat(parts[0] + " ", JoinSpace(parts[1..]), kw);
      }
    }
  }

  /** The lower-cased contexts of the year keys `ys`, in that order. */
  function Contexts(years: map<nat, YearData>, ys: seq<nat>): (cs: seq<string>)
    requires forall i :: 0 <= i < |ys| ==> ys[i] in years
    ensures |cs| == |ys|
    ensures forall i :: 0 <= i < |ys| ==> cs[i] == Lower(years[ys[i]].context)
  {
    seq(|ys|, i requires 0 <= i < |ys| => Lower(years[ys[i]].context))
  }

  /** The year table a classification reads; an entity without surveys has none. */
  function YearsOf(e: Entity): map<nat, YearData> {
    match e.role
    case Subject(_, years) => years
    case Mentioned(_) => map[]
  }

  /** `allText`: the lower-cased contexts of all survey years, ascending by year, joined with spaces. */
  function AllText(e: Entity): string {
    var years := YearsOf(e);
    JoinSpace(Contexts(years, SortedKeys(years)))
  }

  /** A keyword in any single year's lower-cased context is found in the subject's text. */
  lemma AllTextIncludes(e: Entity, y: nat, kw: string)
    requires y in YearsOf(e) && Includes(Lower(YearsOf(e)[y].context), kw)
    ensures Includes(AllText(e), kw)
  {
    var years := YearsOf(e);
    var ys := SortedKeys(years);
    var j :| 0 <= j < |ys| && ys[j] == y;
    JoinSpaceIncludes(Contexts(years, ys), j, kw);
  }

  /** Some keyword of `c` occurs in `text`. */
  predicate Hits(c: Category, text: string) {
    exists kw :: kw in c.keywords && Includes(text, kw)
  }

  /** `keywords.some(kw => allText.includes(kw))`. */
  function AnyKeyword(kws: seq<string>, text: string): (b: bool)
    ensures b <==> exists kw :: kw in kws && Includes(text, kw)
  {
    if kws == [] then false
    else
      var r := AnyKeyword(kws[1..], text);
      assert kws[0] in kws && forall kw :: kw in kws[1..] ==> kw in kws;
      assert forall kw :: kw in kws ==> kw == kws[0] || kw in kws[1..];
      Includes(text, kws[0]) || r
  }

  /**
   * The positions, ascending, of the categories from `k` on whose keywords hit
   * `text`: the `for ... of Object.entries(industryKeywords)` loop's pushes.
   */
  function HitsFrom(cats: seq<Category>, text: string, k: nat): (ix: seq<nat>)
    requires k <= |cats|
    ensures forall i :: 0 <= i < |ix| ==> k <= ix[i] < |cats| && Hits(cats[ix[i]], text)
    ensures forall i, j :: 0 <= i < j < |ix| ==> ix[i] < ix[j]
    ensures forall m :: k <= m < |cats| && Hits(cats[m], text) ==> m in ix
    decreases |cats| - k
  {
    if k == |cats| then []
    else
      var rest := HitsFrom(cats, text, k + 1);
      if AnyKeyword(cats[k].keywords, text) then [k] + rest else rest
  }

  /** The industry tags of one subject: the names of the hit categories, in table order. */
  function Tags(e: Entity): (tags: seq<string>)
    ensures var ix := HitsFrom(Table, AllText(e), 0);
      |tags| == |ix| && forall i :: 0 <= i < |ix| ==> tags[i] == Table[ix[i]].name
  {
    var ix := HitsFrom(Table, AllText(e), 0);
    seq(|ix|, i requires 0 <= i < |ix| => Table[ix[i]].name)
  }

  /**
   * A category is among a subject's tags exactly when one of its keywords is a
   * substring of the subject's text, and tags follow table order.
   */
  lemma TagsMeaning(e: Entity)
    ensures var ix := HitsFrom(Table, AllText(e), 0);
      && (forall m :: 0 <= m < |Table| ==> (m in ix <==> Hits(Table[m], AllText(e))))
      && (forall i, j :: 0 <= i < j < |ix| ==> ix[i] < ix[j])
      && Tags(e) == seq(|ix|, i requires 0 <= i < |ix| => Table[ix[i]].name)
  {
  }

  /** One subject's classification: its slug and its tags. */
  datatype Tagged = Tagged(slug: string, tags: seq<string>)

  function Classify(pubs: seq<Entity>): (ts: seq<Tagged>)
    ensures |ts| == |pubs|
  {
    seq(|pubs|, i requires 0 <= i < |pubs| => Tagged(pubs[i].slug, Tags(pubs[i])))
  }

  /** `companyIndustries[slug] = industries` for every non-empty tag list, in order. */
  function Collect(ts: seq<Tagged>): map<string, seq<string>>
    decreases |ts|
  {
    if ts == [] then map[]
    else
      var m := Collect(ts[..|ts| - 1]);
      var t := ts[|ts| - 1];
      if |t.tags| > 0 then m[t.slug := t.tags] else m
  }

  /** `inferIndustries` over the subjects in `publicCompanies` order. */
  function Infer(pubs: seq<Entity>): map<string, seq<string>> {
    Collect(Classify(pubs))
  }

  /** Position of the last entry with slug `slug` and a non-empty tag list, or -1. */
  function LastTagged(ts: seq<Tagged>, slug: string): (l: int)
    ensures -1 <= l < |ts|
    ensures 0 <= l ==> ts[l].slug == slug && ts[l].tags != []
    ensures forall j :: l < j < |ts| ==> !(ts[j].slug == slug && ts[j].tags != [])
    decreases |ts|
  {
    if ts == [] then -1
    else if ts[|ts| - 1].slug == slug && ts[|ts| - 1].tags != [] then |ts| - 1
    else LastTagged(ts[..|ts| - 1], slug)
  }

  /**
   * The classification holds a slug exactly when some entry with that slug
   * has a tag, and then holds the tags of the last such entry.
   */
  lemma {:induction false} CollectShape(ts: seq<Tagged>)
    ensures var m := Collect(ts);
      forall slug :: (slug in m <==> LastTagged(ts, slug) >= 0)
        && (slug in m ==> m[slug] == ts[LastTagged(ts, slug)].tags && m[slug] != [])
    decreases |ts|
  {
    if ts != [] {
      CollectShape(ts[..|ts| - 1]);
    }
  }

  /** Entry `i` of the classification is subject `i`'s slug and tags. */
  lemma ClassifyAt(pubs: seq<Entity>, i: nat)
    requires i < |pubs|
    ensures Classify(pubs)[i] == Tagged(pubs[i].slug, Tags(pubs[i]))
  {
  }

  /**
   * `inferIndustries`: a subject slug is classified exactly when some subject
   * with that slug has a tag, and then holds the tags of the last such subject;
   * slugs with no tags are absent.
   */
  lemma InferShape(pubs: seq<Entity>)
    ensures var ts := Classify(pubs); var m := Infer(pubs);
      forall slug :: (slug in m <==> LastTagged(ts, slug) >= 0)
        && (slug in m ==> m[slug] == Tags(pubs[LastTagged(ts, slug)]) && m[slug] != [])
  {
    var ts := Classify(pubs);
    CollectShape(ts);
    forall slug | LastTagged(ts, slug) >= 0 ensures ts[LastTagged(ts, slug)].tags == Tags(pubs[LastTagged(ts, slug)]) {
      ClassifyAt(pubs, LastTagged(ts, slug));
    }
  }
}
