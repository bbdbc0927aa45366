/**
 * The data the compiler reads and builds: parsed survey records, entities,
 * relationships, and the ascending walk over integer-keyed year tables.
 */
module Graph {
  import opened Wrappers
  import opened Names

  /** One `{name, notes}` element of a survey's `competitors` list. */
  datatype Mention = Mention(name: string, notes: string)

  /**
   * One parsed survey file. Missing `sources` and `competitors` lists are read
   * as empty, as the compiler's `|| []` defaults do.
   */
  datatype SurveyRecord = SurveyRecord(
    company: string,
    ticker: string,
    year: nat,
    query: string,
    date: string,
    context: string,
    sources: seq<string>,
    competitors: seq<Mention>)

  /** The content stored under `years[year]` of a survey subject. */
  datatype YearData = YearData(
    query: string,
    date: string,
    context: string,
    sources: seq<string>,
    competitors: seq<Mention>)

  /** One `mentionedBy` entry: which subject named this entity, and in which year. */
  datatype Citation = Citation(slug: string, name: string, ticker: string, year: nat, notes: string)

  /** One entry of a non-public entity's `notes[year]` list. */
  datatype Note = Note(from: string, note: string)

  /** The lightweight reference stored in a subject's `competitors` list. */
  datatype CompetitorRef = CompetitorRef(slug: string, name: string, ticker: Option<string>, isPublic: bool)

  /**
   * What kind of node an entity is: a survey subject (public, with a ticker and
   * per-year survey content) or an entity only ever mentioned by others
   * (non-public, `ticker` null, with per-year notes).
   */
  datatype Role =
    | Subject(ticker: string, years: map<nat, YearData>)
    | Mentioned(notes: map<nat, seq<Note>>)

  datatype Entity = Entity(
    slug: string,
    name: string,
    role: Role,
    mentionedBy: seq<Citation>,
    competitors: seq<CompetitorRef>)
  {
    predicate IsPublic() {
      role.Subject?
    }

    function Ticker(): (t: Option<string>)
      ensures t.Some? <==> IsPublic()
    {
      if role.Subject? then Some(role.ticker) else None
    }
  }

  /** Every entity's slug is `createSlug` of its name. */
  ghost predicate SlugsOfNames(es: seq<Entity>) {
    forall i :: 0 <= i < |es| ==> es[i].slug == Slug(es[i].name)
  }

  /** One edge `{source, target, year, notes}` of the flat relationship list. */
  datatype Relationship = Relationship(source: string, target: string, year: nat, notes: string)

  /** Position of the first entity with slug `slug` in `es`, or `|es|`: a lookup by slug. */
  function SlugIndex(es: seq<Entity>, slug: string): (i: nat)
    ensures i <= |es|
    ensures i < |es| ==> es[i].slug == slug
    ensures forall j :: 0 <= j < i ==> es[j].slug != slug
  {
    if es == [] then 0
    else if es[0].slug == slug then 0
    else 1 + SlugIndex(es[1..], slug)
  }

  /** `k` is the least element of `s`. */
  predicate IsLeast(s: set<nat>, k: nat) {
    k in s && forall k' :: k' in s ==> k <= k'
  }

  lemma {:induction false} LeastExists(s: set<nat>)
    requires s != {}
    ensures exists k :: IsLeast(s, k)
    decreases s
  {
    var k :| k in s;
    var rest := s - {k};
    if rest != {} {
      LeastExists(rest);
      var j :| IsLeast(rest, j);
      assert forall k' :: k' in s ==> k' == k || k' in rest;
      if j < k {
        assert IsLeast(s, j);
      } else {
        assert IsLeast(s, k);
      }
    } else {
      assert s == rest + {k};
      assert IsLeast(s, k);
    }
  }

  /** The elements of `s` in ascending order. */
  function Ascending(s: set<nat>): (ks: seq<nat>)
    ensures forall k :: k in s <==> k in ks
    ensures forall i, j :: 0 <= i < j < |ks| ==> ks[i] < ks[j]
    decreases s
  {
    if s == {} then []
    else
      LeastExists(s);
      var k :| IsLeast(s, k);
      var rest := s - {k};
      var tail := Ascending(rest);
      assert forall j :: 0 <= j < |tail| ==> tail[j] in rest;
      [k] + tail
  }

  /**
   * The keys of an integer-keyed object in the order `Object.entries` and
   * `Object.values` visit them: ascending numerically.
   */
  function SortedKeys<V>(m: map<nat, V>): (ks: seq<nat>)
    ensures forall k :: k in m <==> k in ks
    ensures forall i, j :: 0 <= i < j < |ks| ==> ks[i] < ks[j]
  {
    Ascending(m.Keys)
  }

  /** The names a plain object inherits from `Object.prototype`; each reads as a truthy value. */
  const Inherited: set<string> := {
    "constructor", "hasOwnProperty", "isPrototypeOf", "propertyIsEnumerable",
    "toLocaleString", "toString", "valueOf", "__proto__",
    "__defineGetter__", "__defineSetter__", "__lookupGetter__", "__lookupSetter__"
  }
}
