/**
 * The viewer's selection of entities: the "public" and industry filters of
 * `renderCompanyList`, and the global search box, over the compiled entity
 * list and industry map.
 */
module ListFilters {
  import opened Wrappers
  import opened Names
  import opened Graph
  import Industries

  /** `Array.prototype.filter`: the entities satisfying `p`, in list order. */
  function Where(es: seq<Entity>, p: Entity -> bool): seq<Entity>
    decreases |es|
  {
    if es == [] then [] else (if p(es[0]) then [es[0]] else []) + Where(es[1..], p)
  }

  /** Filtering keeps each entity exactly as often as the list holds it when `p` accepts it, and drops it otherwise. */
  lemma {:induction false} WhereExact(es: seq<Entity>, p: Entity -> bool)
    ensures forall e :: multiset(Where(es, p))[e] == if p(e) then multiset(es)[e] else 0
    decreases |es|
  {
    if es != [] {
      WhereExact(es[1..], p);
      assert es == [es[0]] + es[1..];
    }
  }

  /** Filtering keeps list order: it distributes over concatenation. */
  lemma {:induction false} WhereAppend(a: seq<Entity>, b: seq<Entity>, p: Entity -> bool)
    ensures Where(a + b, p) == Where(a, p) + Where(b, p)
    decreases |a|
  {
    if a == [] {
      assert a + b == b;
    } else {
      var h := if p(a[0]) then [a[0]] else [];
      assert (a + b)[0] == a[0] && (a + b)[1..] == a[1..] + b;
      assert Where(a + b, p) == h + Where(a[1..] + b, p);
      WhereAppend(a[1..], b, p);
      ConcatAssoc(Where(a + b, p), h, Where(a[1..], p), Where(b, p));
    }
  }

  /** Every kept entity satisfies the predicate. */
  lemma {:induction false} WhereSatisfies(es: seq<Entity>, p: Entity -> bool)
    ensures forall i :: 0 <= i < |Where(es, p)| ==> p(Where(es, p)[i])
    decreases |es|
  {
    if es != [] {
      WhereSatisfies(es[1..], p);
      var head := if p(es[0]) then [es[0]] else [];
      var rest := Where(es[1..], p);
      forall i | 0 <= i < |head + rest| ensures p((head + rest)[i]) {
        if i >= |head| {
          assert (head + rest)[i] == rest[i - |head|];
        }
      }
    }
  }

  /** `state.filter === 'public'` keeps the entities with `isPublic`. */
  function PublicOnly(es: seq<Entity>): (r: seq<Entity>)
    ensures forall e :: multiset(r)[e] == if e.IsPublic() then multiset(es)[e] else 0
  {
    WhereExact(es, (e: Entity) => e.IsPublic());
    Where(es, (e: Entity) => e.IsPublic())
  }

  /** `COMPETITOR_DATA.industries[slug] || []`, reading only the map's own entries. */
  function IndustriesOf(industries: map<string, seq<string>>, slug: string): seq<string> {
    if slug in industries then industries[slug] else []
  }

  /** The industry filter: entities whose industry list contains `tag`. */
  function InIndustry(es: seq<Entity>, industries: map<string, seq<string>>, tag: string): (r: seq<Entity>)
    ensures forall e ::
      multiset(r)[e] == if e.slug in industries && tag in industries[e.slug] then multiset(es)[e] else 0
  {
    WhereExact(es, (e: Entity) => tag in IndustriesOf(industries, e.slug));
    Where(es, (e: Entity) => tag in IndustriesOf(industries, e.slug))
  }

  /**
   * The two filters of `renderCompanyList`, before the name sort: the public
   * filter when `filter` is "public", then the industry filter when an
   * industry is chosen (a non-empty tag).
   */
  function Listed(es: seq<Entity>, industries: map<string, seq<string>>, filter: string, tag: string): seq<Entity> {
    var a := if filter == "public" then PublicOnly(es) else es;
    if tag != "" then InIndustry(a, industries, tag) else a
  }

  /** An entity is listed exactly when it passes every active filter; multiplicities are kept. */
  lemma ListedExact(es: seq<Entity>, industries: map<string, seq<string>>, filter: string, tag: string)
    ensures forall e ::
      multiset(Listed(es, industries, filter, tag))[e] ==
        if (filter == "public" ==> e.IsPublic()) && (tag != "" ==> e.slug in industries && tag in industries[e.slug])
        then multiset(es)[e] else 0
  {
  }

  /**
   * Whether looking up `e`'s industries in the plain object reads an
   * inherited member instead of an own entry.
   */
  predicate ReadsInherited(industries: map<string, seq<string>>, e: Entity) {
    e.slug !in industries && e.slug in Inherited
  }

  /**
   * The industry filter as written: the lookup goes through the plain object,
   * so a slug that is not an own key but an inherited name reads a function,
   * and calling `.includes` on it throws; `None` is that `TypeError`.
   */
  function InIndustryAsWritten(es: seq<Entity>, industries: map<string, seq<string>>, tag: string): Option<seq<Entity>>
    decreases |es|
  {
    if es == [] then Some([])
    else if ReadsInherited(industries, es[0]) then None
    else
      match InIndustryAsWritten(es[1..], industries, tag)
      case None => None
      case Some(rest) => Some((if tag in IndustriesOf(industries, es[0].slug) then [es[0]] else []) + rest)
  }

  /**
   * As written, the industry filter throws exactly when some listed entity's
   * slug is an inherited name without its own entry, and otherwise agrees
   * with `InIndustry`.
   */
  lemma InIndustryAsWrittenThrows(es: seq<Entity>, industries: map<string, seq<string>>, tag: string)
    ensures InIndustryAsWritten(es, industries, tag).None? <==>
      exists j :: 0 <= j < |es| && es[j].slug !in industries && es[j].slug in Inherited
    ensures InIndustryAsWritten(es, industries, tag).Some? ==>
      InIndustryAsWritten(es, industries, tag).value == InIndustry(es, industries, tag)
  {
    AsWrittenNone(es, industries, tag);
    AsWrittenSome(es, industries, tag);
  }

  lemma {:induction false} AsWrittenNone(es: seq<Entity>, industries: map<string, seq<string>>, tag: string)
    ensures InIndustryAsWritten(es, industries, tag).None? <==>
      exists j :: 0 <= j < |es| && ReadsInherited(industries, es[j])
    decreases |es|
  {
    if es != [] {
      AsWrittenNone(es[1..], industries, tag);
      if ReadsInherited(industries, es[0]) {
        assert ReadsInherited(industries, es[0]);
      } else {
        forall j | 0 < j < |es| ensures es[j] == es[1..][j - 1] { }
        assert forall j :: 0 <= j < |es| && ReadsInherited(industries, es[j]) ==> j > 0;
      }
    }
  }

  lemma {:induction false} AsWrittenSome(es: seq<Entity>, industries: map<string, seq<string>>, tag: string)
    ensures InIndustryAsWritten(es, industries, tag).Some? ==>
      InIndustryAsWritten(es, industries, tag).value == InIndustry(es, industries, tag)
    decreases |es|
  {
    if es != [] && !ReadsInherited(industries, es[0]) {
      AsWrittenSome(es[1..], industries, tag);
    }
  }

  /** A non-public entity named "Constructor" in the list makes the as-written industry filter throw. */
  lemma ConstructorFilterThrows()
    ensures var e := Entity("constructor", "Constructor", Mentioned(map[]), [], []);
      && InIndustryAsWritten([e], map["acme" := ["Cybersecurity"]], "Cybersecurity").None?
      && InIndustry([e], map["acme" := ["Cybersecurity"]], "Cybersecurity") == []
  {
    var e := Entity("constructor", "Constructor", Mentioned(map[]), [], []);
    assert InIndustry([e], map["acme" := ["Cybersecurity"]], "Cybersecurity") == [] by {
      assert multiset(InIndustry([e], map["acme" := ["Cybersecurity"]], "Cybersecurity"))[e] == 0;
      assert forall x :: x != e ==> multiset([e])[x] == 0;
    }
  }

  /** The number of results the search box shows at most. */
  const MaxResults: nat := 8

  /** `query.length < 2` hides the results. */
  const MinQuery: nat := 2

  /** Whether the entity matches a lower-cased query: by name, or by a truthy ticker. */
  predicate Matches(e: Entity, query: string) {
    || Industries.Includes(Lower(e.name), query)
    || (e.Ticker().Some? && e.Ticker().value != "" && Industries.Includes(Lower(e.Ticker().value), query))
  }

  /** `input.toLowerCase().trim()`. */
  function Query(input: string): string {
    Trim(Lower(input))
  }

  /** The entities matching a query, in list order: each matching entity as often as the list holds it, and nothing else. */
  function Matching(es: seq<Entity>, query: string): (r: seq<Entity>)
    ensures forall i :: 0 <= i < |r| ==> Matches(r[i], query)
    ensures forall e :: multiset(r)[e] == if Matches(e, query) then multiset(es)[e] else 0
  {
    WhereSatisfies(es, (e: Entity) => Matches(e, query));
    WhereExact(es, (e: Entity) => Matches(e, query));
    Where(es, (e: Entity) => Matches(e, query))
  }

  /** `slice(0, n)`. */
  function Take(s: seq<Entity>, n: nat): (r: seq<Entity>)
    ensures |r| == if |s| < n then |s| else n
    ensures r <= s
  {
    s[..if |s| < n then |s| else n]
  }

  /** The results of the search box for what was typed. */
  function Search(es: seq<Entity>, input: string): (r: seq<Entity>)
    ensures |Query(input)| < MinQuery ==> r == []
    ensures |r| <= MaxResults
    ensures forall i :: 0 <= i < |r| ==> Matches(r[i], Query(input))
  {
    var q := Query(input);
    if |q| < MinQuery then [] else Take(Matching(es, q), MaxResults)
  }

  /**
   * A query of two or more characters shows the first eight matching
   * entities in list order, and every match when there are fewer.
   */
  lemma SearchFirstMatches(es: seq<Entity>, input: string)
    ensures var q := Query(input); var all := Matching(es, q); var r := Search(es, input);
      |q| >= MinQuery ==>
        && r <= all
        && (|all| <= MaxResults ==> r == all)
        && (|all| > MaxResults ==> |r| == MaxResults)
  {
  }

  /** The matches in a concatenation are the matches in each part, in order. */
  lemma MatchingAppend(a: seq<Entity>, b: seq<Entity>, query: string)
    ensures Matching(a + b, query) == Matching(a, query) + Matching(b, query)
  {
    WhereAppend(a, b, (e: Entity) => Matches(e, query));
  }

  /** Extending the list only adds results after those of the shorter list. */
  lemma SearchPrefix(es: seq<Entity>, more: seq<Entity>, input: string)
    ensures Search(es, input) <= Search(es + more, input)
  {
    var q := Query(input);
    if |q| >= MinQuery {
      MatchingAppend(es, more, q);
      TakeAppend(Matching(es, q), Matching(more, q), MaxResults);
    }
  }

  lemma TakeAppend(a: seq<Entity>, b: seq<Entity>, n: nat)
    ensures Take(a, n) <= Take(a + b, n)
  {
    var k := |Take(a, n)|;
    assert forall i :: 0 <= i < k ==> Take(a + b, n)[i] == (a + b)[i] == a[i] == Take(a, n)[i];
  }
}
