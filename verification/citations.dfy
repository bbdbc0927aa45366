/**
 * `renderCitations`'s grouping of an entity's `mentionedBy` entries: one group
 * per mentioning slug, holding that slug's first entry and the years of all
 * its entries.
 *
 * The viewer keys the groups by slug in a plain object literal, so a slug that
 * names a property every object inherits reads that property instead of a
 * missing group. `GroupAsWritten` models that lookup; `GroupBySlug` is the
 * grouping the loop is evidently meant to compute.
 */
module Citations {
  import opened Wrappers
  import opened Names
  import opened Graph

  /** `{ ...m, years: [...] }`: the first entry of a slug and the years collected for it. */
  datatype Group = Group(first: Citation, years: seq<nat>)

  /** The position of the group for this slug, or `|gs|` when there is none. */
  function GroupIndex(gs: seq<Group>, slug: string): (k: nat)
    ensures k <= |gs|
    ensures k < |gs| ==> gs[k].first.slug == slug
    ensures forall j :: 0 <= j < k ==> gs[j].first.slug != slug
  {
    if gs == [] then 0
    else if gs[0].first.slug == slug then 0
    else 1 + GroupIndex(gs[1..], slug)
  }

  /** One turn of the `forEach`: create the slug's group if missing, then push the year. */
  function AddMention(gs: seq<Group>, m: Citation): seq<Group> {
    var k := GroupIndex(gs, m.slug);
    if k == |gs| then gs + [Group(m, [m.year])]
    else gs[k := gs[k].(years := gs[k].years + [m.year])]
  }

  /** The grouping with a lookup that finds only groups it created. */
  function GroupBySlug(ms: seq<Citation>): seq<Group>
    decreases |ms|
  {
    if ms == [] then [] else AddMention(GroupBySlug(ms[..|ms| - 1]), ms[|ms| - 1])
  }

  /** The position of the first entry with this slug, or `|ms|`. */
  function FirstWith(ms: seq<Citation>, slug: string): (k: nat)
    ensures k <= |ms|
    ensures k < |ms| ==> ms[k].slug == slug
    ensures forall j :: 0 <= j < k ==> ms[j].slug != slug
    decreases |ms|
  {
    if ms == [] then 0
    else
      var k := FirstWith(ms[..|ms| - 1], slug);
      if k < |ms| - 1 then k else if ms[|ms| - 1].slug == slug then |ms| - 1 else |ms|
  }

  /** The years of the entries with this slug, in entry order. */
  function YearsWith(ms: seq<Citation>, slug: string): (ys: seq<nat>)
    ensures |ys| <= |ms|
    decreases |ms|
  {
    if ms == [] then []
    else YearsWith(ms[..|ms| - 1], slug) + (if ms[|ms| - 1].slug == slug then [ms[|ms| - 1].year] else [])
  }

  /** The groups' slugs are pairwise different. */
  predicate DistinctGroups(gs: seq<Group>) {
    forall i, j :: 0 <= i < j < |gs| ==> gs[i].first.slug != gs[j].first.slug
  }

  /** Each group is its slug's first entry with all of that slug's years. */
  predicate Faithful(gs: seq<Group>, ms: seq<Citation>) {
    forall i :: 0 <= i < |gs| ==>
      && FirstWith(ms, gs[i].first.slug) < |ms|
      && gs[i].first == ms[FirstWith(ms, gs[i].first.slug)]
      && gs[i].years == YearsWith(ms, gs[i].first.slug)
  }

  /** Every mentioning slug has a group. */
  predicate Covers(gs: seq<Group>, ms: seq<Citation>) {
    forall j :: 0 <= j < |ms| ==> GroupIndex(gs, ms[j].slug) < |gs|
  }

  lemma FirstWithSnoc(ms: seq<Citation>, m: Citation, slug: string)
    ensures FirstWith(ms + [m], slug) ==
      if FirstWith(ms, slug) < |ms| then FirstWith(ms, slug) else if m.slug == slug then |ms| else |ms| + 1
  {
    assert (ms + [m])[..|ms|] == ms;
  }

  lemma YearsWithSnoc(ms: seq<Citation>, m: Citation, slug: string)
    ensures YearsWith(ms + [m], slug) == YearsWith(ms, slug) + (if m.slug == slug then [m.year] else [])
  {
    assert (ms + [m])[..|ms|] == ms;
  }

  /** A slug with no entry has no years. */
  lemma {:induction false} YearsWithNone(ms: seq<Citation>, slug: string)
    requires FirstWith(ms, slug) == |ms|
    ensures YearsWith(ms, slug) == []
    decreases |ms|
  {
    if ms != [] {
      YearsWithNone(ms[..|ms| - 1], slug);
    }
  }

  /** A slug with a group is found at or before that group. */
  lemma GroupIndexBound(gs: seq<Group>, slug: string, i: nat)
    requires i < |gs| && gs[i].first.slug == slug
    ensures GroupIndex(gs, slug) <= i
  {
    if gs[0].first.slug != slug {
      GroupIndexBound(gs[1..], slug, i - 1);
    }
  }

  lemma CoversAt(gs: seq<Group>, ms: seq<Citation>, j: nat)
    ensures Covers(gs, ms) && j < |ms| ==> GroupIndex(gs, ms[j].slug) < |gs|
  {
  }

  /** Under covering, a slug without a group has no entry yet. */
  lemma Unseen(gs: seq<Group>, ms: seq<Citation>, slug: string)
    requires Covers(gs, ms) && GroupIndex(gs, slug) == |gs|
    ensures FirstWith(ms, slug) == |ms| && YearsWith(ms, slug) == []
  {
    CoversAt(gs, ms, FirstWith(ms, slug));
    YearsWithNone(ms, slug);
  }

  lemma AddMentionDistinct(gs: seq<Group>, m: Citation)
    requires DistinctGroups(gs)
    ensures DistinctGroups(AddMention(gs, m))
  {
  }

  lemma AddMentionCovers(gs: seq<Group>, ms: seq<Citation>, m: Citation)
    requires Covers(gs, ms)
    ensures Covers(AddMention(gs, m), ms + [m])
  {
    var gs' := AddMention(gs, m);
    var k := GroupIndex(gs, m.slug);
    forall j | 0 <= j < |ms| + 1 ensures GroupIndex(gs', (ms + [m])[j].slug) < |gs'| {
      if j < |ms| {
        var g := GroupIndex(gs, ms[j].slug);
        assert gs'[g].first.slug == gs[g].first.slug;
        GroupIndexBound(gs', ms[j].slug, g);
      } else {
        GroupIndexBound(gs', m.slug, k);
      }
    }
  }

  lemma AddMentionFaithful(gs: seq<Group>, ms: seq<Citation>, m: Citation)
    requires DistinctGroups(gs) && Faithful(gs, ms) && Covers(gs, ms)
    ensures Faithful(AddMention(gs, m), ms + [m])
  {
    var ms' := ms + [m];
    var gs' := AddMention(gs, m);
    var k := GroupIndex(gs, m.slug);
    forall i | 0 <= i < |gs'|
      ensures FirstWith(ms', gs'[i].first.slug) < |ms'|
      ensures gs'[i].first == ms'[FirstWith(ms', gs'[i].first.slug)]
      ensures gs'[i].years == YearsWith(ms', gs'[i].first.slug)
    {
      var s := gs'[i].first.slug;
      FirstWithSnoc(ms, m, s);
      YearsWithSnoc(ms, m, s);
      if i < |gs| {
        assert gs'[i].first == gs[i].first;
        assert ms'[FirstWith(ms, s)] == ms[FirstWith(ms, s)];
        if i == k {
          assert gs'[i].years == gs[i].years + [m.year];
        } else {
          assert s != m.slug;
          assert gs'[i] == gs[i];
        }
      } else {
        Unseen(gs, ms, m.slug);
      }
    }
  }

  /** The grouping is distinct, faithful and covering for every list of entries. */
  lemma {:induction false} GroupBySlugSpec(ms: seq<Citation>)
    ensures var gs := GroupBySlug(ms);
      && DistinctGroups(gs)
      && Faithful(gs, ms)
      && Covers(gs, ms)
    decreases |ms|
  {
    if ms != [] {
      var init := ms[..|ms| - 1];
      GroupBySlugSpec(init);
      assert ms == init + [ms[|ms| - 1]];
      var gs := GroupBySlug(init);
      AddMentionDistinct(gs, ms[|ms| - 1]);
      AddMentionCovers(gs, init, ms[|ms| - 1]);
      AddMentionFaithful(gs, init, ms[|ms| - 1]);
    }
  }

  /** The number of years over all groups. */
  function TotalYears(gs: seq<Group>): nat {
    if gs == [] then 0 else |gs[0].years| + TotalYears(gs[1..])
  }

  lemma {:induction false} TotalYearsAppend(gs: seq<Group>, g: Group)
    ensures TotalYears(gs + [g]) == TotalYears(gs) + |g.years|
    decreases |gs|
  {
    if gs != [] {
      assert (gs + [g])[1..] == gs[1..] + [g];
      TotalYearsAppend(gs[1..], g);
    } else {
      assert [g][1..] == [];
    }
  }

  lemma {:induction false} TotalYearsUpdate(gs: seq<Group>, k: nat, g: Group)
    requires k < |gs|
    ensures TotalYears(gs[k := g]) == TotalYears(gs) - |gs[k].years| + |g.years|
    decreases |gs|
  {
    if k > 0 {
      assert gs[k := g][1..] == gs[1..][k - 1 := g];
      TotalYearsUpdate(gs[1..], k - 1, g);
    } else {
      assert gs[k := g][1..] == gs[1..];
    }
  }

  /** Every entry contributes exactly one year: the groups hold `mentions.length` years in all. */
  lemma {:induction false} GroupBySlugCount(ms: seq<Citation>)
    ensures TotalYears(GroupBySlug(ms)) == |ms|
    decreases |ms|
  {
    if ms != [] {
      var init := ms[..|ms| - 1];
      var m := ms[|ms| - 1];
      GroupBySlugCount(init);
      var gs := GroupBySlug(init);
      var k := GroupIndex(gs, m.slug);
      if k == |gs| {
        TotalYearsAppend(gs, Group(m, [m.year]));
      } else {
        TotalYearsUpdate(gs, k, gs[k].(years := gs[k].years + [m.year]));
      }
    }
  }

  /**
   * The loop as written, over `grouped = {}`: for an inherited slug the
   * `!grouped[m.slug]` test sees the inherited value, creates no group, and
   * `grouped[m.slug].years.push` throws; `None` is that `TypeError`.
   */
  function GroupAsWritten(ms: seq<Citation>): Option<seq<Group>>
    decreases |ms|
  {
    if ms == [] then Some([])
    else
      match GroupAsWritten(ms[..|ms| - 1])
      case None => None
      case Some(gs) => if ms[|ms| - 1].slug in Inherited then None else Some(AddMention(gs, ms[|ms| - 1]))
  }

  /** As written, the grouping throws exactly when some entry's slug is inherited, and is `GroupBySlug` otherwise. */
  lemma {:induction false} GroupAsWrittenThrows(ms: seq<Citation>)
    ensures GroupAsWritten(ms).None? <==> exists j :: 0 <= j < |ms| && ms[j].slug in Inherited
    ensures GroupAsWritten(ms).Some? ==> GroupAsWritten(ms).value == GroupBySlug(ms)
    decreases |ms|
  {
    if ms != [] {
      var init := ms[..|ms| - 1];
      GroupAsWrittenThrows(init);
      assert forall j :: 0 <= j < |init| ==> init[j] == ms[j];
    }
  }

  /** The compiler gives a subject named "Constructor" the slug "constructor". */
  lemma ConstructorSlug()
    ensures Slug("Constructor") == "constructor"
  {
    assert Lower("Constructor") == "constructor";
    SlugOfWord("Constructor");
  }

  /**
   * One mention by the subject "Constructor" makes the as-written grouping
   * throw, where the intended grouping yields one group.
   */
  lemma ConstructorThrows()
    ensures var m := Citation("constructor", "Constructor", "CSTR", 2023, "");
      && GroupAsWritten([m]).None?
      && GroupBySlug([m]) == [Group(m, [2023])]
  {
    var m := Citation("constructor", "Constructor", "CSTR", 2023, "");
    assert [m][..0] == [];
  }
}
