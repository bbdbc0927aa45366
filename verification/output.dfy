/**
 * The entity list `compileData` writes: `allEntities` (a `Map` keyed by slug,
 * filled with the survey subjects, then with the non-public entities in
 * creation order) sorted by the output comparator, and the `meta` counts
 * derived from it.
 */
module OutputOrder {
  import opened Graph

  /**
   * `allEntities.set(e.slug, e)`: a new slug is appended; an existing one keeps
   * its position and takes the new value.
   */
  function SetBySlug(es: seq<Entity>, e: Entity): (es': seq<Entity>)
    ensures |es| <= |es'| <= |es| + 1
    ensures |es'| > |es| <==> SlugIndex(es, e.slug) == |es|
    ensures forall j :: 0 <= j < |es| ==> es'[j].slug == es[j].slug
    ensures forall j :: 0 <= j < |es| && j != SlugIndex(es, e.slug) ==> es'[j] == es[j]
    ensures e in es'
  {
    var i := SlugIndex(es, e.slug);
    if i < |es| then es[i := e] else es + [e]
  }

  /**
   * `Map.set` followed by `Map.get`: the slug just set reads the new entity;
   * every other slug is found exactly when it was found before, at the same
   * position, with the same entity.
   */
  lemma SetBySlugGet(es: seq<Entity>, e: Entity, slug: string)
    ensures var es' := SetBySlug(es, e); var i := SlugIndex(es', slug);
      && (slug == e.slug ==> i < |es'| && es'[i] == e)
      && (slug != e.slug ==> (i < |es'| <==> SlugIndex(es, slug) < |es|))
      && (slug != e.slug && i < |es'| ==> i == SlugIndex(es, slug) && es'[i] == es[i])
  {
    var es' := SetBySlug(es, e);
    if SlugIndex(es, e.slug) < |es| {
      SlugIndexSameSlugs(es, es', slug);
    } else {
      SlugIndexPrefix(es, e, slug);
    }
  }

  /** The values of `allEntities` after the subjects are added, in `Map` iteration order. */
  function PublicEntries(pubs: seq<Entity>): seq<Entity>
    decreases |pubs|
  {
    if pubs == [] then [] else SetBySlug(PublicEntries(pubs[..|pubs| - 1]), pubs[|pubs| - 1])
  }

  /** No two entities share a slug. */
  ghost predicate DistinctSlugs(es: seq<Entity>) {
    forall i, j :: 0 <= i < j < |es| ==> es[i].slug != es[j].slug
  }

  /** `e` is the last element of `pubs` with its slug. */
  ghost predicate LastWithSlug(pubs: seq<Entity>, e: Entity) {
    exists i :: 0 <= i < |pubs| && pubs[i] == e && forall k :: i < k < |pubs| ==> pubs[k].slug != e.slug
  }

  lemma SlugIndexDistinct(es: seq<Entity>, j: nat)
    requires DistinctSlugs(es) && j < |es|
    ensures SlugIndex(es, es[j].slug) == j
  {
  }

  /**
   * Map semantics of the public part of `allEntities`: the slugs are distinct,
   * and a slug has an entry exactly when some subject has it.
   */
  lemma {:induction false} PublicEntriesSlugs(pubs: seq<Entity>)
    ensures var out := PublicEntries(pubs);
      && DistinctSlugs(out)
      && forall slug :: SlugIndex(out, slug) < |out| <==> SlugIndex(pubs, slug) < |pubs|
    decreases |pubs|
  {
    if pubs != [] {
      var prev := pubs[..|pubs| - 1];
      var e := pubs[|pubs| - 1];
      assert pubs == prev + [e];
      PublicEntriesSlugs(prev);
      var before := PublicEntries(prev);
      var out := PublicEntries(pubs);
      assert out == SetBySlug(before, e);
      if |out| == |before| {
        forall slug ensures SlugIndex(out, slug) < |out| <==> SlugIndex(pubs, slug) < |pubs| {
          SlugIndexSameSlugs(before, out, slug);
          SlugIndexPrefix(prev, e, slug);
        }
      } else {
        forall slug ensures SlugIndex(out, slug) < |out| <==> SlugIndex(pubs, slug) < |pubs| {
          SlugIndexPrefix(before, e, slug);
          SlugIndexPrefix(prev, e, slug);
        }
        forall j | 0 <= j < |before| ensures before[j].slug != e.slug {
          SlugIndexDistinct(before, j);
        }
      }
    }
  }


  /** Each entry of the public part holds the last subject with its slug. */
  lemma {:induction false} PublicEntriesLast(pubs: seq<Entity>)
    ensures var out := PublicEntries(pubs);
      forall j :: 0 <= j < |out| ==> LastWithSlug(pubs, out[j])
    decreases |pubs|
  {
    if pubs != [] {
      var prev := pubs[..|pubs| - 1];
      var e := pubs[|pubs| - 1];
      assert pubs == prev + [e];
      PublicEntriesLast(prev);
      PublicEntriesSlugs(prev);
      var before := PublicEntries(prev);
      var out := PublicEntries(pubs);
      assert out == SetBySlug(before, e);
      forall j | 0 <= j < |out| ensures LastWithSlug(pubs, out[j]) {
        if out[j] == e {
          assert pubs[|pubs| - 1] == e;
        } else {
          SetBySlugKeeps(before, e, j);
          LastWithSlugSnoc(prev, e, before[j]);
        }
      }
    }
  }

  /** An entry that `Map.set` did not overwrite is unchanged and has another slug. */
  lemma SetBySlugKeeps(es: seq<Entity>, e: Entity, j: nat)
    requires DistinctSlugs(es) && j < |SetBySlug(es, e)| && SetBySlug(es, e)[j] != e
    ensures j < |es| && SetBySlug(es, e)[j] == es[j] && es[j].slug != e.slug
  {
    if j < |es| && es[j].slug == e.slug {
      SlugIndexDistinct(es, j);
    }
  }

  /** Appending an entity with another slug keeps an element the last with its slug. */
  lemma LastWithSlugSnoc(pubs: seq<Entity>, e: Entity, x: Entity)
    requires LastWithSlug(pubs, x) && x.slug != e.slug
    ensures LastWithSlug(pubs + [e], x)
  {
    var i :| 0 <= i < |pubs| && pubs[i] == x && forall k :: i < k < |pubs| ==> pubs[k].slug != x.slug;
    assert (pubs + [e])[i] == x;
  }

  /** The entries' slugs are first seen among the subjects in entry order. */
  ghost predicate InFirstSeenOrder(pubs: seq<Entity>, out: seq<Entity>) {
    forall j, j' :: 0 <= j < j' < |out| ==> SlugIndex(pubs, out[j].slug) < SlugIndex(pubs, out[j'].slug)
  }

  /** Entries of the public part appear in the order their slugs are first seen among the subjects. */
  lemma {:induction false} PublicEntriesOrder(pubs: seq<Entity>)
    ensures InFirstSeenOrder(pubs, PublicEntries(pubs))
    decreases |pubs|
  {
    if pubs != [] {
      var prev := pubs[..|pubs| - 1];
      var e := pubs[|pubs| - 1];
      PublicEntriesOrder(prev);
      EntriesSeen(prev);
      if SlugIndex(PublicEntries(prev), e.slug) == |PublicEntries(prev)| {
        NewSlugUnseen(prev, e.slug);
      }
      OrderSnoc(pubs, PublicEntries(prev), PublicEntries(pubs));
    }
  }

  /** Every entry's slug is the slug of some subject. */
  lemma EntriesSeen(pubs: seq<Entity>)
    ensures var out := PublicEntries(pubs);
      forall j :: 0 <= j < |out| ==> SlugIndex(pubs, out[j].slug) < |pubs|
  {
    PublicEntriesSlugs(pubs);
    var out := PublicEntries(pubs);
    forall j | 0 <= j < |out| ensures SlugIndex(pubs, out[j].slug) < |pubs| {
      assert SlugIndex(out, out[j].slug) <= j;
    }
  }

  /** A slug without an entry is the slug of no subject. */
  lemma NewSlugUnseen(pubs: seq<Entity>, slug: string)
    requires SlugIndex(PublicEntries(pubs), slug) == |PublicEntries(pubs)|
    ensures SlugIndex(pubs, slug) == |pubs|
  {
    PublicEntriesSlugs(pubs);
  }

  /** One `Map.set` keeps the entries in first-seen order. */
  lemma OrderSnoc(pubs: seq<Entity>, before: seq<Entity>, out: seq<Entity>)
    requires pubs != []
    requires var prev := pubs[..|pubs| - 1]; var e := pubs[|pubs| - 1];
      && InFirstSeenOrder(prev, before)
      && (forall j :: 0 <= j < |before| ==> SlugIndex(prev, before[j].slug) < |prev|)
      && |before| <= |out| <= |before| + 1
      && (forall j :: 0 <= j < |before| ==> out[j].slug == before[j].slug)
      && (|out| > |before| ==> out[|before|] == e && SlugIndex(prev, e.slug) == |prev|)
    ensures InFirstSeenOrder(pubs, out)
  {
    var prev := pubs[..|pubs| - 1];
    var e := pubs[|pubs| - 1];
    assert pubs == prev + [e];
    forall j | 0 <= j < |before| ensures SlugIndex(pubs, before[j].slug) == SlugIndex(prev, before[j].slug) < |prev| {
      SlugIndexPrefix(prev, e, before[j].slug);
    }
    if |out| > |before| {
      SlugIndexPrefix(prev, e, e.slug);
    }
    forall j, j' | 0 <= j < j' < |out| ensures SlugIndex(pubs, out[j].slug) < SlugIndex(pubs, out[j'].slug) {
      assert out[j].slug == before[j].slug;
      if j' < |before| {
        assert out[j'].slug == before[j'].slug;
        assert SlugIndex(prev, before[j].slug) < SlugIndex(prev, before[j'].slug);
      } else {
        assert j' == |before| && |out| > |before|;
        assert out[j'].slug == e.slug;
        assert SlugIndex(pubs, e.slug) == |prev|;
      }
    }
  }

  /** A slug lookup is unaffected by entities appended after a hit, and finds an appended one otherwise. */
  lemma {:induction false} SlugIndexPrefix(es: seq<Entity>, e: Entity, slug: string)
    ensures SlugIndex(es + [e], slug)
      == if SlugIndex(es, slug) < |es| then SlugIndex(es, slug) else if e.slug == slug then |es| else |es| + 1
    decreases |es|
  {
    if es != [] {
      assert (es + [e])[1..] == es[1..] + [e];
      SlugIndexPrefix(es[1..], e, slug);
    }
  }

  /** A slug lookup only reads the slugs. */
  lemma {:induction false} SlugIndexSameSlugs(es: seq<Entity>, es': seq<Entity>, slug: string)
    requires |es| == |es'| && forall j :: 0 <= j < |es| ==> es'[j].slug == es[j].slug
    ensures SlugIndex(es', slug) == SlugIndex(es, slug)
    decreases |es|
  {
    if es != [] {
      SlugIndexSameSlugs(es[1..], es'[1..], slug);
    }
  }

  /** With distinct subject slugs the public part of `allEntities` is exactly the subjects, in order. */
  lemma {:induction false} PublicEntriesDistinct(pubs: seq<Entity>)
    requires DistinctSlugs(pubs)
    ensures PublicEntries(pubs) == pubs
    decreases |pubs|
  {
    if pubs != [] {
      var prev := pubs[..|pubs| - 1];
      var e := pubs[|pubs| - 1];
      assert DistinctSlugs(prev) by {
        forall i, j | 0 <= i < j < |prev| ensures prev[i].slug != prev[j].slug {
          assert prev[i] == pubs[i] && prev[j] == pubs[j];
        }
      }
      PublicEntriesDistinct(prev);
      assert forall j :: 0 <= j < |prev| ==> prev[j].slug != e.slug by {
        forall j | 0 <= j < |prev| ensures prev[j].slug != e.slug {
          assert prev[j] == pubs[j];
        }
      }
      SetBySlugNew(prev, e);
      assert pubs == prev + [e];
    }
  }

  /** Setting a slug no entry has appends the entity. */
  lemma SetBySlugNew(es: seq<Entity>, e: Entity)
    requires forall j :: 0 <= j < |es| ==> es[j].slug != e.slug
    ensures SetBySlug(es, e) == es + [e]
  {
  }

  /** `allEntities` in `Map` iteration order: the subjects' entries, then the non-public entities. */
  function AllEntities(pubs: seq<Entity>, others: seq<Entity>): seq<Entity> {
    PublicEntries(pubs) + others
  }

  /**
   * The output comparator: public entities first, then by `mentionedBy.length`
   * descending; a negative result puts `a` first.
   */
  function Compare(a: Entity, b: Entity): int {
    if a.IsPublic() != b.IsPublic() then (if a.IsPublic() then -1 else 1)
    else |b.mentionedBy| - |a.mentionedBy|
  }

  /** `a` may stand before `b` in the sorted output. */
  predicate Precedes(a: Entity, b: Entity) {
    Compare(a, b) <= 0
  }

  /** The comparator is consistent: antisymmetric and transitive, so it orders its classes totally. */
  lemma CompareConsistent(a: Entity, b: Entity, c: Entity)
    ensures Compare(a, b) == -Compare(b, a)
    ensures Precedes(a, b) || Precedes(b, a)
    ensures Precedes(a, b) && Precedes(b, c) ==> Precedes(a, c)
    ensures Compare(a, b) == 0 <==> SameClass(a, b)
  {
  }

  /** Two entities the comparator cannot tell apart: same kind, same number of mentions. */
  predicate SameClass(a: Entity, b: Entity) {
    a.IsPublic() == b.IsPublic() && |a.mentionedBy| == |b.mentionedBy|
  }

  /** The entities of `s`, in order, that the comparator ranks equal to `k`. */
  function ClassOf(s: seq<Entity>, k: Entity): (c: seq<Entity>)
    ensures |c| <= |s|
    ensures forall e :: e in c <==> e in s && SameClass(e, k)
  {
    if s == [] then []
    else (if SameClass(s[0], k) then [s[0]] else []) + ClassOf(s[1..], k)
  }

  ghost predicate Sorted(s: seq<Entity>) {
    forall i, j :: 0 <= i < j < |s| ==> Precedes(s[i], s[j])
  }

  /** Places `x` before the first element it may precede. */
  function Insert(x: Entity, t: seq<Entity>): (r: seq<Entity>)
    ensures multiset(r) == multiset(t) + multiset{x}
  {
    if t == [] then [x]
    else if Precedes(x, t[0]) then [x] + t
    else
      assert t == [t[0]] + t[1..];
      [t[0]] + Insert(x, t[1..])
  }

  /**
   * Insertion is stable: the elements passed over are strictly before `x`, so
   * none shares its class, and `x` lands ahead of its class.
   */
  lemma {:induction false} InsertClass(x: Entity, t: seq<Entity>, k: Entity)
    ensures ClassOf(Insert(x, t), k) == (if SameClass(x, k) then [x] else []) + ClassOf(t, k)
    decreases |t|
  {
    if t == [] {
      ClassOfCons(x, [], k);
    } else if Precedes(x, t[0]) {
      ClassOfCons(x, t, k);
    } else {
      InsertClass(x, t[1..], k);
      InsertClassStep(x, t, k);
    }
  }

  /** Passing over `t[0]` keeps the class order: `t[0]` is strictly before `x`, so they never share a class. */
  lemma InsertClassStep(x: Entity, t: seq<Entity>, k: Entity)
    requires t != [] && !Precedes(x, t[0])
    requires ClassOf(Insert(x, t[1..]), k) == (if SameClass(x, k) then [x] else []) + ClassOf(t[1..], k)
    ensures ClassOf(Insert(x, t), k) == (if SameClass(x, k) then [x] else []) + ClassOf(t, k)
  {
    var rest := Insert(x, t[1..]);
    var p := if SameClass(t[0], k) then [t[0]] else [];
    var q := if SameClass(x, k) then [x] else [];
    InsertPasses(x, t);
    ClassOfCons(t[0], rest, k);
    ClassOfUnfold(t, k);
    StrictlyApart(x, t[0], k);
    SwapFront(ClassOf(Insert(x, t), k), ClassOf(rest, k), ClassOf(t, k), p, q, ClassOf(t[1..], k));
  }

  lemma InsertPasses(x: Entity, t: seq<Entity>)
    requires t != [] && !Precedes(x, t[0])
    ensures Insert(x, t) == [t[0]] + Insert(x, t[1..])
  {
  }

  lemma ClassOfUnfold(t: seq<Entity>, k: Entity)
    requires t != []
    ensures ClassOf(t, k) == (if SameClass(t[0], k) then [t[0]] else []) + ClassOf(t[1..], k)
  {
  }

  /** An element strictly after `x` never shares a class with it. */
  lemma StrictlyApart(x: Entity, y: Entity, k: Entity)
    requires !Precedes(x, y)
    ensures !(SameClass(x, k) && SameClass(y, k))
  {
  }

  /** With `a == p + (q + c)` and `d == p + c`, `a == q + d` when one of the fronts is empty. */
  lemma SwapFront(a: seq<Entity>, b: seq<Entity>, d: seq<Entity>, p: seq<Entity>, q: seq<Entity>, c: seq<Entity>)
    requires a == p + b && b == q + c && d == p + c
    requires p == [] || q == []
    ensures a == q + d
  {
    if p == [] {
      assert a == b && d == c;
    } else {
      assert b == c && a == p + c;
    }
  }

  lemma ClassOfCons(a: Entity, s: seq<Entity>, k: Entity)
    ensures ClassOf([a] + s, k) == (if SameClass(a, k) then [a] else []) + ClassOf(s, k)
  {
    assert ([a] + s)[1..] == s;
  }

  lemma {:induction false} InsertSorted(x: Entity, t: seq<Entity>)
    requires Sorted(t)
    ensures Sorted(Insert(x, t))
    decreases |t|
  {
    if t != [] && !Precedes(x, t[0]) {
      InsertSorted(x, t[1..]);
      var tail := Insert(x, t[1..]);
      SortedHead(t);
      InsertMembers(x, t[1..]);
      assert PrecedesAll(t[0], tail);
      SortedCons(t[0], tail);
    } else if t != [] {
      SortedHead(t);
      forall y | y in t ensures Precedes(x, y) {
        CompareConsistent(x, t[0], y);
      }
      SortedCons(x, t);
    }
  }

  /** `a` may precede every element of `s`. */
  ghost predicate PrecedesAll(a: Entity, s: seq<Entity>) {
    forall y :: y in s ==> Precedes(a, y)
  }

  /** The head of a sorted list may precede all of it. */
  lemma SortedHead(t: seq<Entity>)
    requires Sorted(t) && t != []
    ensures PrecedesAll(t[0], t)
  {
    forall y | y in t ensures Precedes(t[0], y) {
      var m :| 0 <= m < |t| && t[m] == y;
      if m == 0 {
        CompareConsistent(y, y, y);
      }
    }
  }

  lemma SortedCons(a: Entity, s: seq<Entity>)
    requires PrecedesAll(a, s) && Sorted(s)
    ensures Sorted([a] + s)
  {
    var r := [a] + s;
    forall i, j | 0 <= i < j < |r| ensures Precedes(r[i], r[j]) {
      assert r[j] == s[j - 1];
      if i > 0 {
        assert r[i] == s[i - 1];
      }
    }
  }

  /** Insertion adds `x` and keeps exactly the elements of `t`. */
  lemma InsertMembers(x: Entity, t: seq<Entity>)
    ensures forall y :: y in Insert(x, t) <==> y == x || y in t
  {
    var r := Insert(x, t);
    assert forall y :: y in r <==> y in multiset(r);
    assert forall y :: y in t <==> y in multiset(t);
  }

  /** `Array.prototype.sort` with the output comparator (a stable sort), as insertion from the back. */
  function SortEntities(s: seq<Entity>): (r: seq<Entity>)
    ensures multiset(r) == multiset(s)
    decreases |s|
  {
    if s == [] then []
    else
      assert s == [s[0]] + s[1..];
      Insert(s[0], SortEntities(s[1..]))
  }

  lemma {:induction false} SortStable(s: seq<Entity>, k: Entity)
    ensures ClassOf(SortEntities(s), k) == ClassOf(s, k)
    decreases |s|
  {
    if s != [] {
      SortStable(s[1..], k);
      InsertClass(s[0], SortEntities(s[1..]), k);
    }
  }

  lemma {:induction false} SortSorted(s: seq<Entity>)
    ensures Sorted(SortEntities(s))
    decreases |s|
  {
    if s != [] {
      SortSorted(s[1..]);
      InsertSorted(s[0], SortEntities(s[1..]));
    }
  }

  /**
   * The output entity list: a permutation of `allEntities` in which every public
   * entity precedes every non-public one, `mentionedBy.length` does not
   * increase within each group, and entities the comparator ranks equal keep
   * their `allEntities` order.
   */
  lemma OutputOrdered(all: seq<Entity>)
    ensures var out := SortEntities(all);
      && multiset(out) == multiset(all)
      && (forall i, j :: 0 <= i < j < |out| && out[j].IsPublic() ==> out[i].IsPublic())
      && (forall i, j :: 0 <= i < j < |out| && out[i].IsPublic() == out[j].IsPublic() ==>
            |out[i].mentionedBy| >= |out[j].mentionedBy|)
      && (forall k :: ClassOf(out, k) == ClassOf(all, k))
  {
    SortSorted(all);
    forall k ensures ClassOf(SortEntities(all), k) == ClassOf(all, k) {
      SortStable(all, k);
    }
  }

  /**
   * The order is fully determined: any permutation that is sorted and keeps
   * each class in its original order is the one the sort produces.
   */
  lemma {:induction false} SortedUnique(a: seq<Entity>, b: seq<Entity>)
    requires Sorted(a) && Sorted(b)
    requires forall k :: ClassOf(a, k) == ClassOf(b, k)
    ensures a == b
    decreases |a| + |b|
  {
    ClassOfHead(a);
    ClassOfHead(b);
    if a != [] && b != [] {
      assert a[0] in ClassOf(b, a[0]) && b[0] in ClassOf(a, b[0]);
      ClassHead(b, a[0]);
      ClassHead(a, b[0]);
      assert SameClass(a[0], b[0]);
      assert ClassOf(a, a[0]) == ClassOf(b, b[0]);
      assert a[0] == b[0];
      forall k ensures ClassOf(a[1..], k) == ClassOf(b[1..], k) {
        var p := if SameClass(a[0], k) then [a[0]] else [];
        ClassOfUnfold(a, k);
        ClassOfUnfold(b, k);
        assert ClassOf(a[1..], k) == ClassOf(a, k)[|p|..];
        assert ClassOf(b[1..], k) == ClassOf(b, k)[|p|..];
      }
      SortedUnique(a[1..], b[1..]);
      assert a == [a[0]] + a[1..] && b == [b[0]] + b[1..];
    }
  }

  /** A non-empty list's head is the first member of its own class. */
  lemma ClassOfHead(s: seq<Entity>)
    ensures s != [] ==> ClassOf(s, s[0]) != [] && ClassOf(s, s[0])[0] == s[0]
  {
  }

  /** In a sorted list, the head's class is the least: any member of `s` that `k` may precede ranks with the head. */
  lemma ClassHead(s: seq<Entity>, k: Entity)
    requires Sorted(s) && s != []
    requires k in s
    ensures Precedes(s[0], k)
  {
    var i :| 0 <= i < |s| && s[i] == k;
    if i > 0 {
      assert Precedes(s[0], s[i]);
    }
  }

  /** `meta.privateEntities`: `allEntities.size - publicCompanies.size`. */
  function PrivateCount(pubs: seq<Entity>, others: seq<Entity>): int {
    |AllEntities(pubs, others)| - |pubs|
  }

  /**
   * The subtraction counts the non-public entities exactly when subject slugs
   * are distinct; otherwise each repeated slug lowers it by one.
   */
  lemma PrivateCountDistinct(pubs: seq<Entity>, others: seq<Entity>)
    requires DistinctSlugs(pubs)
    ensures PrivateCount(pubs, others) == |others|
  {
    PublicEntriesDistinct(pubs);
  }
}
