/**
 * Second pass of `compileData`: every competitor mention of every survey
 * subject is resolved to an entity, and the relationship list, `mentionedBy`,
 * per-year notes and the subject's `competitors` list are updated.
 *
 * Entities are mutable objects in the compiler; here an entity is identified
 * by its position: `Public(i)` is the i-th survey subject (the order of
 * `publicCompanies`), `Other(i)` the i-th non-public entity created.
 */
module MentionPass {
  import opened Wrappers
  import opened Names
  import opened Graph

  /**
   * The two canonical forms of a name the resolver compares: `createSlug(name)`
   * and `normalizeCompanyName(name)`.
   */
  datatype Key = Key(slug: string, norm: string)

  function KeyOf(name: string): Key {
    Key(Slug(name), Normalize(name))
  }

  /**
   * One visit of the innermost loop: subject index, year key, the mention, and
   * the mention name's key (both forms are pure functions of the name, so they
   * are computed once here rather than at each comparison).
   */
  datatype Event = Event(subject: nat, year: nat, mention: Mention, key: Key)

  /** Which entity object a mention resolved to. */
  datatype Target = Public(index: nat) | Other(index: nat)

  /**
   * The state of the second pass: the survey subjects, `norms[i]` the
   * normalised name of `pubs[i]` (names are never written, so it is computed
   * once), the non-public entities in creation order, and the relationships.
   */
  datatype State = State(pubs: seq<Entity>, norms: seq<string>, others: seq<Entity>, rels: seq<Relationship>)

  /**
   * The resolver's test of one public company (with normalised name `norm`)
   * against a mention's key: equal slugs or equal normalised names.
   */
  predicate Matches(e: Entity, norm: string, key: Key) {
    e.slug == key.slug || norm == key.norm
  }

  /** Position of the first public company that matches `key`, or `|pubs|`. */
  function PublicMatch(pubs: seq<Entity>, norms: seq<string>, key: Key): (i: nat)
    requires |norms| == |pubs|
    ensures i <= |pubs|
    ensures i < |pubs| ==> Matches(pubs[i], norms[i], key)
    ensures forall j :: 0 <= j < i ==> !Matches(pubs[j], norms[j], key)
  {
    if pubs == [] then 0
    else if Matches(pubs[0], norms[0], key) then 0
    else 1 + PublicMatch(pubs[1..], norms[1..], key)
  }

  /** The non-public entity created the first time an unmatched slug is seen. */
  function NewMentioned(slug: string, name: string): Entity {
    Entity(slug, name, Mentioned(map[]), [], [])
  }

  /** The result of resolving a mention: the (possibly grown) non-public list and the target. */
  datatype Resolution = Resolution(others: seq<Entity>, target: Target)

  /**
   * Resolves a mention's name: the first matching public company; otherwise the
   * non-public entity stored under the name's slug, created when missing.
   */
  function Resolve(pubs: seq<Entity>, norms: seq<string>, others: seq<Entity>, key: Key, name: string): (res: Resolution)
    requires |norms| == |pubs|
    ensures ValidTarget(pubs, res.others, res.target)
    ensures res.target.Public? ==>
      && Matches(pubs[res.target.index], norms[res.target.index], key)
      && (forall j :: 0 <= j < res.target.index ==> !Matches(pubs[j], norms[j], key))
      && res.others == others
    ensures res.target.Other? ==>
      && (forall j :: 0 <= j < |pubs| ==> !Matches(pubs[j], norms[j], key))
      && res.others[res.target.index].slug == key.slug
      && (forall j :: 0 <= j < res.target.index ==> res.others[j].slug != key.slug)
    ensures others <= res.others && |res.others| <= |others| + 1
    ensures |res.others| > |others| <==> res.target.Other? && forall j :: 0 <= j < |others| ==> others[j].slug != key.slug
    ensures |res.others| > |others| ==> res.others[|others|] == NewMentioned(key.slug, name)
  {
    var p := PublicMatch(pubs, norms, key);
    if p < |pubs| then Resolution(others, Public(p))
    else
      var o := SlugIndex(others, key.slug);
      if o < |others| then Resolution(others, Other(o))
      else Resolution(others + [NewMentioned(key.slug, name)], Other(|others|))
  }

  predicate ValidTarget(pubs: seq<Entity>, others: seq<Entity>, t: Target) {
    match t
    case Public(i) => i < |pubs|
    case Other(i) => i < |others|
  }

  function EntityAt(pubs: seq<Entity>, others: seq<Entity>, t: Target): Entity
    requires ValidTarget(pubs, others, t)
  {
    match t
    case Public(i) => pubs[i]
    case Other(i) => others[i]
  }

  /** `mentionedBy` already holds an entry for this subject slug and year. */
  predicate HasCitation(cs: seq<Citation>, slug: string, year: nat) {
    exists c :: c in cs && c.slug == slug && c.year == year
  }

  /** `competitors` already holds a reference with this slug. */
  predicate HasRef(rs: seq<CompetitorRef>, slug: string) {
    exists c :: c in rs && c.slug == slug
  }

  /** Appends a citation unless one with the same (slug, year) is present. */
  function AddCitation(cs: seq<Citation>, c: Citation): (cs': seq<Citation>)
    ensures HasCitation(cs', c.slug, c.year)
    ensures cs <= cs' && |cs'| <= |cs| + 1
    ensures |cs'| == |cs| <==> HasCitation(cs, c.slug, c.year)
    ensures |cs'| > |cs| ==> cs'[|cs|] == c
    ensures UniqueCitations(cs) ==> UniqueCitations(cs')
  {
    if HasCitation(cs, c.slug, c.year) then cs
    else
      AppendCitation(cs, c);
      cs + [c]
  }

  lemma AppendCitation(cs: seq<Citation>, c: Citation)
    requires !HasCitation(cs, c.slug, c.year)
    ensures HasCitation(cs + [c], c.slug, c.year)
    ensures UniqueCitations(cs) ==> UniqueCitations(cs + [c])
  {
    var cs' := cs + [c];
    assert c == cs'[|cs|];
    forall i, j | 0 <= i < j < |cs'| && j == |cs| ensures !(cs'[i].slug == cs'[j].slug && cs'[i].year == cs'[j].year) {
      assert cs'[i] in cs;
    }
  }

  /** Appends a reference unless one with the same slug is present. */
  function AddRef(rs: seq<CompetitorRef>, r: CompetitorRef): (rs': seq<CompetitorRef>)
    ensures HasRef(rs', r.slug)
    ensures rs <= rs' && |rs'| <= |rs| + 1
    ensures |rs'| == |rs| <==> HasRef(rs, r.slug)
    ensures |rs'| > |rs| ==> rs'[|rs|] == r
    ensures UniqueRefs(rs) ==> UniqueRefs(rs')
  {
    if HasRef(rs, r.slug) then rs
    else
      AppendRef(rs, r);
      rs + [r]
  }

  lemma AppendRef(rs: seq<CompetitorRef>, r: CompetitorRef)
    requires !HasRef(rs, r.slug)
    ensures HasRef(rs + [r], r.slug)
    ensures UniqueRefs(rs) ==> UniqueRefs(rs + [r])
  {
    var rs' := rs + [r];
    assert r == rs'[|rs|];
    forall i, j | 0 <= i < j < |rs'| && j == |rs| ensures rs'[i].slug != rs'[j].slug {
      assert rs'[i] in rs;
    }
  }

  /** Appends a note under `year` of a non-public entity; public ones are returned unchanged. */
  function AddNote(e: Entity, year: nat, n: Note): (e': Entity)
    ensures e'.slug == e.slug && e'.name == e.name && e'.mentionedBy == e.mentionedBy
    ensures e'.competitors == e.competitors
    ensures e.role.Subject? ==> e' == e
    ensures e.role.Mentioned? ==>
      && e'.role.Mentioned?
      && e'.role.notes.Keys == e.role.notes.Keys + {year}
      && NotesAt(e'.role.notes, year) == NotesAt(e.role.notes, year) + [n]
      && (forall y :: y != year ==> NotesAt(e'.role.notes, y) == NotesAt(e.role.notes, y))
  {
    match e.role
    case Subject(_, _) => e
    case Mentioned(notes) => e.(role := Mentioned(notes[year := NotesAt(notes, year) + [n]]))
  }

  /** `notes[year]`, with a missing list read as empty. */
  function NotesAt(notes: map<nat, seq<Note>>, year: nat): seq<Note> {
    if year in notes then notes[year] else []
  }

  /** Writes the entity object `t` back into the state's lists. */
  function Store(st: State, t: Target, e: Entity): (st': State)
    requires ValidTarget(st.pubs, st.others, t)
    ensures |st'.pubs| == |st.pubs| && |st'.others| == |st.others| && st'.norms == st.norms && st'.rels == st.rels
    ensures forall i :: 0 <= i < |st.pubs| ==> st'.pubs[i] == if t == Public(i) then e else st.pubs[i]
    ensures forall i :: 0 <= i < |st.others| ==> st'.others[i] == if t == Other(i) then e else st.others[i]
  {
    match t
    case Public(i) => st.(pubs := st.pubs[i := e])
    case Other(i) => st.(others := st.others[i := e])
  }

  /** The `mentionedBy` entry a subject contributes for one year. */
  function CitationOf(subject: Entity, year: nat, notes: string): Citation
    requires subject.role.Subject?
  {
    Citation(subject.slug, subject.name, subject.role.ticker, year, notes)
  }

  /** The target's two updates for one mention: the deduplicated citation, then the note. */
  function Touch(target: Entity, subject: Entity, ev: Event): (t: Entity)
    requires subject.role.Subject?
    ensures Same(t, target) || target.role.Mentioned?
    ensures t.slug == target.slug && t.name == target.name && t.competitors == target.competitors
    ensures t.role.Mentioned? == target.role.Mentioned?
    ensures t.mentionedBy == AddCitation(target.mentionedBy, CitationOf(subject, ev.year, ev.mention.notes))
  {
    var cited := target.(mentionedBy := AddCitation(target.mentionedBy, CitationOf(subject, ev.year, ev.mention.notes)));
    AddNote(cited, ev.year, Note(subject.name, ev.mention.notes))
  }

  /** The reference a subject's `competitors` list holds for an entity. */
  function RefTo(e: Entity): CompetitorRef {
    CompetitorRef(e.slug, e.name, e.Ticker(), e.IsPublic())
  }

  /** Appends the reference to `e` to subject `k`'s `competitors` unless its slug is present. */
  function AddCompetitor(pubs: seq<Entity>, k: nat, e: Entity): (pubs': seq<Entity>)
    requires k < |pubs|
    ensures |pubs'| == |pubs|
    ensures forall i :: 0 <= i < |pubs| && i != k ==> pubs'[i] == pubs[i]
    ensures pubs'[k] == pubs[k].(competitors := pubs'[k].competitors)
    ensures HasRef(pubs'[k].competitors, e.slug)
    ensures var before := pubs[k].competitors; var after := pubs'[k].competitors;
      && before <= after && |after| <= |before| + 1
      && (|after| == |before| <==> HasRef(before, e.slug))
      && (|after| > |before| ==> after[|before|] == RefTo(e))
      && (UniqueRefs(before) ==> UniqueRefs(after))
  {
    pubs[k := pubs[k].(competitors := AddRef(pubs[k].competitors, RefTo(e)))]
  }

  /**
   * One iteration of the innermost loop of the second pass: resolve, push the
   * relationship, update the target, then the subject's competitor list (read
   * after the target's update, since the target may be the subject itself).
   */
  function Step(st: State, ev: Event): (st': State)
    requires |st.norms| == |st.pubs|
    requires ev.subject < |st.pubs| && st.pubs[ev.subject].role.Subject?
    ensures |st'.pubs| == |st.pubs| && st'.norms == st.norms
  {
    var subject := st.pubs[ev.subject];
    var res := Resolve(st.pubs, st.norms, st.others, ev.key, ev.mention.name);
    var target := EntityAt(st.pubs, res.others, res.target);
    var rel := Relationship(subject.slug, target.slug, ev.year, ev.mention.notes);
    var touched := Touch(target, subject, ev);
    var mid := Store(st.(others := res.others), res.target, touched);
    mid.(pubs := AddCompetitor(mid.pubs, ev.subject, touched), rels := st.rels + [rel])
  }

  /** The second pass never writes a subject's slug, name, ticker or years. */
  lemma StepKeepsSubjects(st: State, ev: Event)
    requires |st.norms| == |st.pubs|
    requires forall i :: 0 <= i < |st.pubs| ==> st.pubs[i].role.Subject?
    requires ev.subject < |st.pubs|
    ensures forall i :: 0 <= i < |st.pubs| ==> Same(Step(st, ev).pubs[i], st.pubs[i])
  {
  }

  /** Two states of one entity object agree on everything the second pass never writes. */
  predicate Same(e: Entity, e': Entity) {
    e.slug == e'.slug && e.name == e'.name && e.role == e'.role
  }

  /** The mentions of one year's survey, in list order. */
  function MentionEvents(k: nat, y: nat, ms: seq<Mention>): (evs: seq<Event>)
    ensures |evs| == |ms|
    ensures forall i :: 0 <= i < |ms| ==> evs[i] == Event(k, y, ms[i], KeyOf(ms[i].name))
  {
    seq(|ms|, i requires 0 <= i < |ms| => Event(k, y, ms[i], KeyOf(ms[i].name)))
  }

  /** The mentions of subject `k` for the year keys `ys`, in that order. */
  function YearEvents(k: nat, years: map<nat, YearData>, ys: seq<nat>): seq<Event>
    requires forall i :: 0 <= i < |ys| ==> ys[i] in years
  {
    if ys == [] then [] else MentionEvents(k, ys[0], years[ys[0]].competitors) + YearEvents(k, years, ys[1..])
  }

  /** The mentions of subject `k`: year keys ascending, each year's list in order. */
  function SubjectEvents(k: nat, e: Entity): seq<Event> {
    match e.role
    case Subject(_, years) => YearEvents(k, years, SortedKeys(years))
    case Mentioned(_) => []
  }

  /** The mentions of subjects `k..` in `publicCompanies` order: the visiting order of the second pass. */
  function EventsFrom(pubs: seq<Entity>, k: nat): seq<Event>
    decreases |pubs| - k
  {
    if k >= |pubs| then [] else SubjectEvents(k, pubs[k]) + EventsFrom(pubs, k + 1)
  }

  function Events(pubs: seq<Entity>): seq<Event> {
    EventsFrom(pubs, 0)
  }

  /** The state holds one normalised name per subject, and every event names a subject. */
  predicate ValidEvents(st: State, evs: seq<Event>) {
    && |st.norms| == |st.pubs|
    && (forall i :: 0 <= i < |st.pubs| ==> st.pubs[i].role.Subject?)
    && (forall i :: 0 <= i < |evs| ==> evs[i].subject < |st.pubs|)
  }

  /** The second pass's loop nest, run over the events `evs` in order from `st`. */
  function Replay(st: State, evs: seq<Event>): (st': State)
    requires ValidEvents(st, evs)
    ensures |st'.pubs| == |st.pubs| && st'.norms == st.norms
    ensures forall i :: 0 <= i < |st.pubs| ==> Same(st'.pubs[i], st.pubs[i])
    decreases |evs|
  {
    if evs == [] then st
    else
      var prev := Replay(st, evs[..|evs| - 1]);
      assert evs[|evs| - 1].subject < |prev.pubs|;
      StepKeepsSubjects(prev, evs[|evs| - 1]);
      Step(prev, evs[|evs| - 1])
  }

  /** The normalised names of the subjects. */
  function NormsOf(pubs: seq<Entity>): (norms: seq<string>)
    ensures |norms| == |pubs|
  {
    if pubs == [] then [] else [Normalize(pubs[0].name)] + NormsOf(pubs[1..])
  }

  /** The state the second pass starts from: no non-public entities and no relationships. */
  function Start(pubs: seq<Entity>): State {
    State(pubs, NormsOf(pubs), [], [])
  }

  /** The second pass: all mentions of all subjects, in visiting order. */
  function Pass(pubs: seq<Entity>): State
    requires forall i :: 0 <= i < |pubs| ==> pubs[i].role.Subject?
  {
    EventsValid(pubs, 0);
    assert ValidEvents(Start(pubs), Events(pubs));
    Replay(Start(pubs), Events(pubs))
  }

  lemma {:induction false} YearEventsValid(k: nat, years: map<nat, YearData>, ys: seq<nat>)
    requires forall i :: 0 <= i < |ys| ==> ys[i] in years
    ensures forall i :: 0 <= i < |YearEvents(k, years, ys)| ==> YearEvents(k, years, ys)[i].subject == k
    decreases |ys|
  {
    if ys != [] {
      YearEventsValid(k, years, ys[1..]);
    }
  }

  lemma SubjectEventsValid(k: nat, e: Entity)
    ensures forall i :: 0 <= i < |SubjectEvents(k, e)| ==> SubjectEvents(k, e)[i].subject == k
  {
    if e.role.Subject? {
      YearEventsValid(k, e.role.years, SortedKeys(e.role.years));
    }
  }

  lemma {:induction false} EventsValid(pubs: seq<Entity>, k: nat)
    requires forall i :: 0 <= i < |pubs| ==> pubs[i].role.Subject?
    ensures forall i :: 0 <= i < |EventsFrom(pubs, k)| ==> k <= EventsFrom(pubs, k)[i].subject < |pubs|
    decreases |pubs| - k
  {
    if k < |pubs| {
      EventsValid(pubs, k + 1);
      SubjectEventsValid(k, pubs[k]);
      var a: seq<Event> := SubjectEvents(k, pubs[k]);
      var b: seq<Event> := EventsFrom(pubs, k + 1);
      assert EventsFrom(pubs, k) == a + b;
      forall i | 0 <= i < |a + b| ensures k <= (a + b)[i].subject < |pubs| {
        if i < |a| {
          assert (a + b)[i] == a[i];
        } else {
          assert (a + b)[i] == b[i - |a|];
        }
      }
    }
  }

  /** No two `mentionedBy` entries share a (slug, year) pair. */
  ghost predicate UniqueCitations(cs: seq<Citation>) {
    forall i, j :: 0 <= i < j < |cs| ==> !(cs[i].slug == cs[j].slug && cs[i].year == cs[j].year)
  }

  /** No two `competitors` entries share a slug. */
  ghost predicate UniqueRefs(rs: seq<CompetitorRef>) {
    forall i, j :: 0 <= i < j < |rs| ==> rs[i].slug != rs[j].slug
  }

  /** A non-public entity as the second pass keeps it. */
  ghost predicate WellMentioned(e: Entity) {
    e.role.Mentioned? && e.competitors == [] && UniqueCitations(e.mentionedBy)
  }

  /**
   * The invariant of the second pass: subjects stay subjects with duplicate-free
   * `mentionedBy` and `competitors`; non-public entities have distinct slugs,
   * none equal to a subject's slug.
   */
  ghost predicate Inv(st: State) {
    && |st.norms| == |st.pubs|
    && (forall i :: 0 <= i < |st.pubs| ==>
          st.pubs[i].role.Subject? && UniqueCitations(st.pubs[i].mentionedBy) && UniqueRefs(st.pubs[i].competitors))
    && (forall i :: 0 <= i < |st.others| ==> WellMentioned(st.others[i]))
    && (forall i, j :: 0 <= i < j < |st.others| ==> st.others[i].slug != st.others[j].slug)
    && (forall i, j :: 0 <= i < |st.others| && 0 <= j < |st.pubs| ==> st.others[i].slug != st.pubs[j].slug)
  }

  /** Resolution keeps the invariant and yields an entity whose `mentionedBy` is duplicate-free. */
  lemma ResolveInv(st: State, key: Key, name: string)
    requires Inv(st)
    ensures var res := Resolve(st.pubs, st.norms, st.others, key, name);
      && Inv(State(st.pubs, st.norms, res.others, st.rels))
      && ValidTarget(st.pubs, res.others, res.target)
      && (res.target.Other? ==> WellMentioned(EntityAt(st.pubs, res.others, res.target)))
      && (res.target.Public? ==> EntityAt(st.pubs, res.others, res.target).role.Subject?)
      && UniqueCitations(EntityAt(st.pubs, res.others, res.target).mentionedBy)
  {
    var res := Resolve(st.pubs, st.norms, st.others, key, name);
    if res.target.Other? && SlugIndex(st.others, key.slug) == |st.others| {
      var n := NewMentioned(key.slug, name);
      assert res.others == st.others + [n];
      assert forall j :: 0 <= j < |st.pubs| ==> !Matches(st.pubs[j], st.norms[j], key);
      assert WellMentioned(n);
    }
  }

  /** Writing back an updated entity that still satisfies its part keeps the invariant. */
  lemma StoreInv(st: State, t: Target, e: Entity)
    requires Inv(st) && ValidTarget(st.pubs, st.others, t)
    requires e.slug == EntityAt(st.pubs, st.others, t).slug
    requires t.Public? ==> e.role.Subject? && UniqueCitations(e.mentionedBy) && UniqueRefs(e.competitors)
    requires t.Other? ==> WellMentioned(e)
    ensures Inv(Store(st, t, e))
  {
    match t
    case Public(i) =>
      var pubs' := st.pubs[i := e];
      assert forall j :: 0 <= j < |st.pubs| ==> pubs'[j].slug == st.pubs[j].slug;
      assert Inv(st.(pubs := pubs'));
    case Other(i) =>
      var others' := st.others[i := e];
      assert forall j :: 0 <= j < |st.others| ==> others'[j].slug == st.others[j].slug;
      assert Inv(st.(others := others'));
  }

  lemma AddCompetitorInv(st: State, k: nat, e: Entity)
    requires Inv(st) && k < |st.pubs|
    ensures Inv(st.(pubs := AddCompetitor(st.pubs, k, e)))
  {
  }

  /** Every step of the second pass keeps the invariant. */
  lemma StepInv(st: State, ev: Event)
    requires Inv(st) && ev.subject < |st.pubs|
    ensures Inv(Step(st, ev))
  {
    var k := ev.subject;
    var subject := st.pubs[k];
    var res := Resolve(st.pubs, st.norms, st.others, ev.key, ev.mention.name);
    ResolveInv(st, ev.key, ev.mention.name);
    var target := EntityAt(st.pubs, res.others, res.target);
    var touched := Touch(target, subject, ev);
    StoreInv(st.(others := res.others), res.target, touched);
    var mid := Store(st.(others := res.others), res.target, touched);
    AddCompetitorInv(mid.(rels := st.rels + [Relationship(subject.slug, target.slug, ev.year, ev.mention.notes)]), k, touched);
  }

  /** The invariant holds throughout the second pass. */
  lemma {:induction false} ReplayInv(st: State, evs: seq<Event>)
    requires Inv(st) && ValidEvents(st, evs)
    ensures Inv(Replay(st, evs))
    decreases |evs|
  {
    if evs != [] {
      var prev := evs[..|evs| - 1];
      ReplayInv(st, prev);
      StepInv(Replay(st, prev), evs[|evs| - 1]);
    }
  }

  /** Where a mention's relationship points: the first matching subject's slug, else the mention's slug. */
  function ResolvedSlug(pubs: seq<Entity>, norms: seq<string>, key: Key): string
    requires |norms| == |pubs|
  {
    var p := PublicMatch(pubs, norms, key);
    if p < |pubs| then pubs[p].slug else key.slug
  }

  /** The relationship the second pass pushes for one mention. */
  function RelationshipOf(pubs: seq<Entity>, norms: seq<string>, ev: Event): Relationship
    requires |norms| == |pubs| && ev.subject < |pubs|
  {
    Relationship(pubs[ev.subject].slug, ResolvedSlug(pubs, norms, ev.key), ev.year, ev.mention.notes)
  }

  /** Resolution only reads subjects' slugs and names. */
  lemma {:induction false} PublicMatchSame(pubs: seq<Entity>, pubs': seq<Entity>, norms: seq<string>, key: Key)
    requires |norms| == |pubs| == |pubs'| && forall i :: 0 <= i < |pubs| ==> Same(pubs'[i], pubs[i])
    ensures PublicMatch(pubs', norms, key) == PublicMatch(pubs, norms, key)
    decreases |pubs|
  {
    if pubs != [] {
      PublicMatchSame(pubs[1..], pubs'[1..], norms[1..], key);
    }
  }

  /** Each step pushes exactly one relationship, from the subject to the resolved entity. */
  lemma StepRels(st: State, ev: Event)
    requires |st.norms| == |st.pubs| && ev.subject < |st.pubs| && st.pubs[ev.subject].role.Subject?
    ensures Step(st, ev).rels == st.rels + [RelationshipOf(st.pubs, st.norms, ev)]
  {
  }

  lemma ReplayLastRel(st: State, evs: seq<Event>)
    requires ValidEvents(st, evs) && evs != []
    ensures Replay(st, evs).rels == Replay(st, evs[..|evs| - 1]).rels + [RelationshipOf(st.pubs, st.norms, evs[|evs| - 1])]
  {
    var mid := Replay(st, evs[..|evs| - 1]);
    StepRels(mid, evs[|evs| - 1]);
    RelationshipSame(st.pubs, mid.pubs, st.norms, evs[|evs| - 1]);
  }

  /** The edge of a mention depends only on the subjects' slugs, names and roles. */
  lemma RelationshipSame(pubs: seq<Entity>, pubs': seq<Entity>, norms: seq<string>, ev: Event)
    requires |norms| == |pubs| == |pubs'| && ev.subject < |pubs|
    requires forall i :: 0 <= i < |pubs| ==> Same(pubs'[i], pubs[i])
    ensures RelationshipOf(pubs', norms, ev) == RelationshipOf(pubs, norms, ev)
  {
    PublicMatchSame(pubs, pubs', norms, ev.key);
  }


  /** The relationships for a run of mentions, one per mention in order. */
  function RelsOf(pubs: seq<Entity>, norms: seq<string>, evs: seq<Event>): (rels: seq<Relationship>)
    requires |norms| == |pubs|
    requires forall i :: 0 <= i < |evs| ==> evs[i].subject < |pubs|
    ensures |rels| == |evs|
    decreases |evs|
  {
    if evs == [] then [] else RelsOf(pubs, norms, evs[..|evs| - 1]) + [RelationshipOf(pubs, norms, evs[|evs| - 1])]
  }

  /** The i-th relationship is the i-th mention's edge. */
  lemma {:induction false} RelsOfAt(pubs: seq<Entity>, norms: seq<string>, evs: seq<Event>, i: nat)
    requires |norms| == |pubs|
    requires forall j :: 0 <= j < |evs| ==> evs[j].subject < |pubs|
    requires i < |evs|
    ensures RelsOf(pubs, norms, evs)[i] == RelationshipOf(pubs, norms, evs[i])
    decreases |evs|
  {
    var prev := evs[..|evs| - 1];
    if i < |prev| {
      RelsOfAt(pubs, norms, prev, i);
      assert evs[i] == prev[i];
    }
  }

  /**
   * The relationship list is the mentions, in visiting order, each mapped to
   * the edge from its subject to the entity it resolves to: one per mention,
   * with no deduplication.
   */
  lemma {:induction false} ReplayRels(st: State, evs: seq<Event>)
    requires ValidEvents(st, evs)
    ensures Replay(st, evs).rels == st.rels + RelsOf(st.pubs, st.norms, evs)
    decreases |evs|
  {
    if evs != [] {
      var prev := evs[..|evs| - 1];
      var ev := evs[|evs| - 1];
      ReplayRels(st, prev);
      ReplayLastRel(st, evs);
      var rel := RelationshipOf(st.pubs, st.norms, ev);
      var before := RelsOf(st.pubs, st.norms, prev);
      assert RelsOf(st.pubs, st.norms, evs) == before + [rel];
      SnocAssoc(Replay(st, evs).rels, Replay(st, prev).rels, st.rels, before, rel);
    }
  }

  lemma SnocAssoc<T>(x: seq<T>, y: seq<T>, a: seq<T>, b: seq<T>, t: T)
    requires x == y + [t] && y == a + b
    ensures x == a + (b + [t])
  {
  }

  /** Every list `notes` held is a prefix of the one `notes'` holds under the same year. */
  ghost predicate NotesGrow(notes: map<nat, seq<Note>>, notes': map<nat, seq<Note>>) {
    forall y :: y in notes ==> y in notes' && notes[y] <= notes'[y]
  }

  /**
   * `e'` is a later state of the entity object `e`: same identity, and every
   * list the second pass appends to only ever gained entries at its end.
   */
  ghost predicate Grows(e: Entity, e': Entity) {
    && e'.slug == e.slug && e'.name == e.name
    && e.mentionedBy <= e'.mentionedBy
    && e.competitors <= e'.competitors
    && e'.role.Mentioned? == e.role.Mentioned?
    && (e.role.Subject? ==> e'.role == e.role)
    && (e.role.Mentioned? ==> NotesGrow(e.role.notes, e'.role.notes))
  }

  lemma GrowsTrans(a: Entity, b: Entity, c: Entity)
    requires Grows(a, b) && Grows(b, c)
    ensures Grows(a, c)
  {
    if a.role.Mentioned? {
      forall y | y in a.role.notes ensures y in c.role.notes && a.role.notes[y] <= c.role.notes[y] {
        assert a.role.notes[y] <= b.role.notes[y] <= c.role.notes[y];
      }
    }
  }

  /** `others'` keeps the entities of `others` at their positions, each only grown. */
  ghost predicate AllGrow(es: seq<Entity>, es': seq<Entity>) {
    |es| <= |es'| && forall i :: 0 <= i < |es| ==> Grows(es[i], es'[i])
  }

  lemma AllGrowTrans(a: seq<Entity>, b: seq<Entity>, c: seq<Entity>)
    requires AllGrow(a, b) && AllGrow(b, c)
    ensures AllGrow(a, c)
  {
    forall i | 0 <= i < |a| ensures Grows(a[i], c[i]) {
      GrowsTrans(a[i], b[i], c[i]);
    }
  }

  lemma TouchGrows(target: Entity, subject: Entity, ev: Event)
    requires subject.role.Subject?
    ensures Grows(target, Touch(target, subject, ev))
  {
    var t := Touch(target, subject, ev);
    if target.role.Mentioned? {
      var notes := target.role.notes;
      forall y | y in notes ensures y in t.role.notes && notes[y] <= t.role.notes[y] {
        if y == ev.year {
          assert t.role.notes[y] == notes[y] + [Note(subject.name, ev.mention.notes)];
        }
      }
    }
  }

  lemma AddRefGrows(rs: seq<CompetitorRef>, r: CompetitorRef)
    ensures rs <= AddRef(rs, r)
  {
  }

  /**
   * A step only appends: every subject and every existing non-public entity
   * keeps its identity and the entries it held, at the same positions.
   */
  lemma StepGrows(st: State, ev: Event)
    requires Inv(st) && ev.subject < |st.pubs|
    ensures AllGrow(st.pubs, Step(st, ev).pubs) && AllGrow(st.others, Step(st, ev).others)
  {
    var k := ev.subject;
    var subject := st.pubs[k];
    var res := Resolve(st.pubs, st.norms, st.others, ev.key, ev.mention.name);
    ResolveInv(st, ev.key, ev.mention.name);
    PrefixGrows(st.others, res.others);
    var target := EntityAt(st.pubs, res.others, res.target);
    var touched := Touch(target, subject, ev);
    TouchGrows(target, subject, ev);
    var st1 := st.(others := res.others);
    StoreGrows(st1, res.target, touched);
    var mid := Store(st1, res.target, touched);
    AddCompetitorGrows(mid.pubs, k, touched);
    var st' := Step(st, ev);
    assert st'.pubs == AddCompetitor(mid.pubs, k, touched) && st'.others == mid.others;
    AllGrowTrans(st.pubs, mid.pubs, st'.pubs);
    AllGrowTrans(st.others, res.others, mid.others);
  }

  lemma GrowsRefl(e: Entity)
    ensures Grows(e, e)
  {
  }

  /** A list grows into any extension of it. */
  lemma PrefixGrows(es: seq<Entity>, es': seq<Entity>)
    requires es <= es'
    ensures AllGrow(es, es')
  {
    forall i | 0 <= i < |es| ensures Grows(es[i], es'[i]) {
      GrowsRefl(es[i]);
    }
  }

  /** Storing a grown entity at its place grows both lists. */
  lemma StoreGrows(st: State, t: Target, e: Entity)
    requires ValidTarget(st.pubs, st.others, t) && Grows(EntityAt(st.pubs, st.others, t), e)
    ensures AllGrow(st.pubs, Store(st, t, e).pubs) && AllGrow(st.others, Store(st, t, e).others)
  {
    var st' := Store(st, t, e);
    forall i | 0 <= i < |st.pubs| ensures Grows(st.pubs[i], st'.pubs[i]) {
      GrowsRefl(st.pubs[i]);
    }
    forall i | 0 <= i < |st.others| ensures Grows(st.others[i], st'.others[i]) {
      GrowsRefl(st.others[i]);
    }
  }

  lemma AddCompetitorGrows(pubs: seq<Entity>, k: nat, e: Entity)
    requires k < |pubs|
    ensures AllGrow(pubs, AddCompetitor(pubs, k, e))
  {
    var pubs' := AddCompetitor(pubs, k, e);
    forall i | 0 <= i < |pubs| ensures Grows(pubs[i], pubs'[i]) {
      GrowsRefl(pubs[i]);
      if i == k {
        AddRefGrows(pubs[k].competitors, RefTo(e));
      }
    }
  }


  /**
   * Over the whole pass: entries already present are never removed, replaced or
   * reordered (in particular a subject's first reference to a slug stays as it
   * was first written), and no entity changes its slug or name.
   */
  lemma {:induction false} ReplayGrows(st: State, evs: seq<Event>)
    requires Inv(st) && ValidEvents(st, evs)
    ensures AllGrow(st.pubs, Replay(st, evs).pubs) && AllGrow(st.others, Replay(st, evs).others)
    decreases |evs|
  {
    if evs != [] {
      var prev := evs[..|evs| - 1];
      ReplayGrows(st, prev);
      ReplayInv(st, prev);
      var mid := Replay(st, prev);
      StepGrows(mid, evs[|evs| - 1]);
      AllGrowTrans(st.pubs, mid.pubs, Replay(st, evs).pubs);
      AllGrowTrans(st.others, mid.others, Replay(st, evs).others);
    }
  }

  /** The entity object a key resolves to in state `st` (an `Other` index may be one past the end). */
  function TargetIn(st: State, key: Key): Target
    requires |st.norms| == |st.pubs|
  {
    var p := PublicMatch(st.pubs, st.norms, key);
    if p < |st.pubs| then Public(p) else Other(SlugIndex(st.others, key.slug))
  }

  /** Slug lookup only reads the slugs, and an earlier hit is kept when entities are appended. */
  lemma {:induction false} SlugIndexExtend(es: seq<Entity>, es': seq<Entity>, slug: string)
    requires |es| <= |es'| && forall i :: 0 <= i < |es| ==> es'[i].slug == es[i].slug
    requires SlugIndex(es, slug) < |es| || |es| == |es'|
    ensures SlugIndex(es', slug) == SlugIndex(es, slug)
    decreases |es|
  {
    if es != [] && es[0].slug != slug {
      SlugIndexExtend(es[1..], es'[1..], slug);
    }
  }

  /** A key whose entity exists keeps resolving to the same entity after a step. */
  lemma StepTargetStable(st: State, ev: Event, key: Key)
    requires Inv(st) && ev.subject < |st.pubs|
    requires ValidTarget(st.pubs, st.others, TargetIn(st, key))
    ensures TargetIn(Step(st, ev), key) == TargetIn(st, key)
  {
    StepKeepsSubjects(st, ev);
    StepGrows(st, ev);
    GrowsTargetStable(st, Step(st, ev), key);
  }

  /** Keeping the subjects and only growing the other entities keeps every existing target. */
  lemma GrowsTargetStable(st: State, st': State, key: Key)
    requires |st.norms| == |st.pubs| == |st'.pubs| && st'.norms == st.norms
    requires forall i :: 0 <= i < |st.pubs| ==> Same(st'.pubs[i], st.pubs[i])
    requires AllGrow(st.others, st'.others)
    requires ValidTarget(st.pubs, st.others, TargetIn(st, key))
    ensures TargetIn(st', key) == TargetIn(st, key)
  {
    PublicMatchSame(st.pubs, st'.pubs, st.norms, key);
    if PublicMatch(st.pubs, st.norms, key) == |st.pubs| {
      SlugIndexExtend(st.others, st'.others, key.slug);
    }
  }

  /**
   * After a step, the mention's key resolves to the entity the step resolved it
   * to; that entity holds a `mentionedBy` entry for the subject and year, and the
   * subject holds a competitor reference to it.
   */
  lemma StepTarget(st: State, ev: Event)
    requires Inv(st) && ev.subject < |st.pubs|
    ensures var st' := Step(st, ev); var t := TargetIn(st', ev.key);
      && t == Resolve(st.pubs, st.norms, st.others, ev.key, ev.mention.name).target
      && ValidTarget(st'.pubs, st'.others, t)
      && HasCitation(EntityAt(st'.pubs, st'.others, t).mentionedBy, st.pubs[ev.subject].slug, ev.year)
      && HasRef(st'.pubs[ev.subject].competitors, EntityAt(st'.pubs, st'.others, t).slug)
  {
    var k := ev.subject;
    var subject := st.pubs[k];
    var res := Resolve(st.pubs, st.norms, st.others, ev.key, ev.mention.name);
    ResolveInv(st, ev.key, ev.mention.name);
    var target := EntityAt(st.pubs, res.others, res.target);
    var touched := Touch(target, subject, ev);
    var mid := Store(st.(others := res.others), res.target, touched);
    var st' := Step(st, ev);
    assert st'.pubs == AddCompetitor(mid.pubs, k, touched) && st'.others == mid.others;
    StepResolvesTarget(st, ev);
    assert EntityAt(st'.pubs, st'.others, res.target).mentionedBy == touched.mentionedBy;
    assert EntityAt(st'.pubs, st'.others, res.target).slug == touched.slug;
  }

  /** After the step the mention's key resolves to the target the step used. */
  lemma StepResolvesTarget(st: State, ev: Event)
    requires Inv(st) && ev.subject < |st.pubs|
    ensures var st' := Step(st, ev);
      && TargetIn(st', ev.key) == Resolve(st.pubs, st.norms, st.others, ev.key, ev.mention.name).target
      && ValidTarget(st'.pubs, st'.others, TargetIn(st', ev.key))
  {
    var res := Resolve(st.pubs, st.norms, st.others, ev.key, ev.mention.name);
    ResolveInv(st, ev.key, ev.mention.name);
    var st' := Step(st, ev);
    StepKeepsSubjects(st, ev);
    PublicMatchSame(st.pubs, st'.pubs, st.norms, ev.key);
    StepOthersSlugs(st, ev);
    if res.target.Other? {
      ResolveSlugIndex(st, ev.key, ev.mention.name);
      SlugIndexExtend(res.others, st'.others, ev.key.slug);
    }
  }

  /** A non-public target is the first non-public entity with the mention's slug. */
  lemma ResolveSlugIndex(st: State, key: Key, name: string)
    requires Inv(st)
    ensures var res := Resolve(st.pubs, st.norms, st.others, key, name);
      res.target.Other? ==> SlugIndex(res.others, key.slug) == res.target.index
  {
  }

  /** A step renames no non-public entity. */
  lemma StepOthersSlugs(st: State, ev: Event)
    requires Inv(st) && ev.subject < |st.pubs|
    ensures var res := Resolve(st.pubs, st.norms, st.others, ev.key, ev.mention.name); var st' := Step(st, ev);
      && |st'.others| == |res.others|
      && forall i :: 0 <= i < |res.others| ==> st'.others[i].slug == res.others[i].slug
  {
    ResolveInv(st, ev.key, ev.mention.name);
  }


  /** The cross-references one mention leaves in state `st`. */
  ghost predicate Recorded(st: State, ev: Event)
    requires |st.norms| == |st.pubs| && ev.subject < |st.pubs|
  {
    var t := TargetIn(st, ev.key);
    && ValidTarget(st.pubs, st.others, t)
    && HasCitation(EntityAt(st.pubs, st.others, t).mentionedBy, st.pubs[ev.subject].slug, ev.year)
    && HasRef(st.pubs[ev.subject].competitors, EntityAt(st.pubs, st.others, t).slug)
  }

  /** A step keeps the cross-references of every earlier mention. */
  lemma StepKeepsRecorded(st: State, ev: Event, earlier: Event)
    requires Inv(st) && ev.subject < |st.pubs| && earlier.subject < |st.pubs|
    requires Recorded(st, earlier)
    ensures Recorded(Step(st, ev), earlier)
  {
    var st' := Step(st, ev);
    var t := TargetIn(st, earlier.key);
    StepTargetStable(st, ev, earlier.key);
    StepGrows(st, ev);
    StepKeepsSubjects(st, ev);
    var e := EntityAt(st.pubs, st.others, t);
    var e' := EntityAt(st'.pubs, st'.others, t);
    assert Grows(e, e');
    var c :| c in e.mentionedBy && c.slug == st.pubs[earlier.subject].slug && c.year == earlier.year;
    assert c in e'.mentionedBy;
    var r :| r in st.pubs[earlier.subject].competitors && r.slug == e.slug;
    assert r in st'.pubs[earlier.subject].competitors;
  }

  /** Every mention of `evs` is recorded in `st`. */
  ghost predicate AllRecorded(st: State, evs: seq<Event>) {
    && |st.norms| == |st.pubs|
    && forall i :: 0 <= i < |evs| ==> evs[i].subject < |st.pubs| && Recorded(st, evs[i])
  }

  /** A step records its own mention. */
  lemma StepRecordsOwn(st: State, ev: Event)
    requires Inv(st) && ev.subject < |st.pubs|
    ensures |Step(st, ev).norms| == |Step(st, ev).pubs| && ev.subject < |Step(st, ev).pubs|
    ensures Recorded(Step(st, ev), ev)
  {
    StepKeepsSubjects(st, ev);
    StepTarget(st, ev);
  }

  /** A step keeps every mention of `evs` recorded. */
  lemma StepKeepsAll(st: State, ev: Event, evs: seq<Event>)
    requires Inv(st) && ev.subject < |st.pubs|
    requires AllRecorded(st, evs)
    ensures AllRecorded(Step(st, ev), evs)
  {
    var st' := Step(st, ev);
    StepKeepsSubjects(st, ev);
    forall i | 0 <= i < |evs| ensures evs[i].subject < |st'.pubs| && Recorded(st', evs[i]) {
      StepKeepsRecorded(st, ev, evs[i]);
    }
  }

  /** Recording the last mention of `evs` completes the record of all of them. */
  lemma AllRecordedSnoc(st: State, evs: seq<Event>)
    requires evs != [] && |st.norms| == |st.pubs| && evs[|evs| - 1].subject < |st.pubs|
    requires AllRecorded(st, evs[..|evs| - 1]) && Recorded(st, evs[|evs| - 1])
    ensures AllRecorded(st, evs)
  {
    var prev := evs[..|evs| - 1];
    forall i | 0 <= i < |evs| - 1 ensures evs[i].subject < |st.pubs| && Recorded(st, evs[i]) {
      assert evs[i] == prev[i];
    }
  }

  /** A step records its own mention and keeps every earlier one recorded. */
  lemma StepRecorded(st: State, evs: seq<Event>)
    requires Inv(st) && evs != [] && evs[|evs| - 1].subject < |st.pubs|
    requires AllRecorded(st, evs[..|evs| - 1])
    ensures AllRecorded(Step(st, evs[|evs| - 1]), evs)
  {
    var ev := evs[|evs| - 1];
    StepKeepsAll(st, ev, evs[..|evs| - 1]);
    StepRecordsOwn(st, ev);
    AllRecordedSnoc(Step(st, ev), evs);
  }

  /** After replaying `evs`, every one of their mentions is recorded. */
  lemma {:induction false} ReplayRecorded(st: State, evs: seq<Event>)
    requires Inv(st) && ValidEvents(st, evs)
    ensures AllRecorded(Replay(st, evs), evs)
    decreases |evs|
  {
    if evs != [] {
      var prev := evs[..|evs| - 1];
      ReplaySnoc(st, evs);
      ReplayRecorded(st, prev);
      ReplayInv(st, prev);
      StepRecorded(Replay(st, prev), evs);
    }
  }

  /** Replaying a non-empty run is one step after replaying all but its last mention. */
  lemma ReplaySnoc(st: State, evs: seq<Event>)
    requires ValidEvents(st, evs) && evs != []
    ensures ValidEvents(st, evs[..|evs| - 1])
    ensures var prev := Replay(st, evs[..|evs| - 1]);
      && evs[|evs| - 1].subject < |prev.pubs| && prev.pubs[evs[|evs| - 1].subject].role.Subject?
      && Replay(st, evs) == Step(prev, evs[|evs| - 1])
  {
  }



  /**
   * Notes: the step appends exactly one `{from: subject name, note}` under the
   * mention's year of the non-public entity it resolved to, and no other note
   * list of any entity changes.
   */
  lemma StepNotes(st: State, ev: Event, j: nat, y: nat)
    requires Inv(st) && ev.subject < |st.pubs|
    ensures var st' := Step(st, ev);
      var res := Resolve(st.pubs, st.norms, st.others, ev.key, ev.mention.name);
      var n := Note(st.pubs[ev.subject].name, ev.mention.notes);
      && |st'.others| == |res.others|
      && (j < |res.others| ==>
            && res.others[j].role.Mentioned? && st'.others[j].role.Mentioned?
            && NotesAt(st'.others[j].role.notes, y)
              == NotesAt(res.others[j].role.notes, y) + (if res.target == Other(j) && y == ev.year then [n] else []))
  {
    var res := Resolve(st.pubs, st.norms, st.others, ev.key, ev.mention.name);
    ResolveInv(st, ev.key, ev.mention.name);
    var st' := Step(st, ev);
    if j < |res.others| {
      assert WellMentioned(res.others[j]);
      if res.target == Other(j) {
        var target := res.others[j];
        var touched := Touch(target, st.pubs[ev.subject], ev);
        assert st'.others[j] == touched;
      } else {
        assert st'.others[j] == res.others[j];
      }
    }
  }

  /** A freshly built subject list satisfies the invariant with no non-public entities. */
  lemma StartInv(pubs: seq<Entity>)
    requires forall i :: 0 <= i < |pubs| ==> pubs[i].role.Subject? && pubs[i].mentionedBy == [] && pubs[i].competitors == []
    ensures Inv(Start(pubs)) && ValidEvents(Start(pubs), Events(pubs))
  {
    EventsValid(pubs, 0);
  }

  /**
   * Resolution by normalised name never finds a subject that resolution by slug
   * misses: for subjects whose slugs are derived from their names, the first
   * match is the first subject with the mention's slug.
   */
  lemma {:induction false} PublicMatchBySlug(pubs: seq<Entity>, name: string)
    requires SlugsOfNames(pubs)
    ensures PublicMatch(pubs, NormsOf(pubs), KeyOf(name)) == SlugIndex(pubs, Slug(name))
    decreases |pubs|
  {
    if pubs != [] {
      assert NormsOf(pubs)[1..] == NormsOf(pubs[1..]);
      assert NormsOf(pubs)[0] == Normalize(pubs[0].name);
      PublicMatchBySlug(pubs[1..], name);
    }
  }

  /** The number of competitor mentions under the year keys `ys`. */
  function YearMentions(years: map<nat, YearData>, ys: seq<nat>): nat
    requires forall i :: 0 <= i < |ys| ==> ys[i] in years
  {
    if ys == [] then 0 else |years[ys[0]].competitors| + YearMentions(years, ys[1..])
  }

  /** The number of competitor mentions over all subjects `k..` and all their years. */
  function TotalMentions(pubs: seq<Entity>, k: nat): nat
    decreases |pubs| - k
  {
    if k >= |pubs| then 0
    else
      var here := match pubs[k].role
        case Subject(_, years) => YearMentions(years, SortedKeys(years))
        case Mentioned(_) => 0;
      here + TotalMentions(pubs, k + 1)
  }

  lemma {:induction false} YearEventsCount(k: nat, years: map<nat, YearData>, ys: seq<nat>)
    requires forall i :: 0 <= i < |ys| ==> ys[i] in years
    ensures |YearEvents(k, years, ys)| == YearMentions(years, ys)
    decreases |ys|
  {
    if ys != [] {
      YearEventsCount(k, years, ys[1..]);
    }
  }

  /** The second pass visits every mention of every subject once. */
  lemma {:induction false} EventsCount(pubs: seq<Entity>, k: nat)
    ensures |EventsFrom(pubs, k)| == TotalMentions(pubs, k)
    decreases |pubs| - k
  {
    if k < |pubs| {
      EventsCount(pubs, k + 1);
      if pubs[k].role.Subject? {
        YearEventsCount(k, pubs[k].role.years, SortedKeys(pubs[k].role.years));
      }
    }
  }

  /** `rels` holds, after `prefix`, the relationship of each mention of `evs` at its position. */
  ghost predicate RelsAt(rels: seq<Relationship>, prefix: seq<Relationship>, pubs: seq<Entity>, norms: seq<string>, evs: seq<Event>) {
    && |norms| == |pubs|
    && (forall i :: 0 <= i < |evs| ==> evs[i].subject < |pubs|)
    && |rels| == |prefix| + |evs|
    && forall i :: 0 <= i < |evs| ==> rels[|prefix| + i] == RelationshipOf(pubs, norms, evs[i])
  }

  /** The relationships a run of mentions appends, by position. */
  lemma ReplayRelsAt(st: State, evs: seq<Event>)
    requires ValidEvents(st, evs)
    ensures RelsAt(Replay(st, evs).rels, st.rels, st.pubs, st.norms, evs)
  {
    ReplayRels(st, evs);
    RelsAfter(Replay(st, evs).rels, st.rels, st.pubs, st.norms, evs);
  }

  /** Indexing past a prefix into the per-mention relationships. */
  lemma RelsAfter(rels: seq<Relationship>, prefix: seq<Relationship>, pubs: seq<Entity>, norms: seq<string>, evs: seq<Event>)
    requires |norms| == |pubs| && forall i :: 0 <= i < |evs| ==> evs[i].subject < |pubs|
    requires rels == prefix + RelsOf(pubs, norms, evs)
    ensures RelsAt(rels, prefix, pubs, norms, evs)
  {
    forall i | 0 <= i < |evs| ensures rels[|prefix| + i] == RelationshipOf(pubs, norms, evs[i]) {
      RelsOfAt(pubs, norms, evs, i);
    }
  }

  /**
   * The relationship list of the second pass: exactly one edge per mention, in
   * visiting order, so as many as there are mentions over all subjects and years.
   */
  lemma PassRels(pubs: seq<Entity>)
    requires forall i :: 0 <= i < |pubs| ==> pubs[i].role.Subject?
    ensures |Pass(pubs).rels| == |Events(pubs)| == TotalMentions(pubs, 0)
    ensures forall i :: 0 <= i < |Events(pubs)| ==> Events(pubs)[i].subject < |pubs|
    ensures forall i :: 0 <= i < |Events(pubs)| ==>
      Pass(pubs).rels[i] == RelationshipOf(pubs, NormsOf(pubs), Events(pubs)[i])
  {
    EventsValid(pubs, 0);
    ReplayRelsAt(Start(pubs), Events(pubs));
    EventsCount(pubs, 0);
  }

  /**
   * After the second pass over fresh subjects, every mention's resolved entity
   * holds a `mentionedBy` entry for its subject and year, and the subject holds
   * a competitor reference to it; the invariant holds.
   */
  lemma PassRecorded(pubs: seq<Entity>)
    requires forall i :: 0 <= i < |pubs| ==> pubs[i].role.Subject? && pubs[i].mentionedBy == [] && pubs[i].competitors == []
    ensures Inv(Pass(pubs))
    ensures forall i :: 0 <= i < |Events(pubs)| ==> Events(pubs)[i].subject < |pubs| && Recorded(Pass(pubs), Events(pubs)[i])
  {
    StartInv(pubs);
    ReplayInv(Start(pubs), Events(pubs));
    ReplayRecorded(Start(pubs), Events(pubs));
    assert AllRecorded(Pass(pubs), Events(pubs));
  }
}
