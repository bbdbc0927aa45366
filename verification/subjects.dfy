/**
 * First pass of `compileData`: one public entity per distinct ticker, holding
 * that ticker's surveys by year.
 */
module SubjectPass {
  import opened Names
  import opened Graph

  /** Position of the subject with ticker `t` in `pubs`, or `|pubs|` when there is none. */
  function TickerIndex(pubs: seq<Entity>, t: string): (i: nat)
    ensures i <= |pubs|
    ensures i < |pubs| ==> pubs[i].role.Subject? && pubs[i].role.ticker == t
    ensures forall j :: 0 <= j < i ==> !(pubs[j].role.Subject? && pubs[j].role.ticker == t)
  {
    if pubs == [] then 0
    else if pubs[0].role.Subject? && pubs[0].role.ticker == t then 0
    else 1 + TickerIndex(pubs[1..], t)
  }

  /** The `years[data.year]` value the first pass stores for a record. */
  function YearOf(r: SurveyRecord): YearData {
    YearData(r.query, r.date, r.context, r.sources, r.competitors)
  }

  /** The entity created when a ticker is seen for the first time. */
  function NewSubject(r: SurveyRecord): Entity {
    Entity(Slug(r.company), r.company, Subject(r.ticker, map[r.year := YearOf(r)]), [], [])
  }

  /** One iteration of the first pass over the parsed files. */
  function AddRecord(pubs: seq<Entity>, r: SurveyRecord): (pubs': seq<Entity>)
    ensures |pubs'| == |pubs| || |pubs'| == |pubs| + 1
  {
    var i := TickerIndex(pubs, r.ticker);
    if i == |pubs| then pubs + [NewSubject(r)]
    else
      var e := pubs[i];
      pubs[i := e.(role := Subject(r.ticker, e.role.years[r.year := YearOf(r)]))]
  }

  /** The first pass over the records in file order: `publicCompanies` in insertion order. */
  function Subjects(rs: seq<SurveyRecord>): seq<Entity>
    decreases |rs|
  {
    if rs == [] then [] else AddRecord(Subjects(rs[..|rs| - 1]), rs[|rs| - 1])
  }

  /** Index of the first record with ticker `t`, or `|rs|` when there is none. */
  function FirstRecord(rs: seq<SurveyRecord>, t: string): (f: nat)
    ensures f <= |rs|
    ensures f < |rs| ==> rs[f].ticker == t
    ensures forall j :: 0 <= j < f ==> rs[j].ticker != t
    decreases |rs|
  {
    if rs == [] then 0
    else
      var f := FirstRecord(rs[..|rs| - 1], t);
      if f < |rs| - 1 then f
      else if rs[|rs| - 1].ticker == t then |rs| - 1
      else |rs|
  }

  /** Index of the last record with ticker `t` and year `y`, or -1 when there is none. */
  function LastRecord(rs: seq<SurveyRecord>, t: string, y: nat): (l: int)
    ensures -1 <= l < |rs|
    ensures 0 <= l ==> rs[l].ticker == t && rs[l].year == y
    ensures forall j :: l < j < |rs| ==> !(rs[j].ticker == t && rs[j].year == y)
    decreases |rs|
  {
    if rs == [] then -1
    else if rs[|rs| - 1].ticker == t && rs[|rs| - 1].year == y then |rs| - 1
    else LastRecord(rs[..|rs| - 1], t, y)
  }

  /**
   * Every element is a survey subject with empty `mentionedBy` and
   * `competitors`, and tickers are distinct.
   */
  ghost predicate FreshSubjects(pubs: seq<Entity>) {
    && (forall i :: 0 <= i < |pubs| ==> FreshSubject(pubs[i]))
    && (forall i, j :: 0 <= i < j < |pubs| ==> pubs[i].role.ticker != pubs[j].role.ticker)
  }

  ghost predicate FreshSubject(e: Entity) {
    e.role.Subject? && e.mentionedBy == [] && e.competitors == []
  }

  lemma {:induction false} TickerIndexGrow(pubs: seq<Entity>, e: Entity, t: string)
    requires e.role.Subject?
    ensures TickerIndex(pubs + [e], t)
      == if TickerIndex(pubs, t) < |pubs| then TickerIndex(pubs, t) else if e.role.ticker == t then |pubs| else |pubs| + 1
    decreases |pubs|
  {
    if pubs != [] {
      assert (pubs + [e])[1..] == pubs[1..] + [e];
      TickerIndexGrow(pubs[1..], e, t);
    }
  }

  lemma {:induction false} TickerIndexSameTickers(pubs: seq<Entity>, pubs': seq<Entity>, t: string)
    requires |pubs| == |pubs'|
    requires forall j :: 0 <= j < |pubs| ==> pubs[j].role.Subject? && pubs'[j].role.Subject?
    requires forall j :: 0 <= j < |pubs| ==> pubs'[j].role.ticker == pubs[j].role.ticker
    ensures TickerIndex(pubs', t) == TickerIndex(pubs, t)
    decreases |pubs|
  {
    if pubs != [] {
      TickerIndexSameTickers(pubs[1..], pubs'[1..], t);
    }
  }

  /** Adding a record keeps the existing subjects' tickers and positions. */
  lemma AddRecordTickers(pubs: seq<Entity>, r: SurveyRecord, t: string)
    requires forall j :: 0 <= j < |pubs| ==> pubs[j].role.Subject?
    ensures var pubs' := AddRecord(pubs, r);
      && (forall j :: 0 <= j < |pubs'| ==> pubs'[j].role.Subject?)
      && (forall j :: 0 <= j < |pubs| ==>
            pubs'[j].role.ticker == pubs[j].role.ticker && pubs'[j].name == pubs[j].name && pubs'[j].slug == pubs[j].slug)
      && (forall j :: 0 <= j < |pubs| && pubs[j].role.ticker != r.ticker ==> pubs'[j] == pubs[j])
      && TickerIndex(pubs', t)
        == if TickerIndex(pubs, t) < |pubs| then TickerIndex(pubs, t) else if r.ticker == t then |pubs| else |pubs'|
  {
    var i := TickerIndex(pubs, r.ticker);
    if i == |pubs| {
      AppendTickers(pubs, NewSubject(r), t);
    } else {
      var e := pubs[i];
      UpdateTickers(pubs, i, e.(role := Subject(r.ticker, e.role.years[r.year := YearOf(r)])), t);
    }
  }

  lemma AppendTickers(pubs: seq<Entity>, e: Entity, t: string)
    requires (forall j :: 0 <= j < |pubs| ==> pubs[j].role.Subject?) && e.role.Subject?
    ensures var pubs' := pubs + [e];
      && (forall j :: 0 <= j < |pubs'| ==> pubs'[j].role.Subject?)
      && (forall j :: 0 <= j < |pubs| ==> pubs'[j] == pubs[j])
      && TickerIndex(pubs', t)
        == if TickerIndex(pubs, t) < |pubs| then TickerIndex(pubs, t) else if e.role.ticker == t then |pubs| else |pubs'|
  {
    TickerIndexGrow(pubs, e, t);
  }

  lemma UpdateTickers(pubs: seq<Entity>, i: nat, e: Entity, t: string)
    requires forall j :: 0 <= j < |pubs| ==> pubs[j].role.Subject?
    requires i < |pubs| && e.role.Subject? && e.role.ticker == pubs[i].role.ticker
    requires e.name == pubs[i].name && e.slug == pubs[i].slug
    ensures var pubs' := pubs[i := e];
      && (forall j :: 0 <= j < |pubs'| ==> pubs'[j].role.Subject?)
      && (forall j :: 0 <= j < |pubs| ==>
            pubs'[j].role.ticker == pubs[j].role.ticker && pubs'[j].name == pubs[j].name && pubs'[j].slug == pubs[j].slug)
      && (forall j :: 0 <= j < |pubs| && j != i ==> pubs'[j] == pubs[j])
      && TickerIndex(pubs', t) == TickerIndex(pubs, t)
  {
    TickerIndexSameTickers(pubs, pubs[i := e], t);
  }

  /** Appending a subject with a new ticker keeps the subjects fresh. */
  lemma AppendFresh(pubs: seq<Entity>, e: Entity)
    requires FreshSubjects(pubs) && FreshSubject(e)
    requires forall j :: 0 <= j < |pubs| ==> pubs[j].role.ticker != e.role.ticker
    ensures FreshSubjects(pubs + [e])
  {
  }

  /** Replacing a subject by a fresh one with the same ticker keeps the subjects fresh. */
  lemma UpdateFresh(pubs: seq<Entity>, i: nat, e: Entity)
    requires FreshSubjects(pubs) && i < |pubs| && FreshSubject(e) && e.role.ticker == pubs[i].role.ticker
    ensures FreshSubjects(pubs[i := e])
  {
  }

  /** One record keeps the subjects fresh. */
  lemma AddRecordFresh(pubs: seq<Entity>, r: SurveyRecord)
    requires FreshSubjects(pubs)
    ensures FreshSubjects(AddRecord(pubs, r))
  {
    var i := TickerIndex(pubs, r.ticker);
    if i == |pubs| {
      AppendFresh(pubs, NewSubject(r));
    } else {
      var e := pubs[i];
      UpdateFresh(pubs, i, e.(role := Subject(r.ticker, e.role.years[r.year := YearOf(r)])));
    }
  }

  /** The first pass yields survey subjects with distinct tickers and nothing recorded about mentions yet. */
  lemma {:induction false} SubjectsFresh(rs: seq<SurveyRecord>)
    ensures FreshSubjects(Subjects(rs))
    decreases |rs|
  {
    if rs != [] {
      SubjectsFresh(rs[..|rs| - 1]);
      AddRecordFresh(Subjects(rs[..|rs| - 1]), rs[|rs| - 1]);
    }
  }

  /**
   * For any ticker `t`: the first pass holds an entity for `t` exactly when some
   * record has ticker `t`, and that entity's name and slug come from the first
   * such record.
   */
  lemma {:induction false} SubjectOfTicker(rs: seq<SurveyRecord>, t: string)
    ensures var pubs := Subjects(rs); var i := TickerIndex(pubs, t); var f := FirstRecord(rs, t);
      && (i < |pubs| <==> f < |rs|)
      && (i < |pubs| ==> pubs[i].name == rs[f].company && pubs[i].slug == Slug(rs[f].company))
    decreases |rs|
  {
    if rs != [] {
      var prev := rs[..|rs| - 1];
      var r := rs[|rs| - 1];
      assert rs == prev + [r];
      SubjectOfTicker(prev, t);
      SubjectsFresh(prev);
      var pubs := Subjects(prev);
      var pubs' := Subjects(rs);
      assert pubs' == AddRecord(pubs, r);
      AddRecordTickers(pubs, r, t);
      FirstRecordStep(prev, r, t);
      var i := TickerIndex(pubs, t);
      if i < |pubs| {
        assert pubs'[i].name == pubs[i].name && pubs'[i].slug == pubs[i].slug;
      } else if r.ticker == t {
        assert TickerIndex(pubs, r.ticker) == |pubs|;
        assert pubs' == pubs + [NewSubject(r)];
        assert pubs'[|pubs|] == NewSubject(r);
      }
    }
  }

  /**
   * `years` holds year `y` exactly when some record has ticker `t` and year
   * `y`, and then holds the content of the last such record.
   */
  ghost predicate YearsOfLast(years: map<nat, YearData>, rs: seq<SurveyRecord>, t: string) {
    && (forall y :: y in years <==> LastRecord(rs, t, y) >= 0)
    && (forall y :: y in years ==> years[y] == YearOf(rs[LastRecord(rs, t, y)]))
  }

  lemma YearsOfLastOther(years: map<nat, YearData>, rs: seq<SurveyRecord>, r: SurveyRecord, t: string)
    requires r.ticker != t && YearsOfLast(years, rs, t)
    ensures YearsOfLast(years, rs + [r], t)
  {
    forall y ensures LastRecord(rs + [r], t, y) == LastRecord(rs, t, y) {
      LastRecordStep(rs, r, t, y);
    }
  }

  lemma YearsOfLastSame(years: map<nat, YearData>, rs: seq<SurveyRecord>, r: SurveyRecord, t: string)
    requires r.ticker == t && YearsOfLast(years, rs, t)
    ensures YearsOfLast(years[r.year := YearOf(r)], rs + [r], t)
  {
    forall y ensures LastRecord(rs + [r], t, y) == if r.year == y then |rs| else LastRecord(rs, t, y) {
      LastRecordStep(rs, r, t, y);
    }
  }

  lemma YearsOfLastNew(rs: seq<SurveyRecord>, r: SurveyRecord)
    requires FirstRecord(rs, r.ticker) == |rs|
    ensures YearsOfLast(map[r.year := YearOf(r)], rs + [r], r.ticker)
  {
    forall y ensures LastRecord(rs + [r], r.ticker, y) == if r.year == y then |rs| else -1 {
      LastRecordStep(rs, r, r.ticker, y);
      LastBeforeFirst(rs, r.ticker, y);
    }
  }

  /**
   * The survey subject for ticker `t` has `years[y]` exactly when some record has
   * ticker `t` and year `y`, and then holds the content of the last such record.
   */
  lemma {:induction false} SubjectYears(rs: seq<SurveyRecord>, t: string)
    ensures var pubs := Subjects(rs); var i := TickerIndex(pubs, t);
      i < |pubs| ==> YearsOfLast(pubs[i].role.years, rs, t)
    decreases |rs|
  {
    if rs != [] {
      var prev := rs[..|rs| - 1];
      var r := rs[|rs| - 1];
      assert rs == prev + [r];
      SubjectYears(prev, t);
      SubjectsFresh(prev);
      var pubs := Subjects(prev);
      var pubs' := Subjects(rs);
      assert pubs' == AddRecord(pubs, r);
      AddRecordTickers(pubs, r, t);
      var i := TickerIndex(pubs, t);
      if r.ticker != t {
        if i < |pubs| {
          YearsOfLastOther(pubs[i].role.years, prev, r, t);
        }
      } else if i < |pubs| {
        assert pubs'[i].role.years == pubs[i].role.years[r.year := YearOf(r)];
        YearsOfLastSame(pubs[i].role.years, prev, r, t);
      } else {
        assert pubs'[|pubs|] == NewSubject(r);
        SubjectOfTicker(prev, t);
        YearsOfLastNew(prev, r);
      }
    }
  }

  /** A record with ticker `t` exists only when the first one does. */
  lemma {:induction false} LastBeforeFirst(rs: seq<SurveyRecord>, t: string, y: nat)
    ensures LastRecord(rs, t, y) >= 0 ==> FirstRecord(rs, t) <= LastRecord(rs, t, y)
  {
  }

  /** The subjects `pubs` appear in the order their tickers are first seen in `rs`. */
  ghost predicate InFirstSeenOrder(rs: seq<SurveyRecord>, pubs: seq<Entity>) {
    && (forall i :: 0 <= i < |pubs| ==> pubs[i].role.Subject?)
    && (forall i, j :: 0 <= i < j < |pubs| ==>
          FirstRecord(rs, pubs[i].role.ticker) < FirstRecord(rs, pubs[j].role.ticker) < |rs|)
  }

  /** Subjects appear in the order their tickers are first seen. */
  lemma {:induction false} SubjectsInFirstSeenOrder(rs: seq<SurveyRecord>)
    ensures FreshSubjects(Subjects(rs)) && InFirstSeenOrder(rs, Subjects(rs))
    decreases |rs|
  {
    SubjectsFresh(rs);
    if rs != [] {
      var prev := rs[..|rs| - 1];
      SubjectsInFirstSeenOrder(prev);
      FirstRecordsAfter(rs);
      OrderExtend(Subjects(prev), Subjects(rs), prev, rs);
    }
  }

  /** How the first-seen positions of the subjects change when the last record is added. */
  lemma FirstRecordsAfter(rs: seq<SurveyRecord>)
    requires rs != []
    ensures var prev := rs[..|rs| - 1]; var pubs := Subjects(prev); var pubs' := Subjects(rs);
      && |pubs| <= |pubs'| <= |pubs| + 1
      && (forall j :: 0 <= j < |pubs'| ==> pubs'[j].role.Subject?)
      && (forall j :: 0 <= j < |pubs| ==> pubs[j].role.Subject? && FirstRecord(prev, pubs[j].role.ticker) < |prev|)
      && (forall j :: 0 <= j < |pubs'| ==>
            FirstRecord(rs, pubs'[j].role.ticker) == (if j < |pubs| then FirstRecord(prev, pubs[j].role.ticker) else |prev|))
  {
    SubjectsSeen(rs[..|rs| - 1]);
    FirstRecordsStep(rs);
  }

  /** Every subject's ticker occurs in the records. */
  lemma SubjectsSeen(rs: seq<SurveyRecord>)
    ensures var pubs := Subjects(rs);
      forall j :: 0 <= j < |pubs| ==> pubs[j].role.Subject? && FirstRecord(rs, pubs[j].role.ticker) < |rs|
  {
    SubjectsFresh(rs);
    var pubs := Subjects(rs);
    forall j | 0 <= j < |pubs| ensures FirstRecord(rs, pubs[j].role.ticker) < |rs| {
      SubjectOfTicker(rs, pubs[j].role.ticker);
    }
  }

  lemma FirstRecordsStep(rs: seq<SurveyRecord>)
    requires rs != []
    ensures var prev := rs[..|rs| - 1]; var pubs := Subjects(prev); var pubs' := Subjects(rs);
      && |pubs| <= |pubs'| <= |pubs| + 1
      && (forall j :: 0 <= j < |pubs'| ==> pubs'[j].role.Subject?)
      && (forall j :: 0 <= j < |pubs'| ==>
            FirstRecord(rs, pubs'[j].role.ticker) == (if j < |pubs| then FirstRecord(prev, pubs[j].role.ticker) else |prev|))
  {
    var prev := rs[..|rs| - 1];
    var r := rs[|rs| - 1];
    SubjectsFresh(prev);
    var pubs := Subjects(prev);
    var pubs' := Subjects(rs);
    AddRecordTickers(pubs, r, r.ticker);
    forall j | 0 <= j < |pubs'|
      ensures FirstRecord(rs, pubs'[j].role.ticker) == (if j < |pubs| then FirstRecord(prev, pubs[j].role.ticker) else |prev|)
    {
      if j < |pubs| {
        SubjectOfTicker(prev, pubs[j].role.ticker);
      } else {
        SubjectOfTicker(prev, r.ticker);
      }
    }
  }

  /** The first-seen order survives a step that keeps earlier positions and adds at most a last subject. */
  lemma OrderExtend(pubs: seq<Entity>, pubs': seq<Entity>, prev: seq<SurveyRecord>, rs: seq<SurveyRecord>)
    requires |rs| == |prev| + 1 && |pubs| <= |pubs'| <= |pubs| + 1
    requires InFirstSeenOrder(prev, pubs)
    requires forall j :: 0 <= j < |pubs'| ==> pubs'[j].role.Subject?
    requires forall j :: 0 <= j < |pubs| ==> FirstRecord(prev, pubs[j].role.ticker) < |prev|
    requires forall j :: 0 <= j < |pubs'| ==>
      FirstRecord(rs, pubs'[j].role.ticker) == (if j < |pubs| then FirstRecord(prev, pubs[j].role.ticker) else |prev|)
    ensures InFirstSeenOrder(rs, pubs')
  {
  }

  lemma LastRecordStep(rs: seq<SurveyRecord>, r: SurveyRecord, t: string, y: nat)
    ensures LastRecord(rs + [r], t, y)
      == if r.ticker == t && r.year == y then |rs| else LastRecord(rs, t, y)
  {
    assert (rs + [r])[..|rs|] == rs;
  }

  lemma FirstRecordStep(rs: seq<SurveyRecord>, r: SurveyRecord, t: string)
    ensures FirstRecord(rs + [r], t)
      == if FirstRecord(rs, t) < |rs| then FirstRecord(rs, t) else if r.ticker == t then |rs| else |rs| + 1
  {
    assert (rs + [r])[..|rs|] == rs;
  }

  /** Every subject's slug is the slug of its name (both come from the first record of its ticker). */
  lemma SubjectSlugs(rs: seq<SurveyRecord>)
    ensures SlugsOfNames(Subjects(rs))
  {
    var pubs := Subjects(rs);
    SubjectsFresh(rs);
    forall i | 0 <= i < |pubs| ensures pubs[i].slug == Slug(pubs[i].name) {
      var t := pubs[i].role.ticker;
      SubjectOfTicker(rs, t);
      assert TickerIndex(pubs, t) == i;
    }
  }
}
