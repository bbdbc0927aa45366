/**
 * `compileData` without its file I/O: the parsed survey records in, the
 * `entities`, `relationships`, `industries` and `meta` counts of the written
 * data out.
 */
module Compiler {
  import opened Names
  import opened Graph
  import SubjectPass
  import MentionPass
  import OutputOrder
  import Industries

  /** The written data, without `meta.generated`. */
  datatype Output = Output(
    entities: seq<Entity>,
    relationships: seq<Relationship>,
    industries: map<string, seq<string>>,
    totalEntities: nat,
    publicCompanies: nat,
    privateEntities: int,
    totalRelationships: nat)

  /** The survey subjects after the first pass, in `publicCompanies` order. */
  function Subjects(rs: seq<SurveyRecord>): (pubs: seq<Entity>)
    ensures forall i :: 0 <= i < |pubs| ==> pubs[i].role.Subject? && pubs[i].mentionedBy == [] && pubs[i].competitors == []
  {
    SubjectPass.SubjectsFresh(rs);
    SubjectPass.Subjects(rs)
  }

  /** The state after the second pass. */
  function Final(rs: seq<SurveyRecord>): MentionPass.State {
    MentionPass.Pass(Subjects(rs))
  }

  function Compile(rs: seq<SurveyRecord>): Output {
    var pubs := Subjects(rs);
    var st := Final(rs);
    var all := OutputOrder.AllEntities(st.pubs, st.others);
    Output(
      OutputOrder.SortEntities(all),
      st.rels,
      Industries.Infer(st.pubs),
      |all|,
      |pubs|,
      OutputOrder.PrivateCount(st.pubs, st.others),
      |st.rels|)
  }

  /**
   * One relationship per competitor mention, in visiting order: the count
   * equals the mentions over all subjects and years, and entry `i` is the edge
   * from mention `i`'s subject to the entity it resolves to.
   */
  lemma CompileRelationships(rs: seq<SurveyRecord>)
    ensures var pubs := Subjects(rs); var out := Compile(rs); var evs := MentionPass.Events(pubs);
      && |out.relationships| == out.totalRelationships == |evs| == MentionPass.TotalMentions(pubs, 0)
      && (forall i :: 0 <= i < |evs| ==> evs[i].subject < |pubs|)
      && forall i :: 0 <= i < |evs| ==>
        out.relationships[i] == MentionPass.RelationshipOf(pubs, MentionPass.NormsOf(pubs), evs[i])
  {
    MentionPass.PassRels(Subjects(rs));
  }

  /**
   * Resolution against the survey subjects picks the first subject whose slug
   * is the mention's slug: the normalised-name comparison never changes the
   * outcome, because the slug is a function of the normalised name.
   */
  lemma CompileResolvesBySlug(rs: seq<SurveyRecord>, name: string)
    ensures var pubs := Subjects(rs);
      MentionPass.PublicMatch(pubs, MentionPass.NormsOf(pubs), MentionPass.KeyOf(name)) == SlugIndex(pubs, Slug(name))
  {
    SubjectPass.SubjectSlugs(rs);
    assert Subjects(rs) == SubjectPass.Subjects(rs);
    MentionPass.PublicMatchBySlug(Subjects(rs), name);
  }

  /**
   * The cross-references of the graph: for every mention, its resolved entity
   * holds a `mentionedBy` entry for the subject and year and the subject holds
   * a competitor reference to it; `mentionedBy` and `competitors` lists are
   * duplicate-free; non-public entities have distinct slugs, none a subject's.
   */
  lemma CompileCrossReferences(rs: seq<SurveyRecord>)
    ensures var pubs := Subjects(rs); var evs := MentionPass.Events(pubs);
      && MentionPass.Inv(Final(rs))
      && forall i :: 0 <= i < |evs| ==> evs[i].subject < |pubs| && MentionPass.Recorded(Final(rs), evs[i])
  {
    MentionPass.PassRecorded(Subjects(rs));
  }

  /**
   * The output entities are `allEntities` reordered: public entities first,
   * `mentionedBy.length` non-increasing within each group, ties in
   * `allEntities` order.
   */
  lemma CompileEntities(rs: seq<SurveyRecord>)
    ensures var st := Final(rs); var all := OutputOrder.AllEntities(st.pubs, st.others); var out := Compile(rs).entities;
      && multiset(out) == multiset(all)
      && |out| == Compile(rs).totalEntities
      && (forall i, j :: 0 <= i < j < |out| && out[j].IsPublic() ==> out[i].IsPublic())
      && (forall i, j :: 0 <= i < j < |out| && out[i].IsPublic() == out[j].IsPublic() ==>
            |out[i].mentionedBy| >= |out[j].mentionedBy|)
      && (forall k :: OutputOrder.ClassOf(out, k) == OutputOrder.ClassOf(all, k))
  {
    var st := Final(rs);
    var all := OutputOrder.AllEntities(st.pubs, st.others);
    OutputOrder.OutputOrdered(all);
    assert |multiset(Compile(rs).entities)| == |multiset(all)|;
  }

  /** With distinct subject slugs, `privateEntities` counts the non-public entities. */
  lemma CompilePrivateCount(rs: seq<SurveyRecord>)
    requires OutputOrder.DistinctSlugs(Subjects(rs))
    ensures Compile(rs).privateEntities == |Final(rs).others|
  {
    var pubs := Subjects(rs);
    var st := Final(rs);
    assert forall i :: 0 <= i < |pubs| ==> st.pubs[i].slug == pubs[i].slug;
    OutputOrder.PrivateCountDistinct(st.pubs, st.others);
  }

  /**
   * The second pass does not change the classification: `inferIndustries` on
   * the updated subjects equals the classification of the first pass's subjects.
   */
  lemma CompileIndustries(rs: seq<SurveyRecord>)
    ensures Compile(rs).industries == Industries.Infer(Subjects(rs))
  {
    var pubs := Subjects(rs);
    var st := Final(rs);
    assert forall i :: 0 <= i < |pubs| ==> MentionPass.Same(st.pubs[i], pubs[i]);
    InferSame(pubs, st.pubs);
  }

  /** Classification reads only each subject's slug and survey years. */
  lemma InferSame(pubs: seq<Entity>, pubs': seq<Entity>)
    requires |pubs| == |pubs'| && forall i :: 0 <= i < |pubs| ==> MentionPass.Same(pubs'[i], pubs[i])
    ensures Industries.Infer(pubs') == Industries.Infer(pubs)
  {
    forall i | 0 <= i < |pubs| ensures Industries.Classify(pubs')[i] == Industries.Classify(pubs)[i] {
      Industries.ClassifyAt(pubs, i);
      Industries.ClassifyAt(pubs', i);
      assert Industries.YearsOf(pubs'[i]) == Industries.YearsOf(pubs[i]);
    }
    assert Industries.Classify(pubs') == Industries.Classify(pubs);
  }
}
