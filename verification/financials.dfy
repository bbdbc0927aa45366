/**
 * The viewer's financial figures: the `entityMap` lookup, the
 * year-specific-then-latest fallback shared by `getCompetitorFinancials` and
 * `updateFinancialStats`, and the revenue panel the latter fills in.
 *
 * A figure is a string; the empty string stands for every falsy value
 * (`null`, `undefined`, `""`).
 */
module Financials {
  import opened Wrappers

  /** One financial snapshot: `revenue`, `revenue_2024`, `market_cap`. */
  datatype Fin = Fin(revenue: string, revenue2024: string, marketCap: string)

  /**
   * The fields of a listed entity that the viewer's financial code reads.
   * A missing `financialsByYear` behaves as an empty one.
   */
  datatype Listed = Listed(slug: string, financials: Option<Fin>, byYear: map<string, Fin>)

  /** A year argument is truthy when it is given and not the empty string. */
  predicate Given(year: Option<string>) {
    year.Some? && year.value != ""
  }

  /** The position of the last entity with this slug, or -1. */
  function LastWith(es: seq<Listed>, slug: string): (k: int)
    ensures -1 <= k < |es|
    ensures k >= 0 ==> es[k].slug == slug
    ensures forall j :: k < j < |es| ==> es[j].slug != slug
    decreases |es|
  {
    if es == [] then -1
    else if es[|es| - 1].slug == slug then |es| - 1
    else LastWith(es[..|es| - 1], slug)
  }

  /** `entityMap.get(slug)`: the map is filled in list order, so a later entity with the same slug wins. */
  function Lookup(es: seq<Listed>, slug: string): (r: Option<Listed>)
    ensures r.None? <==> forall j :: 0 <= j < |es| ==> es[j].slug != slug
    ensures r.Some? ==> r.value.slug == slug && r.value == es[LastWith(es, slug)]
  {
    var k := LastWith(es, slug);
    if k < 0 then None else Some(es[k])
  }

  /** The map itself: `entityMap.set(entity.slug, entity)` for each entity in turn. */
  function EntityMap(es: seq<Listed>): (m: map<string, Listed>)
    decreases |es|
  {
    if es == [] then map[] else EntityMap(es[..|es| - 1])[es[|es| - 1].slug := es[|es| - 1]]
  }

  /** Reading the map built by `Map.set` is the last-entity lookup. */
  lemma {:induction false} EntityMapLookup(es: seq<Listed>, slug: string)
    ensures slug in EntityMap(es) <==> Lookup(es, slug).Some?
    ensures slug in EntityMap(es) ==> EntityMap(es)[slug] == Lookup(es, slug).value
    decreases |es|
  {
    if es != [] {
      var init := es[..|es| - 1];
      EntityMapLookup(init, slug);
      if es[|es| - 1].slug != slug {
        assert forall j :: 0 <= j < |init| ==> init[j] == es[j];
        assert LastWith(es, slug) == LastWith(init, slug);
      }
    }
  }

  /** The year-specific snapshot: present when the year is truthy and `financialsByYear` holds it. */
  function YearFin(e: Listed, year: Option<string>): Option<Fin> {
    if Given(year) && year.value in e.byYear then Some(e.byYear[year.value]) else None
  }

  /** `yearFin || entity.financials`: the snapshot shown for a year. */
  function Chosen(e: Listed, year: Option<string>): Option<Fin> {
    var y := YearFin(e, year);
    if y.Some? then y else e.financials
  }

  /** The result of `getCompetitorFinancials`: `null` for an unknown slug, else a (possibly absent) snapshot. */
  datatype Reply = Unknown | Known(fin: Option<Fin>)

  function CompetitorFinancials(es: seq<Listed>, slug: string, year: Option<string>): (r: Reply)
    ensures r.Unknown? <==> forall j :: 0 <= j < |es| ==> es[j].slug != slug
  {
    var c := Lookup(es, slug);
    if c.None? then Unknown
    else if Given(year) && year.value in c.value.byYear then Known(Some(c.value.byYear[year.value]))
    else Known(c.value.financials)
  }

  /**
   * The fallback, stated against the last entity with the slug: that year's
   * snapshot when the year is truthy and recorded, else the latest snapshot;
   * the two viewer functions choose the same snapshot.
   */
  lemma CompetitorFallback(es: seq<Listed>, slug: string, year: Option<string>)
    ensures var r := CompetitorFinancials(es, slug, year); var k := LastWith(es, slug);
      && (k < 0 <==> r.Unknown?)
      && (k >= 0 ==>
            && r.Known?
            && r.fin == Chosen(es[k], year)
            && (year.Some? && year.value != "" && year.value in es[k].byYear ==> r.fin == Some(es[k].byYear[year.value]))
            && (year.None? || year.value == "" || year.value !in es[k].byYear ==> r.fin == es[k].financials))
  {
  }

  /** The revenue panel: hidden, or the two figures and the revenue label. */
  datatype Panel = Hidden | Shown(revenue: string, marketCap: string, caption: string)

  /** `a || b` on figures. */
  function Or(a: string, b: string): (r: string)
    ensures a != "" ==> r == a
    ensures a == "" ==> r == b
  {
    if a != "" then a else b
  }

  /** The panel is shown when some figure of the snapshot is truthy. */
  predicate HasFigure(f: Fin) {
    f.revenue != "" || f.revenue2024 != "" || f.marketCap != ""
  }

  function Figures(f: Fin, caption: string): Panel {
    Shown(Or(Or(f.revenue, f.revenue2024), "N/A"), Or(f.marketCap, "N/A"), caption)
  }

  function YearLabel(y: string): string {
    "Revenue (" + y + ")"
  }

  const LatestLabel: string := "Revenue (Latest)"

  /** `updateFinancialStats` as written: the label names the year whenever one is given. */
  function PanelAsWritten(e: Listed, year: Option<string>): Panel {
    var fin := Chosen(e, year);
    if fin.Some? && HasFigure(fin.value) then
      Figures(fin.value, if Given(year) then YearLabel(year.value) else LatestLabel)
    else Hidden
  }

  /** The same panel with the label naming the year only when that year's snapshot is the one shown. */
  function PanelCorrected(e: Listed, year: Option<string>): Panel {
    var fin := Chosen(e, year);
    if fin.Some? && HasFigure(fin.value) then
      Figures(fin.value, if YearFin(e, year).Some? then YearLabel(year.value) else LatestLabel)
    else Hidden
  }

  /**
   * The panel's figures: shown exactly when the chosen snapshot has a truthy
   * figure; revenue falls back to `revenue_2024` and then to "N/A", the market
   * cap to "N/A". Both versions agree on everything but the label.
   */
  lemma PanelFigures(e: Listed, year: Option<string>)
    ensures var p := PanelCorrected(e, year); var fin := Chosen(e, year);
      && (p.Shown? <==> fin.Some? && (fin.value.revenue != "" || fin.value.revenue2024 != "" || fin.value.marketCap != ""))
      && (p.Shown? ==>
            && p.revenue != ""
            && (fin.value.revenue != "" ==> p.revenue == fin.value.revenue)
            && (fin.value.revenue == "" && fin.value.revenue2024 != "" ==> p.revenue == fin.value.revenue2024)
            && (fin.value.revenue == "" && fin.value.revenue2024 == "" ==> p.revenue == "N/A")
            && (fin.value.marketCap != "" ==> p.marketCap == fin.value.marketCap)
            && (fin.value.marketCap == "" ==> p.marketCap == "N/A"))
      && PanelAsWritten(e, year).Shown? == p.Shown?
      && (p.Shown? ==> PanelAsWritten(e, year).revenue == p.revenue && PanelAsWritten(e, year).marketCap == p.marketCap)
  {
  }

  /**
   * As written, the label can name a year whose snapshot does not exist: with
   * no 2023 entry the latest figures are shown under "Revenue (2023)".
   */
  lemma AsWrittenMislabels()
    ensures var e := Listed("acme", Some(Fin("$5B", "", "")), map[]);
      && YearFin(e, Some("2023")).None?
      && PanelAsWritten(e, Some("2023")) == Shown("$5B", "N/A", "Revenue (2023)")
      && PanelCorrected(e, Some("2023")) == Shown("$5B", "N/A", "Revenue (Latest)")
  {
  }

  /**
   * In the corrected panel the label names the year exactly when the figures
   * are that year's snapshot, and says "Latest" exactly when they are the
   * latest snapshot.
   */
  lemma CorrectedLabel(e: Listed, year: Option<string>)
    ensures var p := PanelCorrected(e, year);
      p.Shown? ==>
        && (year.Some? && year.value != "" && year.value in e.byYear ==>
              p.caption == "Revenue (" + year.value + ")" && Chosen(e, year) == Some(e.byYear[year.value]))
        && (!(year.Some? && year.value != "" && year.value in e.byYear) ==>
              p.caption == "Revenue (Latest)" && Chosen(e, year) == e.financials)
  {
  }
}
