/**
 * The record built for every project that has a detail page: the JSON-LD
 * place of its first location, the department summary and the 19-column
 * output row.
 */
module FinalRow {
  import opened Wrappers
  import opened Text
  import Slug
  import Lex

  /** One row of the detail page's location table: department, DANE code and
      municipality. */
  datatype LocationRow = LocationRow(dept: string, dane: string, muni: string)

  /** What the detail page yields, one field per entry of the detail dict. */
  datatype ProjectDetail = ProjectDetail(
    bpin: string,
    nombre: string,
    objetivo: string,
    costo: string,
    beneficiarios: string,
    fechaViabilizacion: string,
    sector: string,
    preinversion: string,
    clasificacion: string,
    locTableHtml: string,
    locationData: seq<LocationRow>)

  // ---------------------------------------------------------------------
  // JSON-LD

  const SchemaContext := "https://schema.org"
  const DivipolaId := "divipola"

  /** The schema.org records of the JSON-LD snippet; `kind` is its "@type". */
  datatype PropertyValue = PropertyValue(kind: string, propertyId: string, value: string)
  datatype PostalAddress = PostalAddress(
    kind: string, addressLocality: string, addressRegion: string, identifier: PropertyValue)
  datatype Place = Place(context: string, kind: string, address: PostalAddress)

  /** The fixed part of the snippet: every constant it carries. */
  predicate IsSchemaPlace(p: Place) {
    && p.context == SchemaContext
    && p.kind == "Place"
    && p.address.kind == "PostalAddress"
    && p.address.identifier.kind == "PropertyValue"
    && p.address.identifier.propertyId == DivipolaId
  }

  /** The location a snippet describes, read back from its fields. */
  function LocationOf(p: Place): LocationRow {
    LocationRow(p.address.addressRegion, p.address.identifier.value, p.address.addressLocality)
  }

  /** The snippet for one location. */
  function BuildJsonld(dept: string, dane: string, muni: string): (p: Place)
    ensures IsSchemaPlace(p)
    ensures LocationOf(p) == LocationRow(dept, dane, muni)
  {
    Place(SchemaContext, "Place",
      PostalAddress("PostalAddress", muni, dept, PropertyValue("PropertyValue", DivipolaId, dane)))
  }

  /** Reading the location back gives the snippet back: the snippet is fully
      determined by the location it was built from. */
  lemma JsonldRoundTrip(p: Place)
    requires IsSchemaPlace(p)
    ensures BuildJsonld(LocationOf(p).dept, LocationOf(p).dane, LocationOf(p).muni) == p
  {
  }

  /** The Jsonld column: nothing for a project without locations, otherwise the
      snippet of its first location. */
  function JsonldOf(rows: seq<LocationRow>): (j: Option<Place>)
    ensures j.None? <==> rows == []
    ensures j.Some? ==> IsSchemaPlace(j.value) && LocationOf(j.value) == rows[0]
  {
    if rows == [] then None
    else Some(BuildJsonld(rows[0].dept, rows[0].dane, rows[0].muni))
  }

  /** Rows after the first one never change the snippet. */
  lemma JsonldIgnoresLaterRows(rows: seq<LocationRow>, more: seq<LocationRow>)
    requires rows != []
    ensures JsonldOf(rows + more) == JsonldOf(rows)
  {
    assert (rows + more)[0] == rows[0];
  }

  // ---------------------------------------------------------------------
  // Department summary

  /** The first cell of every location row, in order. */
  function Depts(rows: seq<LocationRow>): (ds: seq<string>)
    ensures |ds| == |rows|
    ensures forall i :: 0 <= i < |rows| ==> ds[i] == rows[i].dept
  {
    if rows == [] then [] else [rows[0].dept] + Depts(rows[1..])
  }

  /** Some location row names department `d`. */
  predicate HasDept(rows: seq<LocationRow>, d: string) {
    exists r :: r in rows && r.dept == d
  }

  /** `sorted({row[0] for row in loc_data})`. */
  function DeptList(rows: seq<LocationRow>): (ds: seq<string>)
    ensures Lex.StrictlyAscending(ds)
    ensures forall d :: d in ds <==> HasDept(rows, d)
  {
    var all := Depts(rows);
    assert forall d :: d in all <==> HasDept(rows, d) by {
      forall d ensures d in all <==> HasDept(rows, d) {
        if d in all {
          var i :| 0 <= i < |all| && all[i] == d;
          assert rows[i] in rows;
        }
        if HasDept(rows, d) {
          var r :| r in rows && r.dept == d;
          var i :| 0 <= i < |rows| && rows[i] == r;
          assert all[i] == d;
        }
      }
    }
    Lex.SortedDistinct(all)
  }

  /** The Deptos column: the distinct departments joined with ", ". */
  function Deptos(rows: seq<LocationRow>): string {
    Join(DeptList(rows), ", ")
  }

  /** The Deptos column is the ", "-joined listing of exactly the departments
      that occur, each once, in ascending order: any such listing gives it. */
  lemma DeptosCharacterised(rows: seq<LocationRow>, ds: seq<string>)
    requires Lex.StrictlyAscending(ds)
    requires forall d :: d in ds <==> HasDept(rows, d)
    ensures Deptos(rows) == Join(ds, ", ")
  {
    Lex.AscendingUnique(DeptList(rows), ds);
  }

  /** Reordering or repeating location rows leaves the Deptos column as it is,
      as long as the same departments occur. */
  lemma DeptosOrderIndependent(rows: seq<LocationRow>, rows': seq<LocationRow>)
    requires forall d :: HasDept(rows, d) <==> HasDept(rows', d)
    ensures Deptos(rows) == Deptos(rows')
  {
    DeptosCharacterised(rows', DeptList(rows));
  }

  // ---------------------------------------------------------------------
  // Output row

  /** The 19 output columns, in their fixed order. */
  const Columns: seq<string> := [
    "Index", "BPIN", "Name", "name Corr", "Meta Title", "SLUG",
    "Objective", "Objective Corrected", "Cost", "Beneficiaries",
    "Viabilization Date", "Sector", "Sector Corr", "Preinvestment Costs",
    "Classification", "Location Data", "LOC TABLE", "Deptos", "Jsonld"]

  /** One output row, its fields in column order. */
  datatype OutputRow = OutputRow(
    index: nat,
    bpin: string,
    name: string,
    nameCorr: string,
    metaTitle: string,
    slug: string,
    objective: string,
    objectiveCorrected: string,
    cost: string,
    beneficiaries: string,
    viabilizationDate: string,
    sector: string,
    sectorCorr: string,
    preinvestmentCosts: string,
    classification: string,
    locationData: seq<LocationRow>,
    locTable: string,
    deptos: string,
    jsonld: Option<Place>)

  /** The value of one cell of the output table. */
  datatype Cell =
    | IndexCell(n: nat)
    | TextCell(s: string)
    | LocationsCell(rows: seq<LocationRow>)
    | JsonldCell(place: Option<Place>)

  /** The row's cells, in the order of `Columns`. */
  function Cells(r: OutputRow): (cs: seq<Cell>)
    ensures |cs| == |Columns|
  {
    [IndexCell(r.index), TextCell(r.bpin), TextCell(r.name), TextCell(r.nameCorr),
     TextCell(r.metaTitle), TextCell(r.slug), TextCell(r.objective),
     TextCell(r.objectiveCorrected), TextCell(r.cost), TextCell(r.beneficiaries),
     TextCell(r.viabilizationDate), TextCell(r.sector), TextCell(r.sectorCorr),
     TextCell(r.preinvestmentCosts), TextCell(r.classification),
     LocationsCell(r.locationData), TextCell(r.locTable), TextCell(r.deptos),
     JsonldCell(r.jsonld)]
  }

  /** A column name picks out exactly one cell: the 19 names are distinct. */
  lemma ColumnsDistinct()
    ensures |Columns| == 19
    ensures forall i, j :: 0 <= i < j < |Columns| ==> Columns[i] != Columns[j]
  {
  }

  const MetaTitlePrefix := "Short headline: "

  /**
   * The output row of the project at listing position `idx`: raw fields
   * copied, the name, objective and sector normalised, the meta title and
   * slug derived from the normalised name, and the location summaries.
   */
  function BuildFinalCsvRow(idx: nat, d: ProjectDetail): (r: OutputRow)
    ensures r.index == idx
    ensures r.bpin == d.bpin && r.name == d.nombre && r.objective == d.objetivo
    ensures r.cost == d.costo && r.beneficiaries == d.beneficiarios
    ensures r.viabilizationDate == d.fechaViabilizacion && r.sector == d.sector
    ensures r.preinvestmentCosts == d.preinversion && r.classification == d.clasificacion
    ensures r.locationData == d.locationData && r.locTable == d.locTableHtml
    ensures r.nameCorr == CorrectTextBasic(d.nombre)
    ensures r.objectiveCorrected == CorrectTextBasic(d.objetivo)
    ensures r.sectorCorr == CorrectTextBasic(d.sector)
    ensures r.metaTitle == MetaTitlePrefix + r.nameCorr
    ensures r.slug == Slug.CreateSlug(r.nameCorr) && Slug.IsSlug(r.slug)
    ensures r.deptos == Deptos(d.locationData)
    ensures r.jsonld.None? <==> d.locationData == []
    ensures r.jsonld.Some? ==>
      IsSchemaPlace(r.jsonld.value) && LocationOf(r.jsonld.value) == d.locationData[0]
  {
    var nameCorr := CorrectTextBasic(d.nombre);
    OutputRow(
      idx, d.bpin, d.nombre, nameCorr, MetaTitlePrefix + nameCorr, Slug.CreateSlug(nameCorr),
      d.objetivo, CorrectTextBasic(d.objetivo), d.costo, d.beneficiarios,
      d.fechaViabilizacion, d.sector, CorrectTextBasic(d.sector), d.preinversion,
      d.clasificacion, d.locationData, d.locTableHtml, Deptos(d.locationData),
      JsonldOf(d.locationData))
  }

  /** What the derived text columns look like: the corrected columns are
      trimmed with single spaces, empty exactly for blank input, and the slug
      is already a fixed point of slugging (empty when the name is blank). */
  lemma DerivedColumns(idx: nat, d: ProjectDetail)
    ensures var r := BuildFinalCsvRow(idx, d);
      && Trimmed(r.nameCorr) && NoSpaceRuns(r.nameCorr)
      && Trimmed(r.objectiveCorrected) && NoSpaceRuns(r.objectiveCorrected)
      && Trimmed(r.sectorCorr) && NoSpaceRuns(r.sectorCorr)
      && (r.nameCorr == [] <==> AllSpace(d.nombre))
      && (r.objectiveCorrected == [] <==> AllSpace(d.objetivo))
      && (r.sectorCorr == [] <==> AllSpace(d.sector))
      && (AllSpace(d.nombre) ==> r.slug == [] && r.metaTitle == MetaTitlePrefix)
      && Slug.CreateSlug(r.slug) == r.slug
  {
    var r := BuildFinalCsvRow(idx, d);
    Slug.SlugIdempotent(r.nameCorr);
  }
}
