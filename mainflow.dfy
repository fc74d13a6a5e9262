/**
 * The main flow: read the listing, fetch the detail page of every project
 * that has a UUID, and collect one output row per page that came back with
 * status 200, keeping each project's position in the listing as its index.
 */
module MainFlow {
  import opened Wrappers
  import opened FinalRow
  import opened MainTable
  import opened DetailPage

  const DetailBaseUrl :=
    "https://obrasporimpuestos.renovacionterritorio.gov.co/ObrasImpuestos/_DetalleProyecto?idProyecto="

  const StatusOk := 200

  /** What fetching one detail URL gave: a response with its status code and
      its page, or an exception. */
  datatype FetchOutcome = Received(status: int, page: DetailDoc) | Raised

  /** How a run ends: no listing file, no projects in it, no detail page
      retrieved, or the table of output rows written under `Columns`. */
  datatype RunResult = NoListingFile | NoProjects | NoDetailData | Written(rows: seq<OutputRow>)

  /** The detail URL of a project. */
  function DetailUrl(uuid: string): string {
    DetailBaseUrl + uuid
  }

  /** The output row, if any, of the project at listing position `idx`. */
  function ProcessRow(idx: nat, p: ProjectSummary, fetch: string -> FetchOutcome,
                      unescape: string -> string): (r: Option<OutputRow>)
    ensures r.Some? ==> r.value.index == idx && p.uuid != []
    ensures p.uuid == [] ==> r.None?
  {
    if p.uuid == [] then None
    else
      match fetch(DetailUrl(p.uuid))
      case Received(status, page) =>
        if status == StatusOk then Some(BuildFinalCsvRow(idx, DetailOf(page, unescape))) else None
      case Raised => None
  }

  /** The project at position `i` yields an output row. */
  predicate Emits(ps: seq<ProjectSummary>, fetch: string -> FetchOutcome,
                  unescape: string -> string, i: int) {
    0 <= i < |ps| && ProcessRow(i, ps[i], fetch, unescape).Some?
  }

  /** A project yields a row exactly when it has a UUID and its fetch answered
      with status 200; the row is then built from the page at the project's
      own index. */
  lemma ProcessRowYields(idx: nat, p: ProjectSummary, fetch: string -> FetchOutcome,
                         unescape: string -> string)
    ensures var o := fetch(DetailUrl(p.uuid));
      ProcessRow(idx, p, fetch, unescape).Some? <==> (p.uuid != [] && o.Received? && o.status == StatusOk)
    ensures var o := fetch(DetailUrl(p.uuid));
      ProcessRow(idx, p, fetch, unescape).Some? ==>
        ProcessRow(idx, p, fetch, unescape).value == BuildFinalCsvRow(idx, DetailOf(o.page, unescape))
  {
  }

  // ---------------------------------------------------------------------
  // Collecting the rows that are there

  /** The rows an optional row contributes: none or that one. */
  function RowsOf(r: Option<OutputRow>): (rs: seq<OutputRow>)
    ensures r.None? ==> rs == []
    ensures r.Some? ==> rs == [r.value]
  {
    match r
    case None => []
    case Some(row) => [row]
  }

  /** The rows present in a sequence of outcomes, in order. */
  function Present(os: seq<Option<OutputRow>>): seq<OutputRow> {
    if os == [] then [] else Present(os[..|os| - 1]) + RowsOf(os[|os| - 1])
  }

  /** Every present outcome carries its own position as index. */
  predicate Indexed(os: seq<Option<OutputRow>>) {
    forall i :: 0 <= i < |os| && os[i].Some? ==> os[i].value.index == i
  }

  lemma IndexedPrefix(os: seq<Option<OutputRow>>, n: nat)
    requires Indexed(os) && n <= |os|
    ensures Indexed(os[..n])
  {
    assert forall i :: 0 <= i < n ==> os[..n][i] == os[i];
  }

  /** Every collected row is the outcome at its index. */
  lemma {:induction false} PresentSound(os: seq<Option<OutputRow>>)
    requires Indexed(os)
    ensures forall r :: r in Present(os) ==> r.index < |os| && os[r.index] == Some(r)
  {
    if os != [] {
      var n := |os| - 1;
      IndexedPrefix(os, n);
      PresentSound(os[..n]);
      forall r | r in Present(os) ensures r.index < |os| && os[r.index] == Some(r) {
        if r in Present(os[..n]) {
          assert os[..n][r.index] == os[r.index];
        }
      }
    }
  }

  /** Collected rows have strictly increasing indices. */
  lemma {:induction false} PresentOrdered(os: seq<Option<OutputRow>>)
    requires Indexed(os)
    ensures forall k, l :: 0 <= k < l < |Present(os)| ==> Present(os)[k].index < Present(os)[l].index
  {
    if os != [] {
      var n := |os| - 1;
      IndexedPrefix(os, n);
      PresentOrdered(os[..n]);
      PresentSound(os[..n]);
      var prev := Present(os[..n]);
      var out := Present(os);
      forall k, l | 0 <= k < l < |out| ensures out[k].index < out[l].index {
        assert out[k] == prev[k] && prev[k] in prev;
        if l < |prev| {
          assert out[l] == prev[l];
        }
      }
    }
  }

  /** Some row of `rows` carries index `i`. */
  predicate HasIndex(rows: seq<OutputRow>, i: int) {
    exists k :: 0 <= k < |rows| && rows[k].index == i
  }

  /** Every present outcome is collected. */
  lemma {:induction false} PresentComplete(os: seq<Option<OutputRow>>)
    requires Indexed(os)
    ensures forall i :: 0 <= i < |os| && os[i].Some? ==> HasIndex(Present(os), i)
  {
    if os != [] {
      var n := |os| - 1;
      IndexedPrefix(os, n);
      PresentComplete(os[..n]);
      var prev := Present(os[..n]);
      var out := Present(os);
      forall i | 0 <= i < |os| && os[i].Some?
        ensures HasIndex(out, i)
      {
        assert out == prev + RowsOf(os[n]);
        if i == n {
          assert out[|prev|] == os[n].value;
          assert out[|prev|].index == i;
        } else {
          assert os[..n][i] == os[i];
          assert HasIndex(prev, i);
          var k :| 0 <= k < |prev| && prev[k].index == i;
          assert out[k] == prev[k];
        }
      }
    }
  }

  // ---------------------------------------------------------------------
  // The rows of a project list

  /** What every project of the list yields, by position. */
  function Outcomes(ps: seq<ProjectSummary>, fetch: string -> FetchOutcome,
                    unescape: string -> string): (os: seq<Option<OutputRow>>)
    ensures |os| == |ps| && Indexed(os)
    ensures forall i :: 0 <= i < |ps| ==> os[i] == ProcessRow(i, ps[i], fetch, unescape)
  {
    seq(|ps|, i requires 0 <= i < |ps| => ProcessRow(i, ps[i], fetch, unescape))
  }

  /** The output rows of a project list, in listing order. */
  function FinalRows(ps: seq<ProjectSummary>, fetch: string -> FetchOutcome,
                     unescape: string -> string): seq<OutputRow> {
    Present(Outcomes(ps, fetch, unescape))
  }

  /** Output row `r` is the one the project at its own index yields. */
  predicate RowFrom(ps: seq<ProjectSummary>, fetch: string -> FetchOutcome,
                    unescape: string -> string, r: OutputRow) {
    r.index < |ps| && ProcessRow(r.index, ps[r.index], fetch, unescape) == Some(r)
  }

  /**
   * The selection the loop makes: every output row is the one the project
   * at its own index yields; the indices increase strictly, so rows keep
   * listing order and are neither renumbered nor repeated; and every project
   * that yields a row appears.
   */
  lemma FinalRowsSelection(ps: seq<ProjectSummary>, fetch: string -> FetchOutcome,
                           unescape: string -> string)
    ensures var out := FinalRows(ps, fetch, unescape);
      && (forall r :: r in out ==> RowFrom(ps, fetch, unescape, r))
      && (forall k, l :: 0 <= k < l < |out| ==> out[k].index < out[l].index)
      && (forall i :: Emits(ps, fetch, unescape, i) ==> HasIndex(out, i))
  {
    var os := Outcomes(ps, fetch, unescape);
    PresentSound(os);
    PresentOrdered(os);
    PresentComplete(os);
  }

  /** No row comes from a project without a UUID, nor from one whose fetch
      raised or answered with another status than 200. */
  lemma SkippedProjects(ps: seq<ProjectSummary>, fetch: string -> FetchOutcome,
                        unescape: string -> string, i: nat)
    requires i < |ps|
    requires ps[i].uuid == [] || fetch(DetailUrl(ps[i].uuid)).Raised?
      || fetch(DetailUrl(ps[i].uuid)).status != StatusOk
    ensures forall r :: r in FinalRows(ps, fetch, unescape) ==> r.index != i
  {
    FinalRowsSelection(ps, fetch, unescape);
  }

  /**
   * The loop over the project list: skip projects without a UUID, fetch the
   * detail page of the others, and append the row of every page that came
   * back with status 200.
   */
  method CollectRows(projects: seq<ProjectSummary>, fetch: string -> FetchOutcome,
                     unescape: string -> string) returns (finalRows: seq<OutputRow>)
    ensures finalRows == FinalRows(projects, fetch, unescape)
  {
    ghost var os := Outcomes(projects, fetch, unescape);
    finalRows := [];
    for idx := 0 to |projects|
      invariant finalRows == Present(os[..idx])
    {
      assert os[..idx + 1][..idx] == os[..idx];
      var uuid := projects[idx].uuid;
      if uuid == [] {
        continue;
      }
      var response := fetch(DetailUrl(uuid));
      if response.Received? && response.status == StatusOk {
        var detail := ParseDetailPage(response.page, unescape);
        var finalRow := BuildFinalCsvRow(idx, detail);
        finalRows := finalRows + [finalRow];
      }
    }
    assert os[..|projects|] == os;
  }

  /** How a run ends, given the listing (if its file exists). */
  function RunOf(listing: Option<Listing>, fetch: string -> FetchOutcome,
                 unescape: string -> string): (res: RunResult)
    ensures res.Written? ==> res.rows != []
  {
    match listing
    case None => NoListingFile
    case Some(l) =>
      var projects := ProjectsOf(l);
      if projects == [] then NoProjects
      else
        var rows := FinalRows(projects, fetch, unescape);
        if rows == [] then NoDetailData else Written(rows)
  }

  /** A table is written exactly when some project yields a row, and every
      written row is the one the project at its index yields. */
  lemma WrittenRows(listing: Listing, fetch: string -> FetchOutcome, unescape: string -> string)
    ensures var ps := ProjectsOf(listing);
      var res := RunOf(Some(listing), fetch, unescape);
      && (res.Written? <==> exists i :: Emits(ps, fetch, unescape, i))
      && (res.Written? ==> forall r :: r in res.rows ==> RowFrom(ps, fetch, unescape, r))
  {
    var ps := ProjectsOf(listing);
    FinalRowsSelection(ps, fetch, unescape);
    var out := FinalRows(ps, fetch, unescape);
    if out != [] {
      assert RowFrom(ps, fetch, unescape, out[0]);
      assert Emits(ps, fetch, unescape, out[0].index);
    }
  }

  /** The whole run: read the listing, stop when it has no projects, collect
      the rows, stop when there are none, otherwise write them. */
  method Run(listing: Option<Listing>, fetch: string -> FetchOutcome,
             unescape: string -> string) returns (result: RunResult)
    ensures result == RunOf(listing, fetch, unescape)
  {
    if listing.None? {
      return NoListingFile;
    }
    var projects := ParseMainTable(listing.value);
    if projects == [] {
      return NoProjects;
    }
    var finalRows := CollectRows(projects, fetch, unescape);
    if finalRows == [] {
      return NoDetailData;
    }
    return Written(finalRows);
  }
}
