/**
 * The detail page of one project: the input fields, the two text areas and
 * the location table, reduced to a `ProjectDetail`.
 */
module DetailPage {
  import opened Wrappers
  import opened Text
  import Rows
  import opened FinalRow

  // ---------------------------------------------------------------------
  // The parsed page

  /** An `<input>` or `<textarea>`: its tag, `id` and `value` attributes and
      its text nodes. */
  datatype Element = Element(tag: string, id: Option<string>, value: Option<string>, texts: seq<string>)

  /** A `<td>` of the location table is its text nodes. */
  type LocCell = seq<string>

  /** A `<table>`: its `id`, its markup once its class is set to
      "ubicacion-proyecto", and the rows of its `<tbody>`, if it has one. */
  datatype Table = Table(id: Option<string>, markup: string, body: Option<seq<seq<LocCell>>>)

  /** The page: its form elements and its tables, each in document order. */
  datatype DetailDoc = DetailDoc(elements: seq<Element>, tables: seq<Table>)

  const LocTableId := "_tblDetallePryecto"

  /** Element `k` is the first with this tag and id. */
  predicate FirstElementAt(es: seq<Element>, tag: string, id: string, k: int) {
    && 0 <= k < |es|
    && es[k].tag == tag && es[k].id == Some(id)
    && forall j :: 0 <= j < k ==> !(es[j].tag == tag && es[j].id == Some(id))
  }

  /** `soup.find(tag, id=id)`: the first element with that tag and id. */
  function FindElement(es: seq<Element>, tag: string, id: string): (e: Option<Element>)
    ensures e.None? <==> forall k :: 0 <= k < |es| ==> !(es[k].tag == tag && es[k].id == Some(id))
    ensures e.Some? ==> exists k :: FirstElementAt(es, tag, id, k) && es[k] == e.value
  {
    if es == [] then None
    else if es[0].tag == tag && es[0].id == Some(id) then Some(es[0])
    else
      var e := FindElement(es[1..], tag, id);
      assert e.Some? ==> exists k :: FirstElementAt(es, tag, id, k) && es[k] == e.value by {
        if e.Some? {
          var k :| FirstElementAt(es[1..], tag, id, k) && es[1..][k] == e.value;
          assert FirstElementAt(es, tag, id, k + 1) by {
            forall j | 0 <= j < k + 1 ensures !(es[j].tag == tag && es[j].id == Some(id)) {
              if j > 0 {
                assert es[j] == es[1..][j - 1];
              }
            }
          }
        }
      }
      assert e.None? ==> forall k :: 0 <= k < |es| ==> !(es[k].tag == tag && es[k].id == Some(id)) by {
        if e.None? {
          forall k | 0 <= k < |es| ensures !(es[k].tag == tag && es[k].id == Some(id)) {
            if k > 0 {
              assert es[k] == es[1..][k - 1];
            }
          }
        }
      }
      e
  }

  /** Table `k` is the first with id `_tblDetallePryecto`. */
  predicate FirstLocTableAt(ts: seq<Table>, k: int) {
    && 0 <= k < |ts|
    && ts[k].id == Some(LocTableId)
    && forall j :: 0 <= j < k ==> ts[j].id != Some(LocTableId)
  }

  /** `soup.find("table", id=_tblDetallePryecto)`: the first such table. */
  function FindLocTable(ts: seq<Table>): (t: Option<Table>)
    ensures t.None? <==> forall k :: 0 <= k < |ts| ==> ts[k].id != Some(LocTableId)
    ensures t.Some? ==> exists k :: FirstLocTableAt(ts, k) && ts[k] == t.value
  {
    if ts == [] then None
    else if ts[0].id == Some(LocTableId) then
      assert FirstLocTableAt(ts, 0);
      Some(ts[0])
    else
      var t := FindLocTable(ts[1..]);
      assert t.Some? ==> exists k :: FirstLocTableAt(ts, k) && ts[k] == t.value by {
        if t.Some? {
          var k :| FirstLocTableAt(ts[1..], k) && ts[1..][k] == t.value;
          assert FirstLocTableAt(ts, k + 1) by {
            forall j | 0 <= j < k + 1 ensures ts[j].id != Some(LocTableId) {
              if j > 0 {
                assert ts[j] == ts[1..][j - 1];
              }
            }
          }
        }
      }
      assert t.None? ==> forall k :: 0 <= k < |ts| ==> ts[k].id != Some(LocTableId) by {
        if t.None? {
          forall k | 0 <= k < |ts| ensures ts[k].id != Some(LocTableId) {
            if k > 0 {
              assert ts[k] == ts[1..][k - 1];
            }
          }
        }
      }
      t
  }

  // ---------------------------------------------------------------------
  // Fields

  /** The value an `<input>` gives: its stripped `value` attribute, or ""
      without one. */
  function InputValue(e: Element): (v: string)
    ensures Trimmed(v)
    ensures e.value.None? ==> v == []
    ensures e.value.Some? ==> v == Strip(e.value.value)
  {
    match e.value
    case None => ""
    case Some(x) => Strip(x)
  }

  /** `get_input_value`: the value of the first `<input>` with this id, or ""
      when there is none. */
  function GetInputValue(doc: DetailDoc, id: string): (v: string)
    ensures Trimmed(v)
  {
    match FindElement(doc.elements, "input", id)
    case None => ""
    case Some(e) => InputValue(e)
  }

  /** At most one element is the first with a given tag and id. */
  lemma FirstElementUnique(es: seq<Element>, tag: string, id: string, k: int, k': int)
    requires FirstElementAt(es, tag, id, k) && FirstElementAt(es, tag, id, k')
    ensures k == k'
  {
    assert !(k < k') && !(k' < k);
  }

  /** An input field is empty when the page has no `<input>` with its id;
      otherwise it is the value of the first one. Later inputs with the same
      id are never read. */
  lemma InputValueOf(doc: DetailDoc, id: string)
    ensures (forall k :: 0 <= k < |doc.elements| ==>
      !(doc.elements[k].tag == "input" && doc.elements[k].id == Some(id))) ==> GetInputValue(doc, id) == []
    ensures forall k :: FirstElementAt(doc.elements, "input", id, k) ==>
      GetInputValue(doc, id) == InputValue(doc.elements[k])
  {
    var e := FindElement(doc.elements, "input", id);
    if e.Some? {
      var k' :| FirstElementAt(doc.elements, "input", id, k') && doc.elements[k'] == e.value;
      forall k | FirstElementAt(doc.elements, "input", id, k)
        ensures GetInputValue(doc, id) == InputValue(doc.elements[k])
      {
        FirstElementUnique(doc.elements, "input", id, k, k');
      }
    }
  }

  /** A text area's text, stripped and unescaped, or "" without one. The
      result need not be trimmed: `unescape` runs after the strip, so an
      entity such as `&#32;` can put whitespace back at either end. */
  function TextAreaText(doc: DetailDoc, id: string, unescape: string -> string): (t: string)
    ensures (forall k :: 0 <= k < |doc.elements| ==>
      !(doc.elements[k].tag == "textarea" && doc.elements[k].id == Some(id))) ==> t == []
    ensures forall k :: FirstElementAt(doc.elements, "textarea", id, k) ==>
      t == unescape(GetText(doc.elements[k].texts))
  {
    match FindElement(doc.elements, "textarea", id)
    case None => ""
    case Some(area) =>
      assert forall k :: FirstElementAt(doc.elements, "textarea", id, k) ==> doc.elements[k] == area by {
        var k' :| FirstElementAt(doc.elements, "textarea", id, k') && doc.elements[k'] == area;
        forall k | FirstElementAt(doc.elements, "textarea", id, k) ensures doc.elements[k] == area {
          FirstElementUnique(doc.elements, "textarea", id, k, k');
        }
      }
      unescape(GetText(area.texts))
  }

  /** A kept location row: the text of its first three cells. */
  function LocationOfCells(tds: seq<LocCell>): (r: LocationRow)
    requires |tds| >= 3
    ensures Trimmed(r.dept) && Trimmed(r.dane) && Trimmed(r.muni)
  {
    LocationRow(GetText(tds[0]), GetText(tds[1]), GetText(tds[2]))
  }

  /** The location rows of a table body: rows with fewer than three cells are
      skipped. */
  function LocationRowsOf(rows: seq<seq<LocCell>>): seq<LocationRow> {
    if rows == [] then []
    else
      var last := rows[|rows| - 1];
      LocationRowsOf(rows[..|rows| - 1]) + (if |last| < 3 then [] else [LocationOfCells(last)])
  }

  /** One location row per body row with at least three cells, in order:
      the k-th location is the first three cells of the k-th such row. */
  lemma {:induction false} LocationRowsFollowRows(rows: seq<seq<LocCell>>)
    ensures |LocationRowsOf(rows)| == |Rows.KeptPositions(rows, 3)|
    ensures forall k :: 0 <= k < |Rows.KeptPositions(rows, 3)| ==>
      LocationRowsOf(rows)[k] == LocationOfCells(rows[Rows.KeptPositions(rows, 3)[k]])
  {
    if rows != [] {
      var n := |rows| - 1;
      var init := rows[..n];
      LocationRowsFollowRows(init);
      var ks := Rows.KeptPositions(init, 3);
      var prev := LocationRowsOf(init);
      var out := LocationRowsOf(rows);
      var kept := Rows.KeptPositions(rows, 3);
      if |rows[n]| < 3 {
        assert out == prev && kept == ks;
        forall k | 0 <= k < |ks| ensures out[k] == LocationOfCells(rows[kept[k]]) {
          assert init[ks[k]] == rows[ks[k]];
        }
      } else {
        assert out == prev + [LocationOfCells(rows[n])] && kept == ks + [n];
        forall k | 0 <= k < |kept| ensures out[k] == LocationOfCells(rows[kept[k]]) {
          if k < |ks| {
            assert out[k] == prev[k] && kept[k] == ks[k];
            assert init[ks[k]] == rows[ks[k]];
          }
        }
      }
    }
  }

  /** The location data of the page: empty without the table or its body. */
  function LocationDataOf(doc: DetailDoc): seq<LocationRow> {
    match FindLocTable(doc.tables)
    case None => []
    case Some(t) =>
      match t.body
      case None => []
      case Some(rows) => LocationRowsOf(rows)
  }

  /** What the page yields, field by field. */
  function DetailOf(doc: DetailDoc, unescape: string -> string): ProjectDetail {
    ProjectDetail(
      GetInputValue(doc, "_CODIGOBPIN"),
      TextAreaText(doc, "_NOMBREPROYECTO", unescape),
      TextAreaText(doc, "_DESCRIPCION", unescape),
      GetInputValue(doc, "_COSTO"),
      GetInputValue(doc, "_BENEFICIARIOS"),
      GetInputValue(doc, "_FECHAVIABILIZACION"),
      GetInputValue(doc, "_SECTOR"),
      GetInputValue(doc, "_PREINVERSION"),
      GetInputValue(doc, "_CLASIFICACION"),
      match FindLocTable(doc.tables) { case None => "" case Some(t) => t.markup },
      LocationDataOf(doc))
  }

  /** The fields a page without inputs, text areas or location table yields:
      all empty. */
  lemma EmptyPage(unescape: string -> string)
    ensures DetailOf(DetailDoc([], []), unescape)
      == ProjectDetail("", "", "", "", "", "", "", "", "", "", [])
  {
  }

  /** Every input field of the detail is trimmed, and so is every cell of
      its location data. */
  lemma DetailFieldsTrimmed(doc: DetailDoc, unescape: string -> string)
    ensures var d := DetailOf(doc, unescape);
      && Trimmed(d.bpin) && Trimmed(d.costo) && Trimmed(d.beneficiarios)
      && Trimmed(d.fechaViabilizacion) && Trimmed(d.sector)
      && Trimmed(d.preinversion) && Trimmed(d.clasificacion)
      && forall r :: r in d.locationData ==> Trimmed(r.dept) && Trimmed(r.dane) && Trimmed(r.muni)
  {
    match FindLocTable(doc.tables)
    case None =>
    case Some(t) =>
      match t.body
      case None =>
      case Some(rows) =>
        LocationRowsFollowRows(rows);
  }

  /** The loop over the body rows of the location table: every row with at
      least three cells appends the text of its first three. */
  method ReadLocationRows(rows: seq<seq<LocCell>>) returns (data: seq<LocationRow>)
    ensures data == LocationRowsOf(rows)
  {
    data := [];
    for i := 0 to |rows|
      invariant data == LocationRowsOf(rows[..i])
    {
      assert rows[..i + 1][..i] == rows[..i];
      var tds := rows[i];
      if |tds| >= 3 {
        var dept := GetText(tds[0]);
        var dane := GetText(tds[1]);
        var muni := GetText(tds[2]);
        data := data + [LocationRow(dept, dane, muni)];
      }
    }
    assert rows[..|rows|] == rows;
  }

  /**
   * Fill the detail from the page: the inputs, the text areas, and, when the
   * location table is there, its markup and one row per body row with at
   * least three cells.
   */
  method ParseDetailPage(doc: DetailDoc, unescape: string -> string) returns (detail: ProjectDetail)
    ensures detail == DetailOf(doc, unescape)
  {
    detail := ProjectDetail(
      GetInputValue(doc, "_CODIGOBPIN"), "", "",
      GetInputValue(doc, "_COSTO"),
      GetInputValue(doc, "_BENEFICIARIOS"),
      GetInputValue(doc, "_FECHAVIABILIZACION"),
      GetInputValue(doc, "_SECTOR"),
      GetInputValue(doc, "_PREINVERSION"),
      GetInputValue(doc, "_CLASIFICACION"),
      "", []);

    var nombre := FindElement(doc.elements, "textarea", "_NOMBREPROYECTO");
    if nombre.Some? {
      detail := detail.(nombre := unescape(GetText(nombre.value.texts)));
    }
    var objetivo := FindElement(doc.elements, "textarea", "_DESCRIPCION");
    if objetivo.Some? {
      detail := detail.(objetivo := unescape(GetText(objetivo.value.texts)));
    }

    var locTable := FindLocTable(doc.tables);
    if locTable.Some? {
      detail := detail.(locTableHtml := locTable.value.markup);
      if locTable.value.body.Some? {
        var data := ReadLocationRows(locTable.value.body.value);
        detail := detail.(locationData := data);
      }
    }
  }
}
