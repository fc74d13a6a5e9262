/**
 * The project listing: the rows of the `_tblProyecto` table, reduced to one
 * summary per project row, with the project's UUID taken from the
 * `VerDetalleProyecto('…')` call of its "Ver Detalle" button.
 */
module MainTable {
  import opened Wrappers
  import opened Text
  import Rows

  // ---------------------------------------------------------------------
  // The parsed listing

  /** A `<button>` inside a cell, with its `title` and `onclick` attributes. */
  datatype Button = Button(title: Option<string>, onclick: Option<string>)

  /** A `<td>`: its text nodes in document order and the buttons inside it. */
  datatype Cell = Cell(texts: seq<string>, buttons: seq<Button>)

  /** A `<tr>` is its sequence of `<td>` cells. */
  type Row = seq<Cell>

  /** The listing document: no `_tblProyecto` table, a table without
      `<tbody>`, or the rows of its body. */
  datatype Listing = NoTable | NoBody | Body(rows: seq<Row>)

  /** One entry of the project list. */
  datatype ProjectSummary = ProjectSummary(
    proyectoId: string,
    codigo: string,
    nombre: string,
    costo: string,
    sector: string,
    localizacion: string,
    clasificacion: string,
    uuid: string)

  const DetailTitle := "Ver Detalle"

  /** Button `k` is the first one titled "Ver Detalle". */
  predicate FirstDetailButtonAt(bs: seq<Button>, k: int) {
    && 0 <= k < |bs|
    && bs[k].title == Some(DetailTitle)
    && forall j :: 0 <= j < k ==> bs[j].title != Some(DetailTitle)
  }

  lemma FirstDetailButtonUnique(bs: seq<Button>, k: int, k': int)
    requires FirstDetailButtonAt(bs, k) && FirstDetailButtonAt(bs, k')
    ensures k == k'
  {
    assert !(k < k') && !(k' < k);
  }

  /** The first button whose title is "Ver Detalle". */
  function FindDetailButton(bs: seq<Button>): (b: Option<Button>)
    ensures b.None? <==> forall k :: 0 <= k < |bs| ==> bs[k].title != Some(DetailTitle)
    ensures b.Some? ==> exists k :: FirstDetailButtonAt(bs, k) && bs[k] == b.value
  {
    if bs == [] then None
    else if bs[0].title == Some(DetailTitle) then Some(bs[0])
    else
      var b := FindDetailButton(bs[1..]);
      assert b.Some? ==> exists k :: FirstDetailButtonAt(bs, k) && bs[k] == b.value by {
        if b.Some? {
          var k :| FirstDetailButtonAt(bs[1..], k) && bs[1..][k] == b.value;
          assert forall j :: 0 <= j < k + 1 ==> bs[j].title != Some(DetailTitle) by {
            forall j | 0 <= j < k + 1 ensures bs[j].title != Some(DetailTitle) {
              if j > 0 {
                assert bs[j] == bs[1..][j - 1];
              }
            }
          }
          assert FirstDetailButtonAt(bs, k + 1);
        }
      }
      assert b.None? ==> forall k :: 0 <= k < |bs| ==> bs[k].title != Some(DetailTitle) by {
        if b.None? {
          forall k | 0 <= k < |bs| ensures bs[k].title != Some(DetailTitle) {
            if k > 0 {
              assert bs[k] == bs[1..][k - 1];
            }
          }
        }
      }
      b
  }

  // ---------------------------------------------------------------------
  // The UUID pattern  VerDetalleProyecto\('([^']+)'\)

  const CallPrefix := "VerDetalleProyecto('"

  /** The longest run of characters other than `'` starting at `k`. */
  function QuoteFree(s: string, k: nat): (t: string)
    requires k <= |s|
    ensures k + |t| <= |s| && t == s[k..k + |t|]
    ensures '\'' !in t
    ensures k + |t| == |s| || s[k + |t|] == '\''
    decreases |s| - k
  {
    if k == |s| || s[k] == '\'' then [] else [s[k]] + QuoteFree(s, k + 1)
  }

  /** The pattern matches `s` at position `p`, with a group of length `n`:
      the prefix, `n` characters none of which is `'`, then `')`. This is the
      regular expression read literally. */
  ghost predicate PatternAt(s: string, p: nat, n: nat) {
    && n >= 1
    && p + |CallPrefix| + n + 2 <= |s|
    && s[p..p + |CallPrefix|] == CallPrefix
    && (forall i :: p + |CallPrefix| <= i < p + |CallPrefix| + n ==> s[i] != '\'')
    && s[p + |CallPrefix| + n] == '\''
    && s[p + |CallPrefix| + n + 1] == ')'
  }

  /** The group captured by a match at `p`: the quote-free run after the
      prefix. */
  function TokenAt(s: string, p: nat): string
    requires p + |CallPrefix| <= |s|
  {
    QuoteFree(s, p + |CallPrefix|)
  }

  /** The pattern matches at `p` (checked without backtracking: the group can
      only end at the first `'`). */
  predicate MatchesAt(s: string, p: nat) {
    && p + |CallPrefix| <= |s|
    && s[p..p + |CallPrefix|] == CallPrefix
    && var t := TokenAt(s, p);
      && |t| >= 1
      && p + |CallPrefix| + |t| + 2 <= |s|
      && s[p + |CallPrefix| + |t| + 1] == ')'
  }

  /** The check without backtracking agrees with the pattern read literally,
      and a match at `p` has exactly one group: the quote-free run. */
  lemma MatchesAtIsPattern(s: string, p: nat)
    ensures MatchesAt(s, p) <==> exists n :: PatternAt(s, p, n)
    ensures forall n :: PatternAt(s, p, n) ==> n == |TokenAt(s, p)|
  {
    forall n | PatternAt(s, p, n) ensures n == |TokenAt(s, p)| {
      PatternGroupIsRun(s, p, n);
    }
    if MatchesAt(s, p) {
      var t := TokenAt(s, p);
      assert forall i :: p + |CallPrefix| <= i < p + |CallPrefix| + |t| ==>
        s[i] == t[i - p - |CallPrefix|];
      assert PatternAt(s, p, |t|);
    }
  }

  lemma PatternGroupIsRun(s: string, p: nat, n: nat)
    requires PatternAt(s, p, n)
    ensures n == |TokenAt(s, p)|
  {
  }

  /** `q` is the first position at or after `p` where the pattern matches. */
  predicate LeftmostMatch(s: string, p: nat, q: nat) {
    && p <= q <= |s|
    && MatchesAt(s, q)
    && forall q' :: p <= q' < q ==> !MatchesAt(s, q')
  }

  /** `re.search` from position `p`: the group of the leftmost match at or
      after `p`. */
  function SearchFrom(s: string, p: nat): (r: Option<string>)
    requires p <= |s|
    ensures r.None? <==> forall q :: p <= q <= |s| ==> !MatchesAt(s, q)
    ensures r.Some? ==> exists q :: LeftmostMatch(s, p, q) && r.value == TokenAt(s, q)
    decreases |s| - p
  {
    if MatchesAt(s, p) then Some(TokenAt(s, p))
    else if p == |s| then None
    else
      var r := SearchFrom(s, p + 1);
      assert forall q :: p <= q <= |s| ==> (!MatchesAt(s, q) <==> q == p || !MatchesAt(s, q));
      r
  }

  /** The captured group is never empty and never holds a `'`. */
  lemma SearchToken(s: string)
    ensures var r := SearchFrom(s, 0);
      r.Some? ==> |r.value| >= 1 && '\'' !in r.value
  {
    var r := SearchFrom(s, 0);
    if r.Some? {
      var q :| LeftmostMatch(s, 0, q) && r.value == TokenAt(s, q);
    }
  }

  /** The UUID of a row: the group of the first match in the onclick of the
      "Ver Detalle" button of cell 8, or "" when any step finds nothing. */
  function UuidOf(cell: Cell): (u: string)
    ensures u == [] || '\'' !in u
  {
    match FindDetailButton(cell.buttons)
    case None => ""
    case Some(b) =>
      match b.onclick
      case None => ""
      case Some(onclick) =>
        match SearchFrom(onclick, 0)
        case None => ""
        case Some(t) => t
  }

  /** The UUID stays "" in exactly the three cases where a step finds
      nothing: no "Ver Detalle" button, no `onclick` on the first one, or no
      match of the pattern anywhere in its `onclick`. */
  lemma UuidOfEmpty(cell: Cell)
    ensures (forall k :: 0 <= k < |cell.buttons| ==> cell.buttons[k].title != Some(DetailTitle))
      ==> UuidOf(cell) == []
    ensures forall k :: FirstDetailButtonAt(cell.buttons, k) && cell.buttons[k].onclick.None? ==>
      UuidOf(cell) == []
    ensures forall k :: FirstDetailButtonAt(cell.buttons, k) && cell.buttons[k].onclick.Some? ==>
      (UuidOf(cell) == [] <==>
        forall q :: 0 <= q <= |cell.buttons[k].onclick.value| ==> !MatchesAt(cell.buttons[k].onclick.value, q))
  {
    var bs := cell.buttons;
    var b := FindDetailButton(bs);
    if b.Some? {
      var k' :| FirstDetailButtonAt(bs, k') && bs[k'] == b.value;
      forall k | FirstDetailButtonAt(bs, k) ensures bs[k] == b.value {
        FirstDetailButtonUnique(bs, k, k');
      }
      if b.value.onclick.Some? {
        SearchToken(b.value.onclick.value);
      }
    }
  }

  /** A button reaching the detail page through `VerDetalleProyecto('tok')`
      yields `tok`, whatever text surrounds the call. */
  lemma UuidOfCall(before: string, tok: string, after: string, others: seq<Button>, texts: seq<string>)
    requires |tok| >= 1 && '\'' !in tok
    requires forall k :: 0 <= k < |others| ==> others[k].title != Some(DetailTitle)
    requires forall q :: 0 <= q < |before| ==> !MatchesAt(before + CallPrefix + tok + "')" + after, q)
    ensures UuidOf(Cell(texts,
      others + [Button(Some(DetailTitle), Some(before + CallPrefix + tok + "')" + after))])) == tok
  {
    var s := before + CallPrefix + tok + "')" + after;
    DetailButtonAfterOthers(others, Button(Some(DetailTitle), Some(s)));
    CallMatches(before, tok, after);
    SearchFindsLeftmost(s, |before|);
    assert SearchFrom(s, 0) == Some(tok);
  }

  lemma DetailButtonAfterOthers(others: seq<Button>, b: Button)
    requires forall k :: 0 <= k < |others| ==> others[k].title != Some(DetailTitle)
    requires b.title == Some(DetailTitle)
    ensures FindDetailButton(others + [b]) == Some(b)
  {
    var bs := others + [b];
    assert forall j :: 0 <= j < |others| ==> bs[j] == others[j];
    assert FirstDetailButtonAt(bs, |others|);
    var k :| FirstDetailButtonAt(bs, k) && bs[k] == FindDetailButton(bs).value;
    FirstDetailButtonUnique(bs, k, |others|);
  }

  lemma CallMatches(before: string, tok: string, after: string)
    requires |tok| >= 1 && '\'' !in tok
    ensures var s := before + CallPrefix + tok + "')" + after;
      MatchesAt(s, |before|) && TokenAt(s, |before|) == tok
  {
    var s := before + CallPrefix + tok + "')" + after;
    var p := |before|;
    var k := p + |CallPrefix|;
    assert s[p..k] == CallPrefix;
    assert s[k..k + |tok|] == tok;
    assert s[k + |tok|] == '\'';
    assert s[k + |tok| + 1] == ')';
    forall i | k <= i < k + |tok| ensures s[i] != '\'' {
      assert s[i] == tok[i - k];
    }
    assert PatternAt(s, p, |tok|);
    MatchesAtIsPattern(s, p);
  }

  lemma SearchFindsLeftmost(s: string, p: nat)
    requires p <= |s| && MatchesAt(s, p)
    requires forall q :: 0 <= q < p ==> !MatchesAt(s, q)
    ensures SearchFrom(s, 0) == Some(TokenAt(s, p))
  {
    var r := SearchFrom(s, 0);
    var q :| LeftmostMatch(s, 0, q) && r.value == TokenAt(s, q);
    assert q == p;
  }

  // ---------------------------------------------------------------------
  // Summaries

  /** The summary of a row with at least nine cells. */
  function Summarize(tds: Row): (ps: ProjectSummary)
    requires |tds| >= 9
    ensures ps.uuid == UuidOf(tds[8])
    ensures Trimmed(ps.proyectoId) && Trimmed(ps.codigo) && Trimmed(ps.nombre) && Trimmed(ps.costo)
    ensures Trimmed(ps.sector) && Trimmed(ps.localizacion) && Trimmed(ps.clasificacion)
  {
    ProjectSummary(
      GetText(tds[0].texts), GetText(tds[1].texts), GetText(tds[2].texts),
      GetText(tds[3].texts), GetText(tds[4].texts), GetText(tds[5].texts),
      GetText(tds[6].texts), UuidOf(tds[8]))
  }

  /** The summaries of the rows with at least nine cells, in row order. */
  function SummariesOf(rows: seq<Row>): seq<ProjectSummary> {
    if rows == [] then []
    else
      var last := rows[|rows| - 1];
      SummariesOf(rows[..|rows| - 1]) + (if |last| < 9 then [] else [Summarize(last)])
  }

  /** One summary per row with at least nine cells, in document order: the
      k-th summary is the summary of the k-th such row. */
  lemma {:induction false} SummariesFollowRows(rows: seq<Row>)
    ensures |SummariesOf(rows)| == |Rows.KeptPositions(rows, 9)|
    ensures forall k :: 0 <= k < |Rows.KeptPositions(rows, 9)| ==>
      SummariesOf(rows)[k] == Summarize(rows[Rows.KeptPositions(rows, 9)[k]])
  {
    if rows != [] {
      var n := |rows| - 1;
      var init := rows[..n];
      SummariesFollowRows(init);
      var ks := Rows.KeptPositions(init, 9);
      var prev := SummariesOf(init);
      var out := SummariesOf(rows);
      var kept := Rows.KeptPositions(rows, 9);
      if |rows[n]| < 9 {
        assert out == prev && kept == ks;
        forall k | 0 <= k < |ks| ensures out[k] == Summarize(rows[kept[k]]) {
          assert init[ks[k]] == rows[ks[k]];
        }
      } else {
        assert out == prev + [Summarize(rows[n])] && kept == ks + [n];
        forall k | 0 <= k < |kept| ensures out[k] == Summarize(rows[kept[k]]) {
          if k < |ks| {
            assert out[k] == prev[k] && kept[k] == ks[k];
            assert init[ks[k]] == rows[ks[k]];
          }
        }
      }
    }
  }

  /** The summaries of a listing split anywhere are the summaries of the two
      parts, one after the other. */
  lemma {:induction false} SummariesConcat(a: seq<Row>, b: seq<Row>)
    ensures SummariesOf(a + b) == SummariesOf(a) + SummariesOf(b)
  {
    if b != [] {
      var n := |b| - 1;
      assert (a + b)[..|a + b| - 1] == a + b[..n];
      SummariesConcat(a, b[..n]);
    } else {
      assert a + b == a;
    }
  }

  /** Every summary's UUID is "" or a non-empty token without `'`. */
  lemma SummaryUuids(rows: seq<Row>)
    ensures forall ps :: ps in SummariesOf(rows) ==> ps.uuid == [] || '\'' !in ps.uuid
  {
    SummariesFollowRows(rows);
  }

  // ---------------------------------------------------------------------
  // The loop

  /** The project list of a listing: empty without a table or body. */
  function ProjectsOf(listing: Listing): seq<ProjectSummary> {
    match listing
    case Body(rows) => SummariesOf(rows)
    case _ => []
  }

  /**
   * Walk the body rows, skip those with fewer than nine cells, and append
   * one summary per remaining row, taking the UUID from the detail button
   * when its onclick holds the call.
   */
  method ParseMainTable(listing: Listing) returns (projects: seq<ProjectSummary>)
    ensures projects == ProjectsOf(listing)
  {
    projects := [];
    if listing.NoTable? || listing.NoBody? {
      return;
    }
    var rows := listing.rows;
    for i := 0 to |rows|
      invariant projects == SummariesOf(rows[..i])
    {
      assert rows[..i + 1][..i] == rows[..i];
      var tds := rows[i];
      if |tds| < 9 {
        continue;
      }
      var uuid := "";
      var button := FindDetailButton(tds[8].buttons);
      if button.Some? && button.value.onclick.Some? {
        var found := SearchFrom(button.value.onclick.value, 0);
        if found.Some? {
          uuid := found.value;
        }
      }
      var project := ProjectSummary(
        GetText(tds[0].texts), GetText(tds[1].texts), GetText(tds[2].texts),
        GetText(tds[3].texts), GetText(tds[4].texts), GetText(tds[5].texts),
        GetText(tds[6].texts), uuid);
      projects := projects + [project];
    }
    assert rows[..|rows|] == rows;
  }
}
