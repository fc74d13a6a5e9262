# Project table builder, modelled in Dafny

`produce_project_table.py` builds a CSV of public works projects ("obras por
impuestos").

- It reads a saved listing page, and keeps one summary per row of the
  `_tblProyecto` table that has at least nine cells. The project's UUID
  comes from the `VerDetalleProyecto('…')` call of the row's "Ver Detalle"
  button.
- It fetches the detail page of every project that has a UUID.
- From every page answered with status 200, it reads the input fields, the
  name and objective text areas, and the location table.
- For each such page it builds one 19-column output row. Corrected text
  columns, a meta title, a URL slug, a department summary and a schema.org
  JSON-LD place are derived from the detail.

This project models that pipeline and proves what each stage promises. The
modules are:

- `Text`: Python's `str.isspace`, `strip`, `re.sub(r"\s+", sep, …)`,
  `str.join` and BeautifulSoup's `get_text(strip=True)`, plus
  `correct_text_basic`. Whitespace collapsing and `correct_text_basic` are
  measured against `Words`, the maximal runs of non-whitespace characters.
- `Slug`: `remove_accents_and_lower` (canonical decomposition, ASCII filter,
  lower-casing) and `create_slug`.
- `Lex`: Python's ordering of `str`, and `sorted(set(…))`.
- `Rows`: the row filter both tables use, which keeps rows with enough
  cells, in order.
- `FinalRow`: `build_jsonld`, the department summary and
  `build_final_csv_row`.
- `MainTable`: `parse_main_table`, as a method with a loop proved against
  `ProjectsOf`. The `re.search` of the onclick text is modelled as a leftmost
  search. It is shown to agree with the pattern read literally.
- `DetailPage`: `parse_detail_page`, as a method proved against `DetailOf`.
  Its location-table loop is a method of its own.
- `MainFlow`: `main`. The loop over the project list is a method proved
  against `FinalRows`. The whole run is `Run`, proved against `RunOf`.
- `Examples`: worked instances. Single accented letters. `" a  b "`
  corrected to `"A b"`. `"A   B--C"` slugged to `"a-b-c"` (with the letters
  as parameters). A two-project run.

Outside effects become parameters:

- The HTTP request is `fetch: string -> FetchOutcome`, which returns a
  response (status and parsed page) or `Raised`.
- `html.unescape` is `unescape: string -> string`.
- The listing file is an `Option<Listing>`: `None` when the file is missing.

Both HTML documents are given already parsed. The listing is rows of cells,
each with its text nodes and buttons. The detail page is its form elements
and tables, in document order.

`parse_main_table` reads the text of cells 0 to 6 of a listing row
(`PROYECTOID`, `Codigo`, `Nombre_main`, `Costo_main`, `Sector_main`,
`Localizacion_main` and `Clasificacion_main`) and the UUID from cell 8.

## Model

| member | source | states |
|---|---|---|
| Text.TrimLeftFacts | produce_project_table.py:144 | `lstrip` removes exactly a whitespace prefix: the result is a suffix of the input, it does not start with whitespace, and everything before it is whitespace |
| Text.TrimRightFacts | produce_project_table.py:144 | `rstrip` removes exactly a whitespace suffix: the result is a prefix of the input, it does not end with whitespace, and everything after it is whitespace |
| Text.Strip | produce_project_table.py:162 | `strip()` gives text with no leading or trailing whitespace, and it is empty exactly when the input is all whitespace |
| Text.StripFacts | produce_project_table.py:162 | stripping left then right gives trimmed text, empty exactly for all-whitespace input |
| Text.StripIsInfix | produce_project_table.py:162 | what `strip()` keeps is the infix of the input between an all-whitespace prefix and an all-whitespace suffix |
| Text.StripTrimmed | produce_project_table.py:162 | text without leading or trailing whitespace is its own strip |
| Text.StripKeepsWords | produce_project_table.py:162 | stripping keeps the words of the text |
| Text.CollapseSpaces | produce_project_table.py:163 | `re.sub(r"\s+", sep, s)` is never longer than `s`; it starts and ends with `sep` exactly where `s` starts or ends with whitespace, and otherwise with the same character |
| Text.CollapseKeepsOnlyText | produce_project_table.py:163 | every character of the collapsed text other than `sep` is a non-whitespace character of the input |
| Text.CollapseNoSpaceRuns | produce_project_table.py:163 | the collapsed text has no two adjacent whitespace characters |
| Text.CollapseNoSpace | produce_project_table.py:163 | text without whitespace is its own collapse |
| Text.CollapseWord | produce_project_table.py:163 | collapsing copies a leading run of non-whitespace characters unchanged |
| Text.CollapseTrimmedIsJoin | produce_project_table.py:162-163 | on stripped text, collapsing every whitespace run to `sep` is joining the words with `sep` |
| Text.Word | produce_project_table.py:163 | the first word is the longest whitespace-free prefix |
| Text.Words | produce_project_table.py:163 | every word is non-empty and whitespace-free |
| Text.WordsTrimLeft | produce_project_table.py:144 | removing leading whitespace keeps the words |
| Text.WordsTrimRight | produce_project_table.py:144 | removing trailing whitespace keeps the words |
| Text.Upper | produce_project_table.py:165 | `c.upper()` is never empty; a whitespace character is unchanged; other characters give no whitespace; `a`-`z` become `A`-`Z` |
| Text.CorrectTextBasic | produce_project_table.py:155-165 | `correct_text_basic` is empty exactly for all-whitespace input; otherwise it is trimmed, has no whitespace run, and its only whitespace is the space |
| Text.CapitaliseFacts | produce_project_table.py:165 | upper-casing the first character keeps collapsed, trimmed text trimmed and free of whitespace runs |
| Text.CorrectTextIsCapitalisedWords | produce_project_table.py:155-165 | `correct_text_basic(s)` is the words of `s` joined by single spaces, with the first character upper-cased |
| Text.GetText | produce_project_table.py:46-52 | `get_text(strip=True)` has no leading or trailing whitespace |
| Text.GetTextOne | produce_project_table.py:46-52 | an element without text nodes gives `""`; a single text node gives that node stripped |
| Text.GetTextAppend | produce_project_table.py:46-52 | the text of a run of nodes is the text of its first part followed by that of the rest, so together with `GetTextOne` every node is stripped and the results are concatenated in document order |
| Slug.Decompose | produce_project_table.py:138 | the canonical decomposition of an ASCII character is the character itself |
| Slug.Nfd | produce_project_table.py:138 | NFD leaves ASCII text unchanged |
| Slug.NfdAppend | produce_project_table.py:138 | NFD works character by character: it distributes over concatenation |
| Slug.AsciiOnly | produce_project_table.py:139 | `encode("ascii", "ignore")` gives only ASCII characters, is no longer than its input, and leaves ASCII text unchanged |
| Slug.AsciiOnlyKeeps | produce_project_table.py:139 | the filter keeps exactly the ASCII characters of its input |
| Slug.AsciiOnlyAppend | produce_project_table.py:139 | the ASCII filter distributes over concatenation |
| Slug.LowerChar | produce_project_table.py:140 | the lower-cased character is never an upper-case ASCII letter, stays ASCII, and is unchanged unless it was `A`-`Z` |
| Slug.Lower | produce_project_table.py:140 | `lower()` keeps the length and lower-cases position by position |
| Slug.LowerAppend | produce_project_table.py:140 | `lower()` distributes over concatenation |
| Slug.RemoveAccentsAndLower | produce_project_table.py:136-140 | `remove_accents_and_lower` gives ASCII text without upper-case letters, and leaves such text unchanged |
| Slug.AsciiIsLowered | produce_project_table.py:136-140 | on ASCII text, `remove_accents_and_lower` is just `lower()` |
| Slug.RemoveAccentsAndLowerAppend | produce_project_table.py:136-140 | accent removal works character by character: it distributes over concatenation |
| Slug.KeepSlugChars | produce_project_table.py:148 | `re.sub(r"[^a-z0-9\s-]", "", s)` keeps exactly the characters of `s` in `[a-z0-9\s-]`, and leaves text made only of them unchanged |
| Slug.DropHyphens | produce_project_table.py:152 | skipping the rest of a hyphen run removes exactly a hyphen-only prefix, and what is left does not start with a hyphen |
| Slug.SquashHyphens | produce_project_table.py:152 | `re.sub(r"-+", "-", s)` is no longer than `s`, and starts with the same character |
| Slug.SquashKeepsChars | produce_project_table.py:152 | squashing hyphen runs keeps the same set of characters |
| Slug.SquashNoDoubleHyphen | produce_project_table.py:152 | after squashing, no two hyphens are adjacent |
| Slug.SquashSingleHyphens | produce_project_table.py:152 | text without adjacent hyphens is its own squash |
| Slug.CreateSlug | produce_project_table.py:142-153 | `create_slug` gives a well-formed slug (only `[a-z0-9-]`, no `--`), and gives `""` for all-whitespace input |
| Slug.SlugFromFiltered | produce_project_table.py:148-152 | collapsing whitespace to hyphens and squashing hyphen runs turns any `[a-z0-9\s-]` text into a well-formed slug |
| Slug.SlugIsStripped | produce_project_table.py:144 | a slug is its own strip |
| Slug.SlugIsLowerAscii | produce_project_table.py:146 | a slug is unchanged by accent removal and lower-casing |
| Slug.SlugIsKept | produce_project_table.py:148 | the character filter keeps all of a slug |
| Slug.SlugSurvivesFilter | produce_project_table.py:144-148 | the first three steps of `create_slug` leave a slug unchanged |
| Slug.SlugSurvivesHyphens | produce_project_table.py:150-152 | the two hyphen substitutions leave a slug unchanged |
| Slug.SlugFixpoint | produce_project_table.py:142-153 | a well-formed slug is its own slug |
| Slug.SlugIdempotent | produce_project_table.py:142-153 | `create_slug(create_slug(s)) == create_slug(s)` |
| Slug.AlnumsKeepSlugChars | produce_project_table.py:148 | the character filter keeps every lower-case letter and digit, in order |
| Slug.AlnumsTrimLeft | produce_project_table.py:150 | dropping leading whitespace keeps every letter and digit |
| Slug.AlnumsCollapse | produce_project_table.py:150 | collapsing whitespace keeps every letter and digit, in order |
| Slug.AlnumsDropHyphens | produce_project_table.py:152 | dropping leading hyphens keeps every letter and digit |
| Slug.AlnumsSquash | produce_project_table.py:152 | squashing hyphen runs keeps every letter and digit, in order |
| Slug.SlugKeepsLettersAndDigits | produce_project_table.py:142-153 | the slug's letters and digits are those of the stripped, de-accented, lower-cased text, in the same order |
| Lex.LessIrreflexive | produce_project_table.py:243 | no string is below itself in Python's `str` order |
| Lex.LessTransitive | produce_project_table.py:243 | the `str` order is transitive |
| Lex.LessAsymmetric | produce_project_table.py:243 | the `str` order is asymmetric |
| Lex.LessTotal | produce_project_table.py:243 | any two distinct strings are ordered one way or the other |
| Lex.Insert | produce_project_table.py:243 | inserting into a strictly ascending list keeps it strictly ascending, and adds exactly the new element |
| Lex.SortedDistinct | produce_project_table.py:242-243 | `sorted(set(xs))` is strictly ascending and holds exactly the elements of `xs` |
| Lex.AscendingUnique | produce_project_table.py:243 | two strictly ascending lists with the same elements are equal |
| Rows.KeptPositions | produce_project_table.py:39-42 | the rows with at least `min` cells, by position: every kept row has enough cells, positions strictly increase, and every row with enough cells is kept |
| FinalRow.BuildJsonld | produce_project_table.py:167-192 | the snippet carries the fixed schema.org context and types and the `divipola` property id, and its region, identifier value and locality are the department, DANE code and municipality |
| FinalRow.JsonldRoundTrip | produce_project_table.py:177-190 | reading the location back from a snippet and rebuilding gives the same snippet |
| FinalRow.JsonldOf | produce_project_table.py:245-249 | the Jsonld column is empty exactly when there are no location rows; otherwise it is the snippet of the first row |
| FinalRow.JsonldIgnoresLaterRows | produce_project_table.py:247-249 | rows after the first never change the Jsonld column |
| FinalRow.Depts | produce_project_table.py:242 | the first cell of every location row, in order |
| FinalRow.DeptList | produce_project_table.py:242-243 | the department list is strictly ascending and holds exactly the departments that occur |
| FinalRow.DeptosCharacterised | produce_project_table.py:242-243 | the Deptos column is the `", "`-join of any strictly ascending listing of exactly the departments that occur |
| FinalRow.DeptosOrderIndependent | produce_project_table.py:242-243 | reordering or repeating location rows leaves the Deptos column unchanged |
| FinalRow.Cells | produce_project_table.py:252-272 | a row has one cell per output column |
| FinalRow.ColumnsDistinct | produce_project_table.py:323-328 | there are 19 output columns, all with distinct names |
| FinalRow.BuildFinalCsvRow | produce_project_table.py:197-272 | every column of the row: raw fields copied; name, objective and sector corrected; meta title is the prefix plus the corrected name; slug is the well-formed slug of the corrected name; Deptos; Jsonld empty exactly without locations |
| FinalRow.DerivedColumns | produce_project_table.py:220-236 | the corrected columns are trimmed with single spaces and empty exactly for blank input; a blank name gives an empty slug and the bare prefix as meta title; the slug is a fixed point of slugging |
| MainTable.FirstDetailButtonUnique | produce_project_table.py:57 | at most one button is the first titled "Ver Detalle" |
| MainTable.FindDetailButton | produce_project_table.py:57 | no button is found exactly when none is titled "Ver Detalle"; otherwise the first such button is found |
| MainTable.QuoteFree | produce_project_table.py:60 | the run `[^']*` from a position: an infix without `'`, ended by `'` or the end of text |
| MainTable.MatchesAtIsPattern | produce_project_table.py:60 | the matcher without backtracking accepts a position exactly when the pattern `VerDetalleProyecto\('([^']+)'\)` matches there, with the same group |
| MainTable.PatternGroupIsRun | produce_project_table.py:60 | the pattern's group can only be the whole quote-free run |
| MainTable.SearchFrom | produce_project_table.py:60 | `re.search` finds nothing exactly when no position matches; otherwise it returns the group of the leftmost match |
| MainTable.SearchToken | produce_project_table.py:60-62 | the captured group is non-empty and holds no `'` |
| MainTable.CallMatches | produce_project_table.py:60 | a call `VerDetalleProyecto('tok')` matches where it stands, with group `tok` |
| MainTable.SearchFindsLeftmost | produce_project_table.py:60 | when the first match is at `p`, the search returns the group at `p` |
| MainTable.UuidOf | produce_project_table.py:53-62 | the UUID is empty or holds no `'` |
| MainTable.UuidOfEmpty | produce_project_table.py:53-62 | the UUID stays `""` when no button is titled "Ver Detalle", when the first such button has no `onclick`, and, when it has one, exactly when the pattern matches nowhere in it |
| MainTable.DetailButtonAfterOthers | produce_project_table.py:57 | a "Ver Detalle" button after buttons with other titles is the one found |
| MainTable.UuidOfCall | produce_project_table.py:56-62 | a "Ver Detalle" button whose onclick holds the call `VerDetalleProyecto('tok')` as its first match yields `tok` as UUID, whatever surrounds the call |
| MainTable.Summarize | produce_project_table.py:44-62 | a row's summary takes its UUID from the "Ver Detalle" button of cell 8, and all seven text fields have no leading or trailing whitespace |
| MainTable.SummariesFollowRows | produce_project_table.py:39-64 | there is one summary per row with at least nine cells; the k-th summary is the summary of the k-th such row |
| MainTable.SummariesConcat | produce_project_table.py:39-64 | the rows are summarised one by one: concatenated rows give concatenated summaries |
| MainTable.SummaryUuids | produce_project_table.py:56-62 | every summary's UUID is empty or free of `'` |
| MainTable.ParseMainTable | produce_project_table.py:21-67 | the loop over the body rows returns `ProjectsOf(listing)`: nothing without table or body, otherwise the summaries of the rows with nine cells or more |
| DetailPage.FindElement | produce_project_table.py:82 | nothing is found exactly when no element has this tag and id; otherwise the first such element is found |
| DetailPage.FirstElementUnique | produce_project_table.py:82 | at most one element is the first with a given tag and id |
| DetailPage.FindLocTable | produce_project_table.py:112 | the location table is missing exactly when no table has id `_tblDetallePryecto`; otherwise the first table with that id is found |
| DetailPage.InputValue | produce_project_table.py:83-85 | an input's value is `""` without a `value` attribute, and otherwise the attribute stripped |
| DetailPage.GetInputValue | produce_project_table.py:81-85 | `get_input_value` is trimmed |
| DetailPage.InputValueOf | produce_project_table.py:81-85 | an input field is `""` when no `<input>` has its id; otherwise it is the stripped value of the first one |
| DetailPage.TextAreaText | produce_project_table.py:101-109 | a text area field is `""` when no `<textarea>` has its id; otherwise it is the unescaped `get_text(strip=True)` of the first one |
| DetailPage.LocationOfCells | produce_project_table.py:125-129 | the department, DANE code and municipality of a location row are trimmed |
| DetailPage.LocationRowsFollowRows | produce_project_table.py:121-129 | there is one location per body row with at least three cells; the k-th location is the first three cells of the k-th such row |
| DetailPage.EmptyPage | produce_project_table.py:87-99 | a page without inputs, text areas or tables gives all-empty fields |
| DetailPage.DetailFieldsTrimmed | produce_project_table.py:81-129 | every input field and every location cell of the detail is trimmed |
| DetailPage.ReadLocationRows | produce_project_table.py:121-129 | the loop over the location table's body rows returns `LocationRowsOf(rows)` |
| DetailPage.ParseDetailPage | produce_project_table.py:72-131 | `parse_detail_page` fills the inputs, the text areas, and, when the table is there, its markup and location rows: it returns `DetailOf(doc, unescape)` |
| MainFlow.ProcessRow | produce_project_table.py:296-315 | a project yields a row only when it has a UUID, and that row carries the project's listing position |
| MainFlow.ProcessRowYields | produce_project_table.py:296-315 | a project yields a row exactly when it has a UUID and its fetch answered 200; the row is built from that page at the project's index |
| MainFlow.PresentSound | produce_project_table.py:293-316 | every collected row is the outcome at its own index |
| MainFlow.PresentOrdered | produce_project_table.py:293-316 | the collected rows have strictly increasing indices |
| MainFlow.PresentComplete | produce_project_table.py:293-316 | every outcome that is a row is collected |
| MainFlow.Outcomes | produce_project_table.py:296 | one outcome per project, by position, each carrying its position as index |
| MainFlow.FinalRowsSelection | produce_project_table.py:293-316 | each output row is the one the project at its index yields; indices strictly increase, so rows keep listing order and are neither renumbered nor repeated; and every project that yields a row appears |
| MainFlow.SkippedProjects | produce_project_table.py:297-315 | no row comes from a project without a UUID, or whose fetch raised or answered other than 200 |
| MainFlow.CollectRows | produce_project_table.py:293-316 | the loop over the project list returns `FinalRows(projects, fetch, unescape)` |
| MainFlow.RunOf | produce_project_table.py:277-333 | a run that writes a table writes at least one row |
| MainFlow.WrittenRows | produce_project_table.py:318-329 | a table is written exactly when some project yields a row, and every written row is the one its project yields |
| MainFlow.Run | produce_project_table.py:277-333 | `main` ends as `RunOf` says: no file, no projects, no detail data, or the rows written |
| Examples.LowerOneLetter | produce_project_table.py:136-140 | an upper-case ASCII letter comes out of accent removal as its lower-case letter |
| Examples.AccentedLetter | produce_project_table.py:136-140 | a letter that decomposes into a lower-case base letter and a non-ASCII mark comes out as the base letter |
| Examples.AccentExamples | produce_project_table.py:136-140 | `é`, `í` and `ñ` come out as `e`, `i` and `n` |
| Examples.CorrectTextBasicExample | produce_project_table.py:155-165 | `correct_text_basic(" a  b ")` is `"A b"`, for any two lower-case letters |
| Examples.SlugRunsExample | produce_project_table.py:142-153 | `create_slug("A   B--C")` is `"a-b-c"`, for any three upper-case letters |
| Examples.SkipThenFetch | produce_project_table.py:293-316 | a listing of a project without UUID followed by one whose page answers 200 gives exactly one row: the second project's, with index 1 |

## Left out

- The HTTP request (`requests.get` with `verify=False` and a 15 s timeout) is the `fetch` parameter. Any exception it raises is the outcome `Raised`.
- The model never raises inside `parse_detail_page` or `build_final_csv_row`. In the code, such an exception would be caught by the same `except` and the project skipped.
- HTML parsing is not modelled: BeautifulSoup's `html.parser` for the listing and `lxml` for the detail page. Both documents are inputs, already parsed, with elements in document order.
- `find` with an `id` or `title` is modelled as the first element in document order with that tag and attribute value.
- The rewrite of the location table's `class` and `str(loc_table)` are not modelled. The table's markup after the rewrite is a field of the parsed table.
- `html.unescape` is the `unescape` parameter.
- Serialisation is left out: `json.dumps` of the JSON-LD, `str(loc_data)`, pandas and the CSV file. The Location Data and Jsonld columns are structured values (`seq<LocationRow>`, `Option<Place>`). The written table is `Written(rows)`, laid out by `Columns`.
- Reading the listing file is left out. Its absence is `None`.
- The `print` diagnostics are left out.
- `build_jsonld`'s `if not dept` / `if not municipality` defaults change nothing for string arguments, so they are not modelled.
- `iterrows` gives the DataFrame's default index, which is the position in the list. The model uses the position.
- Slug.Decompose: canonical decomposition only covers U+00C0 to U+00FF. Every other character is left whole. A precomposed letter outside Latin-1 therefore loses its base letter to the ASCII filter, which the real NFD would keep. Canonical reordering of marks is not modelled, since the filter drops every mark.
- Text.Upper: `str.upper()` is modelled for ASCII and Latin-1 (including `ß` → `SS`, `ÿ` → `Ÿ`, `µ` → `Μ`). Other characters are left unchanged.
- Examples.AccentExamples: the full strings such as `"Café del Río"` are not run through `create_slug` as one proof. Per-letter accent lemmas combined with `Slug.RemoveAccentsAndLowerAppend` cover them character by character.
