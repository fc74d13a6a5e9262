/**
 * Worked examples: single characters run through the accent removal, a
 * name corrected, a slug built, and a two-project run.
 */
module Examples {
  import opened Wrappers
  import opened Text
  import opened Slug
  import opened FinalRow
  import opened MainTable
  import opened DetailPage
  import opened MainFlow

  /** An upper-case ASCII letter comes out as its lower-case letter. */
  lemma LowerOneLetter(c: char)
    requires IsUpperAscii(c)
    ensures RemoveAccentsAndLower([c]) == [(c as int + 32) as char]
  {
    assert [c][1..] == [];
  }

  /** A letter whose decomposition is a lower-case base letter and a
      non-ASCII combining mark comes out as the base letter. */
  lemma AccentedLetter(c: char, base: char, mark: char)
    requires Decompose(c) == [base, mark] && !IsAscii(mark) && 'a' <= base <= 'z'
    ensures RemoveAccentsAndLower([c]) == [base]
  {
    assert Nfd([c]) == [base, mark] by {
      assert [c][1..] == [];
    }
    assert AsciiOnly([base, mark]) == [base] by {
      assert [base, mark][1..] == [mark];
      assert [mark][1..] == [];
    }
    assert Lower([base]) == [base];
  }

  /** The accented letters of "Café del Río" and "Peña" lose their accents. */
  lemma AccentExamples()
    ensures RemoveAccentsAndLower("\U{E9}") == "e"
    ensures RemoveAccentsAndLower("\U{ED}") == "i"
    ensures RemoveAccentsAndLower("\U{F1}") == "n"
  {
    AccentedLetter('\U{E9}', 'e', '\U{301}');
    AccentedLetter('\U{ED}', 'i', '\U{301}');
    AccentedLetter('\U{F1}', 'n', '\U{303}');
  }

  // " a  b " and "A   B--C", with the letters as parameters

  lemma WordsSkipSpace(c: char, t: string)
    requires IsSpace(c)
    ensures Words([c] + t) == Words(t)
  {
    assert ([c] + t)[1..] == t;
  }

  lemma WordsOneLetter(x: char, c: char, t: string)
    requires !IsSpace(x) && IsSpace(c)
    ensures Words([x, c] + t) == [[x]] + Words([c] + t)
  {
    var s := [x, c] + t;
    assert s[1..] == [c] + t;
    assert Word(s[1..]) == [];
    assert Word(s) == [x];
    assert s[1..] == s[|[x]|..];
  }

  lemma WordsLastLetter(y: char)
    requires 'a' <= y <= 'z'
    ensures Words([y, ' ']) == [[y]]
  {
    WordsOneLetter(y, ' ', []);
    WordsSkipSpace(' ', []);
    assert [y, ' '] + [] == [y, ' '] && [' '] + [] == [' '];
  }

  lemma WordsGapThenLetter(y: char)
    requires 'a' <= y <= 'z'
    ensures Words([' ', ' ', y, ' ']) == [[y]]
  {
    WordsLastLetter(y);
    WordsSkipSpace(' ', [' ', y, ' ']);
    WordsSkipSpace(' ', [y, ' ']);
    assert [' '] + [' ', y, ' '] == [' ', ' ', y, ' '];
    assert [' '] + [y, ' '] == [' ', y, ' '];
  }

  lemma WordsTwoLetters(x: char, y: char)
    requires 'a' <= x <= 'z' && 'a' <= y <= 'z'
    ensures Words([x, ' ', ' ', y, ' ']) == [[x], [y]]
  {
    WordsGapThenLetter(y);
    WordsOneLetter(x, ' ', [' ', y, ' ']);
    assert [x, ' '] + [' ', y, ' '] == [x, ' ', ' ', y, ' '];
    assert [' '] + [' ', y, ' '] == [' ', ' ', y, ' '];
  }

  lemma WordsExample(x: char, y: char)
    requires 'a' <= x <= 'z' && 'a' <= y <= 'z'
    ensures Words([' ', x, ' ', ' ', y, ' ']) == [[x], [y]]
  {
    WordsTwoLetters(x, y);
    WordsSkipSpace(' ', [x, ' ', ' ', y, ' ']);
    assert [' '] + [x, ' ', ' ', y, ' '] == [' ', x, ' ', ' ', y, ' '];
  }

  /** Surrounding whitespace goes, the inner run becomes one space and the
      first letter is capitalised: " a  b " gives "A b". */
  lemma CorrectTextBasicExample(x: char, y: char)
    requires 'a' <= x <= 'z' && 'a' <= y <= 'z'
    ensures CorrectTextBasic([' ', x, ' ', ' ', y, ' ']) == [(x as int - 32) as char, ' ', y]
  {
    var s := [' ', x, ' ', ' ', y, ' '];
    WordsExample(x, y);
    JoinTwoLetters(x, y);
    CorrectTextIsCapitalisedWords(s);
    CapitaliseTwoLetters(x, y);
  }

  lemma JoinTwoLetters(x: char, y: char)
    ensures Join([[x], [y]], " ") == [x, ' ', y]
  {
    assert [[x], [y]][1..] == [[y]];
  }

  lemma CapitaliseTwoLetters(x: char, y: char)
    requires 'a' <= x <= 'z'
    ensures Capitalise([x, ' ', y]) == [(x as int - 32) as char, ' ', y]
  {
    assert [x, ' ', y][1..] == [' ', y];
  }

  lemma RunsStripped(s: string, X: char, Y: char, Z: char)
    requires IsUpperAscii(X) && IsUpperAscii(Y) && IsUpperAscii(Z)
    requires s == [X, ' ', ' ', ' ', Y, '-', '-', Z]
    ensures Strip(s) == s
  {
    StripTrimmed(s);
  }

  lemma LeadLowered(X: char)
    requires IsUpperAscii(X)
    ensures RemoveAccentsAndLower([X, ' ', ' ', ' ']) == [LowerChar(X), ' ', ' ', ' ']
  {
    var h := [X, ' ', ' ', ' '];
    assert forall i :: 0 <= i < |h| ==> IsAscii(h[i]);
    AsciiIsLowered(h);
  }

  lemma TailLowered(Y: char, Z: char)
    requires IsUpperAscii(Y) && IsUpperAscii(Z)
    ensures RemoveAccentsAndLower([Y, '-', '-', Z]) == [LowerChar(Y), '-', '-', LowerChar(Z)]
  {
    var h := [Y, '-', '-', Z];
    assert forall i :: 0 <= i < |h| ==> IsAscii(h[i]);
    AsciiIsLowered(h);
  }

  lemma RunsLowerCase(X: char, Y: char, Z: char)
    requires IsUpperAscii(X) && IsUpperAscii(Y) && IsUpperAscii(Z)
    ensures RemoveAccentsAndLower([X, ' ', ' ', ' ', Y, '-', '-', Z])
      == [LowerChar(X), ' ', ' ', ' ', LowerChar(Y), '-', '-', LowerChar(Z)]
  {
    var a, b := [X, ' ', ' ', ' '], [Y, '-', '-', Z];
    LeadLowered(X);
    TailLowered(Y, Z);
    RemoveAccentsAndLowerAppend(a, b);
    HalvesJoined([X, ' ', ' ', ' '], [Y, '-', '-', Z]);
    HalvesJoined([LowerChar(X), ' ', ' ', ' '], [LowerChar(Y), '-', '-', LowerChar(Z)]);
  }

  lemma HalvesJoined(a: string, b: string)
    requires |a| == 4 && |b| == 4
    ensures a + b == [a[0], a[1], a[2], a[3], b[0], b[1], b[2], b[3]]
  {
  }

  /** `create_slug` follows its five steps. */
  lemma SlugBySteps(s: string, t: string, u: string, v: string)
    requires Strip(s) == s && RemoveAccentsAndLower(s) == t && KeepSlugChars(t) == t
    requires CollapseSpaces(t, '-') == u && SquashHyphens(u) == v
    ensures CreateSlug(s) == v
  {
  }

  lemma TrimLeftSpace(c: char, t: string)
    requires IsSpace(c)
    ensures TrimLeft([c] + t) == TrimLeft(t)
  {
    assert ([c] + t)[1..] == t;
  }

  lemma CollapseLeadingSpace(c: char, t: string, sep: char)
    requires IsSpace(c)
    ensures CollapseSpaces([c] + t, sep) == [sep] + CollapseSpaces(TrimLeft(t), sep)
  {
    assert ([c] + t)[1..] == t;
  }

  lemma RunsCollapsed(x: char, y: char, z: char)
    requires 'a' <= x <= 'z' && 'a' <= y <= 'z' && 'a' <= z <= 'z'
    ensures CollapseSpaces([x, ' ', ' ', ' ', y, '-', '-', z], '-') == [x, '-', y, '-', '-', z]
  {
    var w := [y, '-', '-', z];
    WordCollapsed(y, z);
    TrimLeftSpace(' ', w);
    TrimLeftSpace(' ', [' '] + w);
    CollapseLeadingSpace(' ', [' '] + ([' '] + w), '-');
    CollapseWord([x], [' '] + ([' '] + ([' '] + w)), '-');
    RunsPieces(x, y, z);
  }

  lemma WordCollapsed(y: char, z: char)
    requires 'a' <= y <= 'z' && 'a' <= z <= 'z'
    ensures TrimLeft([y, '-', '-', z]) == [y, '-', '-', z]
    ensures CollapseSpaces([y, '-', '-', z], '-') == [y, '-', '-', z]
  {
    assert NoSpace([y, '-', '-', z]);
    CollapseNoSpace([y, '-', '-', z], '-');
  }

  lemma RunsPieces(x: char, y: char, z: char)
    ensures [x] + ([' '] + ([' '] + ([' '] + [y, '-', '-', z]))) == [x, ' ', ' ', ' ', y, '-', '-', z]
    ensures [x] + (['-'] + [y, '-', '-', z]) == [x, '-', y, '-', '-', z]
  {
  }

  lemma SquashLetter(c: char, t: string)
    requires c != '-'
    ensures SquashHyphens([c] + t) == [c] + SquashHyphens(t)
  {
    assert ([c] + t)[1..] == t;
  }

  lemma SquashHyphenPair(t: string)
    requires t != [] && t[0] != '-'
    ensures SquashHyphens(['-', '-'] + t) == ['-'] + SquashHyphens(t)
  {
    assert (['-', '-'] + t)[1..] == ['-'] + t;
    assert (['-'] + t)[1..] == t;
  }

  lemma SquashHyphenOne(t: string)
    requires t != [] && t[0] != '-'
    ensures SquashHyphens(['-'] + t) == ['-'] + SquashHyphens(t)
  {
    assert (['-'] + t)[1..] == t;
  }

  lemma HyphensSquashed(x: char, y: char, z: char)
    requires 'a' <= x <= 'z' && 'a' <= y <= 'z' && 'a' <= z <= 'z'
    ensures SquashHyphens([x, '-', y, '-', '-', z]) == [x, '-', y, '-', z]
  {
    SquashSingle(z);
    SquashHyphenPair([z]);
    SquashLetter(y, ['-', '-'] + [z]);
    SquashHyphenOne([y] + (['-', '-'] + [z]));
    SquashLetter(x, ['-'] + ([y] + (['-', '-'] + [z])));
    HyphenPieces(x, y, z);
  }

  lemma SquashSingle(z: char)
    requires z != '-'
    ensures SquashHyphens([z]) == [z]
  {
    assert [z][1..] == [];
  }

  lemma HyphenPieces(x: char, y: char, z: char)
    ensures [x] + (['-'] + ([y] + (['-', '-'] + [z]))) == [x, '-', y, '-', '-', z]
    ensures [x] + (['-'] + ([y] + (['-'] + [z]))) == [x, '-', y, '-', z]
  {
  }

  lemma RunsKept(x: char, y: char, z: char)
    requires 'a' <= x <= 'z' && 'a' <= y <= 'z' && 'a' <= z <= 'z'
    ensures KeepSlugChars([x, ' ', ' ', ' ', y, '-', '-', z]) == [x, ' ', ' ', ' ', y, '-', '-', z]
  {
    var t := [x, ' ', ' ', ' ', y, '-', '-', z];
    assert forall i :: 0 <= i < |t| ==> SlugSourceChar(t[i]);
  }

  /** Upper-case letters are lowered, the whitespace run becomes one hyphen
      and the hyphen run is squashed: "A   B--C" gives "a-b-c". */
  lemma SlugRunsExample(X: char, Y: char, Z: char)
    requires IsUpperAscii(X) && IsUpperAscii(Y) && IsUpperAscii(Z)
    ensures CreateSlug([X, ' ', ' ', ' ', Y, '-', '-', Z]) == [LowerChar(X), '-', LowerChar(Y), '-', LowerChar(Z)]
  {
    var x, y, z := LowerChar(X), LowerChar(Y), LowerChar(Z);
    var t := [x, ' ', ' ', ' ', y, '-', '-', z];
    RunsStripped([X, ' ', ' ', ' ', Y, '-', '-', Z], X, Y, Z);
    RunsLowerCase(X, Y, Z);
    RunsKept(x, y, z);
    RunsCollapsed(x, y, z);
    HyphensSquashed(x, y, z);
    SlugBySteps([X, ' ', ' ', ' ', Y, '-', '-', Z], t, [x, '-', y, '-', '-', z], [x, '-', y, '-', z]);
  }

  /** A listing of two projects, the first without a UUID and the second
      with one whose page comes back with status 200, yields exactly one
      row: the second project's, carrying its listing position 1. */
  lemma SkipThenFetch(p0: ProjectSummary, p1: ProjectSummary, fetch: string -> FetchOutcome,
                      unescape: string -> string, page: DetailDoc)
    requires p0.uuid == [] && p1.uuid != []
    requires fetch(DetailUrl(p1.uuid)) == Received(200, page)
    ensures FinalRows([p0, p1], fetch, unescape) == [BuildFinalCsvRow(1, DetailOf(page, unescape))]
    ensures FinalRows([p0, p1], fetch, unescape)[0].index == 1
  {
    var row := BuildFinalCsvRow(1, DetailOf(page, unescape));
    OutcomesSkipThenFetch(p0, p1, fetch, unescape, page);
    PresentNoneThenSome(row);
  }

  lemma OutcomesSkipThenFetch(p0: ProjectSummary, p1: ProjectSummary, fetch: string -> FetchOutcome,
                              unescape: string -> string, page: DetailDoc)
    requires p0.uuid == [] && p1.uuid != []
    requires fetch(DetailUrl(p1.uuid)) == Received(200, page)
    ensures Outcomes([p0, p1], fetch, unescape) == [None, Some(BuildFinalCsvRow(1, DetailOf(page, unescape)))]
  {
    FetchedRow(p1, fetch, unescape, page);
    TwoOutcomes(p0, p1, fetch, unescape);
  }

  lemma FetchedRow(p: ProjectSummary, fetch: string -> FetchOutcome,
                   unescape: string -> string, page: DetailDoc)
    requires p.uuid != [] && fetch(DetailUrl(p.uuid)) == Received(200, page)
    ensures ProcessRow(1, p, fetch, unescape) == Some(BuildFinalCsvRow(1, DetailOf(page, unescape)))
  {
    ProcessRowYields(1, p, fetch, unescape);
  }

  lemma TwoOutcomes(p0: ProjectSummary, p1: ProjectSummary, fetch: string -> FetchOutcome,
                    unescape: string -> string)
    ensures Outcomes([p0, p1], fetch, unescape)
      == [ProcessRow(0, p0, fetch, unescape), ProcessRow(1, p1, fetch, unescape)]
  {
    var ps := [p0, p1];
    assert ps[0] == p0 && ps[1] == p1;
  }

  lemma PresentNoneThenSome(row: OutputRow)
    ensures Present([None, Some(row)]) == [row]
  {
    var os: seq<Option<OutputRow>> := [None, Some(row)];
    var first := os[..1];
    assert first == [None] && first[..0] == [];
    assert Present(first) == Present(first[..0]) + RowsOf(first[0]);
    assert Present(os) == Present(first) + RowsOf(os[1]);
  }
}
