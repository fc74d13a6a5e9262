/**
 * Whitespace handling shared by every stage of the scraper: Python's
 * `str.strip()`, the substitution `re.sub(r"\s+", sep, s)`, BeautifulSoup's
 * `get_text(strip=True)`, `str.join`, and `correct_text_basic`, the
 * placeholder "correction" of the name, objective and sector fields.
 *
 * The reference against which the whitespace normalisation is measured is
 * `Words`: the maximal runs of non-whitespace characters of a string.
 */
module Text {

  /** Python's `str.isspace()`: the characters that both `str.strip()` and the
      regular-expression class `\s` treat as whitespace. */
  predicate IsSpace(c: char) {
    ('\t' <= c && c <= '\r') || ('\U{1C}' <= c && c <= '\U{1F}') || c == ' '
    || c == '\U{85}' || c == '\U{A0}' || c == '\U{1680}'
    || ('\U{2000}' <= c && c <= '\U{200A}') || c == '\U{2028}' || c == '\U{2029}'
    || c == '\U{202F}' || c == '\U{205F}' || c == '\U{3000}'
  }

  predicate AllSpace(s: string) {
    forall i :: 0 <= i < |s| ==> IsSpace(s[i])
  }

  predicate NoSpace(s: string) {
    forall i :: 0 <= i < |s| ==> !IsSpace(s[i])
  }

  /** No leading and no trailing whitespace. */
  predicate Trimmed(s: string) {
    s == [] || (!IsSpace(s[0]) && !IsSpace(s[|s| - 1]))
  }

  /** No two adjacent whitespace characters. */
  ghost predicate NoSpaceRuns(s: string) {
    forall i, j :: 0 <= i && j == i + 1 && j < |s| ==> !(IsSpace(s[i]) && IsSpace(s[j]))
  }

  /** `s.lstrip()`: `s` without its leading whitespace. */
  function TrimLeft(s: string): (r: string)
    ensures |r| <= |s|
  {
    if s != [] && IsSpace(s[0]) then TrimLeft(s[1..]) else s
  }

  /** What `lstrip` removes is the whitespace prefix: the result is a suffix
      of `s` that does not start with whitespace, and all before it is
      whitespace. */
  lemma {:induction false} TrimLeftFacts(s: string)
    ensures var r := TrimLeft(s);
      && r == s[|s| - |r|..]
      && (r == [] || !IsSpace(r[0]))
      && AllSpace(s[..|s| - |r|])
  {
    if s != [] && IsSpace(s[0]) {
      var t := s[1..];
      TrimLeftFacts(t);
      var r := TrimLeft(t);
      var gap, gap' := s[..|s| - |r|], t[..|t| - |r|];
      assert AllSpace(gap) by {
        forall i | 0 <= i < |gap| ensures IsSpace(gap[i]) {
          if i > 0 {
            assert gap[i] == gap'[i - 1];
          }
        }
      }
    }
  }

  /** `s.rstrip()`: `s` without its trailing whitespace. */
  function TrimRight(s: string): (r: string)
    ensures |r| <= |s|
  {
    if s != [] && IsSpace(s[|s| - 1]) then TrimRight(s[..|s| - 1]) else s
  }

  /** What `rstrip` removes is the whitespace suffix: the result is a prefix
      of `s` that does not end with whitespace, and all after it is
      whitespace. */
  lemma {:induction false} TrimRightFacts(s: string)
    ensures var r := TrimRight(s);
      && r == s[..|r|]
      && (r == [] || !IsSpace(r[|r| - 1]))
      && AllSpace(s[|r|..])
  {
    if s != [] && IsSpace(s[|s| - 1]) {
      var t := s[..|s| - 1];
      TrimRightFacts(t);
      var r := TrimRight(t);
      assert t[..|r|] == s[..|r|];
      var gap, gap' := s[|r|..], t[|r|..];
      assert AllSpace(gap) by {
        forall i | 0 <= i < |gap| ensures IsSpace(gap[i]) {
          assert gap[i] == s[|r| + i];
          if i < |gap'| {
            assert gap'[i] == t[|r| + i] == s[|r| + i];
          }
        }
      }
    }
  }

  /** `s.strip()`: `s` without its leading and trailing whitespace. */
  function Strip(s: string): (r: string)
    ensures Trimmed(r)
    ensures r == [] <==> AllSpace(s)
  {
    StripFacts(s);
    TrimRight(TrimLeft(s))
  }

  lemma StripFacts(s: string)
    ensures var r := TrimRight(TrimLeft(s));
      Trimmed(r) && (r == [] <==> AllSpace(s))
  {
    var t := TrimLeft(s);
    var r := TrimRight(t);
    TrimLeftFacts(s);
    TrimRightFacts(t);
    if r == [] {
      assert t == t[0..];
      assert s == s[..|s| - |t|] + t;
    } else {
      assert r[0] == t[0];
    }
    if t != [] {
      assert t[0] == s[|s| - |t|];
    }
  }

  /** What `s.strip()` removes is whitespace: the result is the infix of `s`
      between an all-whitespace prefix and an all-whitespace suffix. */
  lemma StripIsInfix(s: string)
    ensures exists k :: 0 <= k <= |s| - |Strip(s)| && Strip(s) == s[k..k + |Strip(s)|]
                        && AllSpace(s[..k]) && AllSpace(s[k + |Strip(s)|..])
  {
    var t := TrimLeft(s);
    var r := TrimRight(t);
    TrimLeftFacts(s);
    TrimRightFacts(t);
    var k := |s| - |t|;
    PrefixOfSuffix(s, t, r, k);
    assert 0 <= k <= |s| - |r| && r == s[k..k + |r|] && AllSpace(s[..k]) && AllSpace(s[k + |r|..]);
  }

  /** A prefix `r` of the suffix `t` of `s` starting at `k`, followed in `t`
      by whitespace only, is the infix of `s` at `k`, followed by the same
      whitespace. */
  lemma PrefixOfSuffix(s: string, t: string, r: string, k: nat)
    requires k <= |s| && t == s[k..] && |r| <= |t| && r == t[..|r|] && AllSpace(t[|r|..])
    ensures r == s[k..k + |r|] && AllSpace(s[k + |r|..])
  {
    assert s[k + |r|..] == t[|r|..];
    assert s[k..k + |r|] == t[..|r|];
  }

  /**
   * `re.sub(r"\s+", [sep], s)`: every maximal run of whitespace in `s`
   * replaced by the single character `sep`. The result starts (ends) with
   * `sep` exactly where `s` starts (ends) with whitespace, and otherwise
   * with the same character as `s`.
   */
  function CollapseSpaces(s: string, sep: char): (r: string)
    ensures |r| <= |s|
    ensures s != [] ==> r != [] && r[0] == (if IsSpace(s[0]) then sep else s[0])
    ensures s != [] ==> r[|r| - 1] == (if IsSpace(s[|s| - 1]) then sep else s[|s| - 1])
    decreases |s|
  {
    if s == [] then []
    else if IsSpace(s[0]) then
      TrimLeftFacts(s[1..]);
      [sep] + CollapseSpaces(TrimLeft(s[1..]), sep)
    else [s[0]] + CollapseSpaces(s[1..], sep)
  }

  /** Everything but `sep` in a collapsed text is a non-whitespace character
      of the original. */
  lemma {:induction false} CollapseKeepsOnlyText(s: string, sep: char)
    ensures forall c :: c in CollapseSpaces(s, sep) && c != sep ==> c in s && !IsSpace(c)
    decreases |s|
  {
    if s != [] {
      if IsSpace(s[0]) {
        var t := TrimLeft(s[1..]);
        TrimLeftFacts(s[1..]);
        CollapseKeepsOnlyText(t, sep);
        assert forall c :: c in t ==> c in s;
      } else {
        CollapseKeepsOnlyText(s[1..], sep);
      }
    }
  }

  /** A collapsed text has no two adjacent whitespace characters. */
  lemma {:induction false} CollapseNoSpaceRuns(s: string, sep: char)
    ensures NoSpaceRuns(CollapseSpaces(s, sep))
    decreases |s|
  {
    if s != [] {
      var r := CollapseSpaces(s, sep);
      var t := if IsSpace(s[0]) then TrimLeft(s[1..]) else s[1..];
      var r' := CollapseSpaces(t, sep);
      TrimLeftFacts(s[1..]);
      CollapseNoSpaceRuns(t, sep);
      assert r == [r[0]] + r';
      assert r' != [] && IsSpace(r[0]) ==> !IsSpace(r'[0]);
      forall i, j | 0 <= i && j == i + 1 && j < |r| ensures !(IsSpace(r[i]) && IsSpace(r[j])) {
        if i > 0 {
          assert r[i] == r'[i - 1] && r[j] == r'[j - 1];
        }
      }
    }
  }

  /** The longest prefix of `s` without whitespace. */
  function Word(s: string): (w: string)
    ensures |w| <= |s| && w == s[..|w|] && NoSpace(w)
    ensures |w| == |s| || IsSpace(s[|w|])
  {
    if s == [] || IsSpace(s[0]) then [] else [s[0]] + Word(s[1..])
  }

  /** The words of `s`: its maximal runs of non-whitespace characters, in order. */
  function Words(s: string): (ws: seq<string>)
    ensures forall k :: 0 <= k < |ws| ==> ws[k] != [] && NoSpace(ws[k])
    decreases |s|
  {
    if s == [] then []
    else if IsSpace(s[0]) then Words(s[1..])
    else
      var w := Word(s);
      assert w[0] == s[0];
      [w] + Words(s[|w|..])
  }

  /** Python's `sep.join(ws)`. */
  function Join(ws: seq<string>, sep: string): string {
    if ws == [] then []
    else if |ws| == 1 then ws[0]
    else ws[0] + sep + Join(ws[1..], sep)
  }

  /** `str.upper()` of one character, for ASCII and Latin-1: the lower-case
      letters map to their upper case, and "ß" to "SS". */
  function Upper(c: char): (u: string)
    ensures u != []
    ensures IsSpace(c) ==> u == [c]
    ensures !IsSpace(c) ==> NoSpace(u)
    ensures 'a' <= c <= 'z' ==> u == [(c as int - 32) as char]
  {
    if 'a' <= c <= 'z' then [(c as int - 32) as char]
    else if c == '\U{DF}' then "SS"
    else if '\U{E0}' <= c <= '\U{FE}' && c != '\U{F7}' then [(c as int - 32) as char]
    else if c == '\U{FF}' then ['\U{178}']
    else if c == '\U{B5}' then ['\U{39C}']
    else [c]
  }

  /** The text with its first character upper-cased, as
      `text[0].upper() + text[1:]`. */
  function Capitalise(t: string): (r: string)
    requires t != []
  {
    Upper(t[0]) + t[1..]
  }

  /**
   * `correct_text_basic`: strip, collapse every whitespace run to one space,
   * upper-case the first character. The result is empty exactly when the
   * input is all whitespace; otherwise it is trimmed, has no whitespace run
   * and its only whitespace character is the space.
   */
  function CorrectTextBasic(s: string): (r: string)
    ensures r == [] <==> AllSpace(s)
    ensures Trimmed(r) && NoSpaceRuns(r)
    ensures forall i :: 0 <= i < |r| && IsSpace(r[i]) ==> r[i] == ' '
  {
    if s == [] then []
    else
      var t := CollapseSpaces(Strip(s), ' ');
      if t == [] then t
      else
        CollapseKeepsOnlyText(Strip(s), ' ');
        CollapseNoSpaceRuns(Strip(s), ' ');
        CapitaliseFacts(t);
        Capitalise(t)
  }

  /** Upper-casing the first character of a collapsed, trimmed text keeps it
      trimmed, free of whitespace runs and with spaces as its only whitespace. */
  lemma CapitaliseFacts(t: string)
    requires t != [] && Trimmed(t) && NoSpaceRuns(t)
    requires forall c :: c in t && c != ' ' ==> !IsSpace(c)
    ensures var r := Capitalise(t);
            r != [] && Trimmed(r) && NoSpaceRuns(r) && forall i :: 0 <= i < |r| && IsSpace(r[i]) ==> r[i] == ' '
  {
    var u := Upper(t[0]);
    var r := Capitalise(t);
    assert r == u + t[1..];
    forall i | 0 <= i < |r| && IsSpace(r[i]) ensures r[i] == ' ' {
      assert i >= |u| && r[i] == t[i - |u| + 1];
    }
    forall i | 0 <= i < |r| - 1 ensures !(IsSpace(r[i]) && IsSpace(r[i + 1])) {
      if i + 1 >= |u| {
        assert r[i + 1] == t[i + 1 - |u| + 1];
      }
      if i >= |u| {
        assert r[i] == t[i - |u| + 1];
      }
    }
    if |r| > |u| {
      assert r[|r| - 1] == t[|t| - 1];
    }
  }

  /**
   * `get_text(strip=True)` of an element whose text nodes are `texts`: each
   * node stripped, then all of them concatenated.
   */
  function GetText(texts: seq<string>): (r: string)
    ensures Trimmed(r)
  {
    if texts == [] then [] else Strip(texts[0]) + GetText(texts[1..])
  }

  /** No text nodes give no text; a single text node gives its stripped text. */
  lemma GetTextOne(t: string)
    ensures GetText([]) == []
    ensures GetText([t]) == Strip(t)
  {
    assert [t][1..] == [];
  }

  /** The text nodes are read one after another: the text of two runs of
      nodes is the text of the first followed by that of the second. */
  lemma {:induction false} GetTextAppend(a: seq<string>, b: seq<string>)
    ensures GetText(a + b) == GetText(a) + GetText(b)
    decreases |a|
  {
    if a == [] {
      assert a + b == b;
    } else {
      assert (a + b)[0] == a[0] && (a + b)[1..] == a[1..] + b;
      GetTextAppend(a[1..], b);
      AppendAssoc(Strip(a[0]), GetText(a[1..]), GetText(b));
    }
  }

  // ---------------------------------------------------------------------
  // Words as the reference for whitespace normalisation

  lemma {:induction false} WordsTrimLeft(s: string)
    ensures Words(TrimLeft(s)) == Words(s)
    decreases |s|
  {
    if s != [] && IsSpace(s[0]) {
      WordsTrimLeft(s[1..]);
    }
  }

  lemma {:induction false} WordAppendSpace(t: string, c: char)
    requires IsSpace(c)
    ensures Word(t + [c]) == Word(t)
    decreases |t|
  {
    if t != [] && !IsSpace(t[0]) {
      assert (t + [c])[1..] == t[1..] + [c];
      WordAppendSpace(t[1..], c);
    }
  }

  lemma {:induction false} WordsAppendSpace(t: string, c: char)
    requires IsSpace(c)
    ensures Words(t + [c]) == Words(t)
    decreases |t|
  {
    if t == [] {
      assert Words([c]) == Words([c][1..]);
    } else if IsSpace(t[0]) {
      assert (t + [c])[1..] == t[1..] + [c];
      WordsAppendSpace(t[1..], c);
    } else {
      var w := Word(t);
      WordAppendSpace(t, c);
      assert (t + [c])[|w|..] == t[|w|..] + [c];
      WordsAppendSpace(t[|w|..], c);
    }
  }

  lemma {:induction false} WordsTrimRight(s: string)
    ensures Words(TrimRight(s)) == Words(s)
    decreases |s|
  {
    if s != [] && IsSpace(s[|s| - 1]) {
      var s' := s[..|s| - 1];
      WordsTrimRight(s');
      assert s == s' + [s[|s| - 1]];
      WordsAppendSpace(s', s[|s| - 1]);
    }
  }

  /** Stripping does not change the words. */
  lemma StripKeepsWords(s: string)
    ensures Words(Strip(s)) == Words(s)
  {
    WordsTrimLeft(s);
    WordsTrimRight(TrimLeft(s));
  }

  /** Collapsing copies a run of non-whitespace characters unchanged. */
  lemma {:induction false} CollapseWord(w: string, rest: string, sep: char)
    requires NoSpace(w)
    ensures CollapseSpaces(w + rest, sep) == w + CollapseSpaces(rest, sep)
    decreases |w|
  {
    if w == [] {
      assert w + rest == rest;
    } else {
      assert (w + rest)[1..] == w[1..] + rest;
      CollapseWord(w[1..], rest, sep);
    }
  }

  /** A text that starts with a word: its words, and its collapse, start with
      that word. */
  lemma LeadingWord(s: string, sep: char)
    requires s != [] && !IsSpace(s[0])
    ensures var w := Word(s);
            Words(s) == [w] + Words(s[|w|..])
            && CollapseSpaces(s, sep) == w + CollapseSpaces(s[|w|..], sep)
  {
    var w := Word(s);
    assert s == w + s[|w|..];
    CollapseWord(w, s[|w|..], sep);
  }

  /** A gap between two words: a whitespace run followed by text that ends
      in a non-whitespace character. */
  lemma GapFacts(rest: string, sep: char)
    requires rest != [] && IsSpace(rest[0]) && !IsSpace(rest[|rest| - 1])
    ensures var t := TrimLeft(rest[1..]);
            t != [] && Trimmed(t) && |t| < |rest|
            && CollapseSpaces(rest, sep) == [sep] + CollapseSpaces(t, sep)
            && Words(rest) == Words(t)
  {
    var t := TrimLeft(rest[1..]);
    TrimLeftFacts(rest[1..]);
    assert t[|t| - 1] == rest[1..][|rest[1..]| - 1];
    WordsTrimLeft(rest[1..]);
  }

  lemma AppendAssoc(a: string, b: string, c: string)
    ensures a + (b + c) == a + b + c
  {
  }

  /** A non-empty text, alone and followed by more, split after its first
      character. */
  lemma SplitHead(a: string, b: string)
    requires a != []
    ensures a == [a[0]] + a[1..] && a + b == [a[0]] + (a[1..] + b)
  {
  }

  lemma JoinCons(w: string, ws: seq<string>, sep: string)
    requires ws != []
    ensures Join([w] + ws, sep) == w + sep + Join(ws, sep)
  {
    assert ([w] + ws)[1..] == ws;
  }

  /** A word glued by `sep` in front of a joined list of words is the join
      of the longer list. */
  lemma GlueWord(w: string, sep: char, ws: seq<string>)
    requires ws != []
    ensures w + ([sep] + Join(ws, [sep])) == Join([w] + ws, [sep])
  {
    JoinCons(w, ws, [sep]);
    AppendAssoc(w, [sep], Join(ws, [sep]));
  }

  /**
   * On a string without leading or trailing whitespace, collapsing the
   * whitespace runs to `sep` is joining its words with `sep`.
   */
  lemma {:induction false} CollapseTrimmedIsJoin(s: string, sep: char)
    requires Trimmed(s)
    ensures CollapseSpaces(s, sep) == Join(Words(s), [sep])
    decreases |s|
  {
    if s != [] {
      if s[|Word(s)|..] == [] {
        LastWord(s, sep);
      } else {
        GapAfterWord(s, sep);
        CollapseTrimmedIsJoin(AfterWord(s), sep);
        WordThenGap(s, sep);
      }
    }
  }

  /** What follows the first word of `s` and the whitespace after it. */
  function AfterWord(s: string): string {
    var rest := s[|Word(s)|..];
    if rest == [] then [] else TrimLeft(rest[1..])
  }

  lemma GapAfterWord(s: string, sep: char)
    requires Trimmed(s) && s != [] && s[|Word(s)|..] != []
    ensures AfterWord(s) != [] && Trimmed(AfterWord(s)) && |AfterWord(s)| < |s|
  {
    var rest := s[|Word(s)|..];
    assert rest[|rest| - 1] == s[|s| - 1];
    GapFacts(rest, sep);
  }

  /** The inductive step: a word, a gap, and text whose collapse is already
      the join of its words. */
  lemma WordThenGap(s: string, sep: char)
    requires Trimmed(s) && s != [] && s[|Word(s)|..] != []
    requires CollapseSpaces(AfterWord(s), sep) == Join(Words(AfterWord(s)), [sep])
    ensures CollapseSpaces(s, sep) == Join(Words(s), [sep])
  {
    var w := Word(s);
    var rest := s[|w|..];
    var t := AfterWord(s);
    LeadingWord(s, sep);
    assert rest[|rest| - 1] == s[|s| - 1];
    GapFacts(rest, sep);
    LeadingWord(t, sep);
    GlueWord(w, sep, Words(t));
  }

  /** The last word alone. */
  lemma LastWord(s: string, sep: char)
    requires s != [] && !IsSpace(s[0]) && s[|Word(s)|..] == []
    ensures CollapseSpaces(s, sep) == Join(Words(s), [sep])
  {
    var w := Word(s);
    var rest := s[|w|..];
    LeadingWord(s, sep);
    assert CollapseSpaces(rest, sep) == [] && Words(rest) == [];
    assert [w] + Words(rest) == [w];
    assert w + CollapseSpaces(rest, sep) == w;
  }

  /**
   * `correct_text_basic` is the words of its input joined by single spaces,
   * with only the first character upper-cased.
   */
  lemma CorrectTextIsCapitalisedWords(s: string)
    ensures var j := Join(Words(s), " ");
            CorrectTextBasic(s) == if j == [] then [] else Capitalise(j)
  {
    if s != [] {
      CollapseTrimmedIsJoin(Strip(s), ' ');
      StripKeepsWords(s);
    }
  }

  /** Text without leading or trailing whitespace is its own strip. */
  lemma StripTrimmed(s: string)
    requires Trimmed(s)
    ensures Strip(s) == s
  {
    assert TrimLeft(s) == s;
  }

  /** Text without whitespace is its own collapse. */
  lemma {:induction false} CollapseNoSpace(s: string, sep: char)
    requires NoSpace(s)
    ensures CollapseSpaces(s, sep) == s
    decreases |s|
  {
    if s != [] {
      CollapseNoSpace(s[1..], sep);
    }
  }
}
