/**
 * `remove_accents_and_lower` and `create_slug`: the URL slug derived from the
 * corrected project name.
 */
module Slug {
  import opened Text

  predicate IsAscii(c: char) {
    c < '\U{80}'
  }

  predicate IsUpperAscii(c: char) {
    'A' <= c <= 'Z'
  }

  /** The canonical decompositions (Unicode NFD) of U+00C0 to U+00FF, in
      code-point order: a precomposed letter becomes its base letter followed
      by its combining mark; the others (Æ, Ð, ×, Ø, Þ, ß, æ, ð, ÷, ø, þ)
      have none and stand for themselves. */
  const Latin1Nfd: seq<string> := [
    /* U+00C0 */ "A\U{300}", "A\U{301}", "A\U{302}", "A\U{303}", "A\U{308}", "A\U{30A}", "\U{C6}", "C\U{327}",
    /* U+00C8 */ "E\U{300}", "E\U{301}", "E\U{302}", "E\U{308}", "I\U{300}", "I\U{301}", "I\U{302}", "I\U{308}",
    /* U+00D0 */ "\U{D0}", "N\U{303}", "O\U{300}", "O\U{301}", "O\U{302}", "O\U{303}", "O\U{308}", "\U{D7}",
    /* U+00D8 */ "\U{D8}", "U\U{300}", "U\U{301}", "U\U{302}", "U\U{308}", "Y\U{301}", "\U{DE}", "\U{DF}",
    /* U+00E0 */ "a\U{300}", "a\U{301}", "a\U{302}", "a\U{303}", "a\U{308}", "a\U{30A}", "\U{E6}", "c\U{327}",
    /* U+00E8 */ "e\U{300}", "e\U{301}", "e\U{302}", "e\U{308}", "i\U{300}", "i\U{301}", "i\U{302}", "i\U{308}",
    /* U+00F0 */ "\U{F0}", "n\U{303}", "o\U{300}", "o\U{301}", "o\U{302}", "o\U{303}", "o\U{308}", "\U{F7}",
    /* U+00F8 */ "\U{F8}", "u\U{300}", "u\U{301}", "u\U{302}", "u\U{308}", "y\U{301}", "\U{FE}", "y\U{308}"
  ]

  /** The canonical decomposition of one character: the table above for
      U+00C0 to U+00FF, the character itself elsewhere. */
  function Decompose(c: char): (d: string)
    ensures IsAscii(c) ==> d == [c]
  {
    if '\U{C0}' <= c <= '\U{FF}' then Latin1Nfd[c as int - 0xC0] else [c]
  }

  /** `unicodedata.normalize("NFD", s)`. Canonical reordering of combining
      marks is not modelled: every mark is dropped by the ASCII filter that
      follows, so the order among them never shows. */
  function Nfd(s: string): (r: string)
    ensures (forall i :: 0 <= i < |s| ==> IsAscii(s[i])) ==> r == s
  {
    if s == [] then [] else Decompose(s[0]) + Nfd(s[1..])
  }

  /** `s.encode("ascii", "ignore").decode("utf-8", "ignore")`: the ASCII
      characters of `s`, in order. */
  function AsciiOnly(s: string): (r: string)
    ensures |r| <= |s|
    ensures forall i :: 0 <= i < |r| ==> IsAscii(r[i])
    ensures (forall i :: 0 <= i < |s| ==> IsAscii(s[i])) ==> r == s
  {
    if s == [] then [] else (if IsAscii(s[0]) then [s[0]] else []) + AsciiOnly(s[1..])
  }

  /** The filter keeps exactly the ASCII characters of its input. */
  lemma {:induction false} AsciiOnlyKeeps(s: string)
    ensures forall c :: c in AsciiOnly(s) <==> c in s && IsAscii(c)
  {
    if s != [] {
      AsciiOnlyKeeps(s[1..]);
      assert s == [s[0]] + s[1..];
    }
  }

  function LowerChar(c: char): (l: char)
    ensures !IsUpperAscii(l)
    ensures IsAscii(c) ==> IsAscii(l)
    ensures !IsUpperAscii(c) ==> l == c
  {
    if IsUpperAscii(c) then (c as int + 32) as char else c
  }

  /** `str.lower()` of an ASCII string. */
  function Lower(s: string): (r: string)
    ensures |r| == |s|
    ensures forall i :: 0 <= i < |s| ==> r[i] == LowerChar(s[i])
  {
    if s == [] then [] else [LowerChar(s[0])] + Lower(s[1..])
  }

  /** `remove_accents_and_lower`: the result is ASCII and has no upper-case
      letter; text that already is leaves it unchanged. */
  function RemoveAccentsAndLower(s: string): (r: string)
    ensures forall i :: 0 <= i < |r| ==> IsAscii(r[i]) && !IsUpperAscii(r[i])
    ensures (forall i :: 0 <= i < |s| ==> IsAscii(s[i]) && !IsUpperAscii(s[i])) ==> r == s
  {
    Lower(AsciiOnly(Nfd(s)))
  }

  /** The characters the substitution `re.sub(r"[^a-z0-9\s-]", "", s)` keeps. */
  predicate SlugSourceChar(c: char) {
    'a' <= c <= 'z' || '0' <= c <= '9' || IsSpace(c) || c == '-'
  }

  /** `re.sub(r"[^a-z0-9\s-]", "", s)`. */
  function KeepSlugChars(s: string): (r: string)
    ensures forall c :: c in r <==> c in s && SlugSourceChar(c)
    ensures (forall i :: 0 <= i < |s| ==> SlugSourceChar(s[i])) ==> r == s
  {
    if s == [] then [] else (if SlugSourceChar(s[0]) then [s[0]] else []) + KeepSlugChars(s[1..])
  }

  /** On ASCII text accent removal only lower-cases. */
  lemma {:induction false} AsciiIsLowered(s: string)
    requires forall i :: 0 <= i < |s| ==> IsAscii(s[i])
    ensures RemoveAccentsAndLower(s) == Lower(s)
  {
    var n := Nfd(s);
    assert n == s;
    var a := AsciiOnly(n);
    assert a == s;
  }

  /** `s` without its leading hyphens. */
  function DropHyphens(s: string): (r: string)
    ensures |r| <= |s| && r == s[|s| - |r|..]
    ensures r == [] || r[0] != '-'
    ensures forall i :: 0 <= i < |s| - |r| ==> s[i] == '-'
  {
    if s != [] && s[0] == '-' then DropHyphens(s[1..]) else s
  }

  /** `re.sub(r"-+", "-", s)`: every run of hyphens replaced by one hyphen. */
  function SquashHyphens(s: string): (r: string)
    ensures |r| <= |s|
    ensures s != [] ==> r != [] && r[0] == s[0]
    decreases |s|
  {
    if s == [] then []
    else if s[0] == '-' then "-" + SquashHyphens(DropHyphens(s[1..]))
    else [s[0]] + SquashHyphens(s[1..])
  }

  /** The characters a slug consists of: `[a-z0-9-]`. */
  predicate SlugChar(c: char) {
    'a' <= c <= 'z' || '0' <= c <= '9' || c == '-'
  }

  ghost predicate NoDoubleHyphen(s: string) {
    forall i, j :: 0 <= i && j == i + 1 && j < |s| ==> !(s[i] == '-' && s[j] == '-')
  }

  /** A well-formed slug: lower-case ASCII letters, digits and single hyphens. */
  ghost predicate IsSlug(s: string) {
    (forall i :: 0 <= i < |s| ==> SlugChar(s[i])) && NoDoubleHyphen(s)
  }

  /**
   * `create_slug`: strip, remove accents and lower-case, keep `[a-z0-9\s-]`,
   * turn whitespace runs into a hyphen, squash hyphen runs. The result is a
   * well-formed slug, empty for all-whitespace input.
   */
  function CreateSlug(s: string): (r: string)
    ensures IsSlug(r)
    ensures AllSpace(s) ==> r == []
  {
    var t := KeepSlugChars(RemoveAccentsAndLower(Strip(s)));
    assert Strip(s) == [] ==> t == [];
    SlugFromFiltered(t);
    SquashHyphens(CollapseSpaces(t, '-'))
  }

  // ---------------------------------------------------------------------
  // Lemmas

  /** Collapsing whitespace to hyphens and squashing hyphen runs turns any
      text made of `[a-z0-9\s-]` into a well-formed slug. */
  lemma SlugFromFiltered(t: string)
    requires forall c :: c in t ==> SlugSourceChar(c)
    ensures IsSlug(SquashHyphens(CollapseSpaces(t, '-')))
  {
    var u := CollapseSpaces(t, '-');
    CollapseKeepsOnlyText(t, '-');
    SquashKeepsChars(u);
    SquashNoDoubleHyphen(u);
    var r := SquashHyphens(u);
    forall i | 0 <= i < |r| ensures SlugChar(r[i]) {
      assert r[i] in r;
    }
  }

  lemma {:induction false} SquashKeepsChars(s: string)
    ensures forall c :: c in SquashHyphens(s) <==> c in s
    decreases |s|
  {
    if s != [] {
      if s[0] == '-' {
        var t := DropHyphens(s[1..]);
        SquashKeepsChars(t);
        assert forall c :: c in s <==> c == '-' || c in t by {
          forall c | c in s ensures c == '-' || c in t {
            var i :| 0 <= i < |s| && s[i] == c;
            if i > 0 && i - 1 >= |s[1..]| - |t| {
              assert t[i - 1 - (|s[1..]| - |t|)] == c;
            }
          }
        }
      } else {
        SquashKeepsChars(s[1..]);
      }
    }
  }

  lemma {:induction false} SquashNoDoubleHyphen(s: string)
    ensures NoDoubleHyphen(SquashHyphens(s))
    decreases |s|
  {
    if s != [] {
      var r := SquashHyphens(s);
      var t := if s[0] == '-' then DropHyphens(s[1..]) else s[1..];
      var r' := SquashHyphens(t);
      SquashNoDoubleHyphen(t);
      assert r == [r[0]] + r';
      assert r' != [] && r[0] == '-' ==> r'[0] != '-';
      forall i, j | 0 <= i && j == i + 1 && j < |r| ensures !(r[i] == '-' && r[j] == '-') {
        if i > 0 {
          assert r[i] == r'[i - 1] && r[j] == r'[j - 1];
        }
      }
    }
  }

  /** Text without a hyphen run is its own squash. */
  lemma {:induction false} SquashSingleHyphens(s: string)
    requires NoDoubleHyphen(s)
    ensures SquashHyphens(s) == s
    decreases |s|
  {
    if s != [] {
      assert NoDoubleHyphen(s[1..]) by {
        forall i, j | 0 <= i && j == i + 1 && j < |s[1..]| ensures !(s[1..][i] == '-' && s[1..][j] == '-') {
          assert s[1..][i] == s[i + 1] && s[1..][j] == s[j + 1];
        }
      }
      if s[0] == '-' && |s| > 1 {
        assert s[1] != '-';
        assert DropHyphens(s[1..]) == s[1..];
      }
      SquashSingleHyphens(s[1..]);
    }
  }

  /** A well-formed slug is its own slug. */
  lemma SlugFixpoint(s: string)
    requires IsSlug(s)
    ensures CreateSlug(s) == s
  {
    SlugSurvivesFilter(s);
    SlugSurvivesHyphens(s);
  }

  lemma SlugSurvivesFilter(s: string)
    requires IsSlug(s)
    ensures KeepSlugChars(RemoveAccentsAndLower(Strip(s))) == s
  {
    SlugIsStripped(s);
    SlugIsLowerAscii(s);
    SlugIsKept(s);
  }

  lemma SlugIsStripped(s: string)
    requires IsSlug(s)
    ensures Strip(s) == s
  {
    assert s != [] ==> SlugChar(s[0]) && SlugChar(s[|s| - 1]);
    StripTrimmed(s);
  }

  lemma SlugIsLowerAscii(s: string)
    requires IsSlug(s)
    ensures RemoveAccentsAndLower(s) == s
  {
    forall i | 0 <= i < |s| ensures IsAscii(s[i]) && !IsUpperAscii(s[i]) {
      assert SlugChar(s[i]);
    }
  }

  lemma SlugIsKept(s: string)
    requires IsSlug(s)
    ensures KeepSlugChars(s) == s
  {
    forall i | 0 <= i < |s| ensures SlugSourceChar(s[i]) {
      assert SlugChar(s[i]);
    }
  }

  lemma SlugSurvivesHyphens(s: string)
    requires IsSlug(s)
    ensures SquashHyphens(CollapseSpaces(s, '-')) == s
  {
    assert NoSpace(s);
    CollapseNoSpace(s, '-');
    SquashSingleHyphens(s);
  }

  /** `create_slug` is idempotent. */
  lemma SlugIdempotent(s: string)
    ensures CreateSlug(CreateSlug(s)) == CreateSlug(s)
  {
    SlugFixpoint(CreateSlug(s));
  }

  predicate IsAlnum(c: char) {
    'a' <= c <= 'z' || '0' <= c <= '9'
  }

  /** The lower-case letters and digits of `s`, in order. */
  function Alnums(s: string): string {
    if s == [] then [] else (if IsAlnum(s[0]) then [s[0]] else []) + Alnums(s[1..])
  }

  lemma {:induction false} AlnumsAppend(a: string, b: string)
    ensures Alnums(a + b) == Alnums(a) + Alnums(b)
    decreases |a|
  {
    if a != [] {
      var c, t := a[0], a[1..];
      AlnumsAppend(t, b);
      SplitHead(a, b);
      AlnumsCons(c, t + b);
      AlnumsCons(c, t);
      AppendAssoc((if IsAlnum(c) then [c] else []), Alnums(t), Alnums(b));
    } else {
      assert a + b == b;
    }
  }

  lemma AlnumsCons(c: char, u: string)
    ensures Alnums([c] + u) == (if IsAlnum(c) then [c] else []) + Alnums(u)
  {
    assert ([c] + u)[1..] == u;
  }

  lemma {:induction false} AlnumsKeepSlugChars(s: string)
    ensures Alnums(KeepSlugChars(s)) == Alnums(s)
    decreases |s|
  {
    if s != [] {
      AlnumsKeepSlugChars(s[1..]);
      AlnumsAppend(if SlugSourceChar(s[0]) then [s[0]] else [], KeepSlugChars(s[1..]));
    }
  }

  lemma {:induction false} AlnumsTrimLeft(s: string)
    ensures Alnums(TrimLeft(s)) == Alnums(s)
    decreases |s|
  {
    if s != [] && IsSpace(s[0]) {
      AlnumsTrimLeft(s[1..]);
      assert !IsAlnum(s[0]);
      assert Alnums(s) == Alnums(s[1..]);
    }
  }

  lemma {:induction false} AlnumsCollapse(s: string, sep: char)
    requires !IsAlnum(sep)
    ensures Alnums(CollapseSpaces(s, sep)) == Alnums(s)
    decreases |s|
  {
    if s != [] && IsSpace(s[0]) {
      var t := TrimLeft(s[1..]);
      AlnumsCollapse(t, sep);
      AlnumsTrimLeft(s[1..]);
      assert CollapseSpaces(s, sep) == [sep] + CollapseSpaces(t, sep);
      AlnumsAppend([sep], CollapseSpaces(t, sep));
    } else if s != [] {
      var t := s[1..];
      AlnumsCollapse(t, sep);
      assert CollapseSpaces(s, sep) == [s[0]] + CollapseSpaces(t, sep);
      AlnumsAppend([s[0]], CollapseSpaces(t, sep));
    }
  }

  lemma {:induction false} AlnumsDropHyphens(s: string)
    ensures Alnums(DropHyphens(s)) == Alnums(s)
    decreases |s|
  {
    if s != [] && s[0] == '-' {
      AlnumsDropHyphens(s[1..]);
    }
  }

  lemma {:induction false} AlnumsSquash(s: string)
    ensures Alnums(SquashHyphens(s)) == Alnums(s)
    decreases |s|
  {
    if s != [] {
      var t := if s[0] == '-' then DropHyphens(s[1..]) else s[1..];
      AlnumsSquash(t);
      AlnumsAppend([s[0]], SquashHyphens(t));
      if s[0] == '-' {
        AlnumsDropHyphens(s[1..]);
      }
    }
  }

  /** Nothing but punctuation is lost: the slug's letters and digits are those
      of the stripped, de-accented, lower-cased text, in the same order. */
  lemma SlugKeepsLettersAndDigits(s: string)
    ensures Alnums(CreateSlug(s)) == Alnums(RemoveAccentsAndLower(Strip(s)))
  {
    var a := RemoveAccentsAndLower(Strip(s));
    var t := KeepSlugChars(a);
    AlnumsKeepSlugChars(a);
    AlnumsCollapse(t, '-');
    AlnumsSquash(CollapseSpaces(t, '-'));
  }

  // ---------------------------------------------------------------------
  // Character by character

  lemma {:induction false} NfdAppend(a: string, b: string)
    ensures Nfd(a + b) == Nfd(a) + Nfd(b)
  {
    if a != [] {
      var c, t := a[0], a[1..];
      NfdAppend(t, b);
      SplitHead(a, b);
      NfdCons(c, t + b);
      NfdCons(c, t);
      AppendAssoc(Decompose(c), Nfd(t), Nfd(b));
    } else {
      assert a + b == b;
    }
  }

  lemma NfdCons(c: char, u: string)
    ensures Nfd([c] + u) == Decompose(c) + Nfd(u)
  {
    assert ([c] + u)[1..] == u;
  }

  lemma {:induction false} AsciiOnlyAppend(a: string, b: string)
    ensures AsciiOnly(a + b) == AsciiOnly(a) + AsciiOnly(b)
  {
    if a != [] {
      var c, t := a[0], a[1..];
      AsciiOnlyAppend(t, b);
      SplitHead(a, b);
      AsciiOnlyCons(c, t + b);
      AsciiOnlyCons(c, t);
      AppendAssoc((if IsAscii(c) then [c] else []), AsciiOnly(t), AsciiOnly(b));
    } else {
      assert a + b == b;
    }
  }

  lemma AsciiOnlyCons(c: char, u: string)
    ensures AsciiOnly([c] + u) == (if IsAscii(c) then [c] else []) + AsciiOnly(u)
  {
    assert ([c] + u)[1..] == u;
  }

  lemma LowerAppend(a: string, b: string)
    ensures Lower(a + b) == Lower(a) + Lower(b)
  {
  }

  /** Accent removal works character by character: the text split anywhere
      gives the two parts' results, one after the other. */
  lemma RemoveAccentsAndLowerAppend(a: string, b: string)
    ensures RemoveAccentsAndLower(a + b) == RemoveAccentsAndLower(a) + RemoveAccentsAndLower(b)
  {
    NfdAppend(a, b);
    AsciiOnlyAppend(Nfd(a), Nfd(b));
    LowerAppend(AsciiOnly(Nfd(a)), AsciiOnly(Nfd(b)));
  }
}
