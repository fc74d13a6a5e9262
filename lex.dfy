/**
 * Python's ordering of `str` values and `sorted(set(xs))`, which the
 * department summary uses.
 */
module Lex {

  /** Python's `a < b` on `str`: code points compared left to right, a proper
      prefix before the longer string. */
  predicate Less(a: string, b: string) {
    |b| > 0 && (|a| == 0 || a[0] < b[0] || (a[0] == b[0] && Less(a[1..], b[1..])))
  }

  lemma {:induction false} LessIrreflexive(a: string)
    ensures !Less(a, a)
  {
    if |a| > 0 {
      LessIrreflexive(a[1..]);
    }
  }

  lemma {:induction false} LessTransitive(a: string, b: string, c: string)
    requires Less(a, b) && Less(b, c)
    ensures Less(a, c)
  {
    if |a| > 0 && a[0] == b[0] && b[0] == c[0] {
      LessTransitive(a[1..], b[1..], c[1..]);
    }
  }

  lemma LessAsymmetric(a: string, b: string)
    requires Less(a, b)
    ensures !Less(b, a)
  {
    if Less(b, a) {
      LessTransitive(a, b, a);
      LessIrreflexive(a);
    }
  }

  lemma {:induction false} LessTotal(a: string, b: string)
    ensures a == b || Less(a, b) || Less(b, a)
  {
    if |a| > 0 && |b| > 0 && a[0] == b[0] {
      LessTotal(a[1..], b[1..]);
      if a[1..] == b[1..] {
        assert a == [a[0]] + a[1..] && b == [b[0]] + b[1..];
      }
    }
  }

  /** Every element strictly before every later one: sorted, no duplicates. */
  ghost predicate StrictlyAscending(s: seq<string>) {
    forall i, j :: 0 <= i < j < |s| ==> Less(s[i], s[j])
  }

  /** `x` put into its place in an ascending sequence, unless already there. */
  function Insert(x: string, s: seq<string>): (r: seq<string>)
    requires StrictlyAscending(s)
    ensures StrictlyAscending(r)
    ensures forall y :: y in r <==> y == x || y in s
  {
    if s == [] then [x]
    else if x == s[0] then s
    else if Less(x, s[0]) then
      assert forall j :: 0 < j < |s| ==> Less(x, s[j]) by {
        forall j | 0 < j < |s| ensures Less(x, s[j]) {
          LessTransitive(x, s[0], s[j]);
        }
      }
      [x] + s
    else
      LessTotal(x, s[0]);
      var r' := Insert(x, s[1..]);
      assert forall y :: y in r' ==> Less(s[0], y);
      [s[0]] + r'
  }

  /** `sorted(set(xs))`: the distinct elements of `xs`, in ascending order. */
  function SortedDistinct(xs: seq<string>): (r: seq<string>)
    ensures StrictlyAscending(r)
    ensures forall y :: y in r <==> y in xs
  {
    if xs == [] then []
    else
      var init := xs[..|xs| - 1];
      assert xs == init + [xs[|xs| - 1]];
      Insert(xs[|xs| - 1], SortedDistinct(init))
  }

  /** Two strictly ascending sequences with the same elements are equal: the
      ascending listing of a set is unique. */
  lemma {:induction false} AscendingUnique(a: seq<string>, b: seq<string>)
    requires StrictlyAscending(a) && StrictlyAscending(b)
    requires forall y :: y in a <==> y in b
    ensures a == b
  {
    if a == [] {
      assert forall i :: 0 <= i < |b| ==> b[i] in b;
    } else {
      assert b != [] by {
        assert a[0] in b;
      }
      assert a[0] == b[0] by {
        assert a[0] in b && b[0] in a;
        var k :| 0 <= k < |b| && b[k] == a[0];
        var m :| 0 <= m < |a| && a[m] == b[0];
        if k > 0 && m > 0 {
          LessAsymmetric(b[0], a[0]);
        } else if k > 0 {
          LessIrreflexive(b[0]);
        }
      }
      forall y ensures y in a[1..] <==> y in b[1..] {
        if y in a[1..] {
          var i :| 0 <= i < |a[1..]| && a[1..][i] == y;
          assert Less(a[0], y);
          LessIrreflexive(y);
          assert y in b;
        }
        if y in b[1..] {
          var i :| 0 <= i < |b[1..]| && b[1..][i] == y;
          assert Less(b[0], y);
          LessIrreflexive(y);
          assert y in a;
        }
      }
      AscendingUnique(a[1..], b[1..]);
      assert a == [a[0]] + a[1..] && b == [b[0]] + b[1..];
    }
  }
}
