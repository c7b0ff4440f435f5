/**
 * Ordinal, case-insensitive string ordering, and the stable sort the
 * snapshot applies to the entries. Case folding maps ASCII lower-case
 * letters to upper case; characters are then compared by code.
 */
module IgnoreCaseOrder {

  function FoldChar(c: char): char {
    if 'a' <= c <= 'z' then (c as int - 32) as char else c
  }

  function FoldCase(s: string): string {
    seq(|s|, i requires 0 <= i < |s| => FoldChar(s[i]))
  }

  /** Ordinal lexicographic order: a proper prefix comes first. */
  predicate LexLessEq(a: string, b: string) {
    |a| == 0 || (|b| > 0 && (a[0] < b[0] || (a[0] == b[0] && LexLessEq(a[1..], b[1..]))))
  }

  /** The order of the snapshot's lines: ordinal comparison of the case-folded strings. */
  predicate LessEq(a: string, b: string) {
    LexLessEq(FoldCase(a), FoldCase(b))
  }

  lemma {:induction false} LexReflexive(a: string)
    ensures LexLessEq(a, a)
  {
    if |a| > 0 {
      LexReflexive(a[1..]);
    }
  }

  lemma {:induction false} LexTotal(a: string, b: string)
    ensures LexLessEq(a, b) || LexLessEq(b, a)
  {
    if |a| > 0 && |b| > 0 && a[0] == b[0] {
      LexTotal(a[1..], b[1..]);
    }
  }

  lemma {:induction false} LexTransitive(a: string, b: string, c: string)
    requires LexLessEq(a, b) && LexLessEq(b, c)
    ensures LexLessEq(a, c)
  {
    if |a| > 0 && a[0] == b[0] && b[0] == c[0] {
      LexTransitive(a[1..], b[1..], c[1..]);
    }
  }

  lemma {:induction false} LexAntisymmetric(a: string, b: string)
    requires LexLessEq(a, b) && LexLessEq(b, a)
    ensures a == b
  {
    if |a| > 0 {
      LexAntisymmetric(a[1..], b[1..]);
      assert a == [a[0]] + a[1..] && b == [b[0]] + b[1..];
    }
  }

  /** `LessEq` is a total preorder. */
  lemma LessEqTotalPreorder(a: string, b: string, c: string)
    ensures LessEq(a, a)
    ensures LessEq(a, b) || LessEq(b, a)
    ensures LessEq(a, b) && LessEq(b, c) ==> LessEq(a, c)
  {
    LexReflexive(FoldCase(a));
    LexTotal(FoldCase(a), FoldCase(b));
    if LessEq(a, b) && LessEq(b, c) {
      LexTransitive(FoldCase(a), FoldCase(b), FoldCase(c));
    }
  }

  /** Two strings are equivalent under the order exactly when they agree up to case. */
  lemma EquivalentIffSameFolded(a: string, b: string)
    ensures (LessEq(a, b) && LessEq(b, a)) <==> FoldCase(a) == FoldCase(b)
  {
    if LessEq(a, b) && LessEq(b, a) {
      LexAntisymmetric(FoldCase(a), FoldCase(b));
    }
    if FoldCase(a) == FoldCase(b) {
      LexReflexive(FoldCase(a));
    }
  }

  predicate Sorted(s: seq<string>) {
    forall i, j :: 0 <= i < j < |s| ==> LessEq(s[i], s[j])
  }

  lemma {:induction false} ConsSorted(y: string, s: seq<string>)
    requires Sorted(s)
    requires forall z :: z in multiset(s) ==> LessEq(y, z)
    ensures Sorted([y] + s)
  {
    forall j | 0 <= j < |s| ensures LessEq(y, s[j]) {
      assert s[j] in multiset(s);
    }
  }

  lemma {:induction false} HeadBelowAll(x: string, s: seq<string>)
    requires Sorted(s) && s != []
    requires LessEq(x, s[0])
    ensures forall z :: z in multiset(s) ==> LessEq(x, z)
  {
    forall z | z in multiset(s) ensures LessEq(x, z) {
      var j :| 0 <= j < |s| && s[j] == z;
      LessEqTotalPreorder(x, s[0], s[j]);
    }
  }

  lemma {:induction false} HeadBelowRestAndX(x: string, s: seq<string>)
    requires Sorted(s) && s != []
    requires !LessEq(x, s[0])
    ensures forall z :: z in multiset(s[1..]) + multiset{x} ==> LessEq(s[0], z)
  {
    LessEqTotalPreorder(x, s[0], x);
    forall z | z in multiset(s[1..]) + multiset{x} ensures LessEq(s[0], z) {
      if z != x {
        var j :| 0 <= j < |s[1..]| && s[1..][j] == z;
        assert s[j + 1] == z;
      }
    }
  }

  /**
   * Insert `x` before the first element it is not greater than. The input
   * is sorted from the back, so `x` comes from earlier in the input than
   * every element of `s`, and equal elements keep their input order.
   */
  function Insert(x: string, s: seq<string>): (r: seq<string>)
    requires Sorted(s)
    ensures Sorted(r)
    ensures multiset(r) == multiset(s) + multiset{x}
  {
    if s == [] then [x]
    else if LessEq(x, s[0]) then
      HeadBelowAll(x, s);
      ConsSorted(x, s);
      [x] + s
    else
      var rest := Insert(x, s[1..]);
      HeadBelowRestAndX(x, s);
      ConsSorted(s[0], rest);
      assert s == [s[0]] + s[1..];
      [s[0]] + rest
  }

  /** The lines in snapshot order: sorted, and a permutation of the input. */
  function SortIgnoreCase(s: seq<string>): (r: seq<string>)
    ensures Sorted(r)
    ensures multiset(r) == multiset(s)
  {
    if s == [] then []
    else
      assert s == [s[0]] + s[1..];
      Insert(s[0], SortIgnoreCase(s[1..]))
  }
}
