/** The table's sort: the value comparator used by the header sort, the
    direction handling by operand swap, and the copy-then-sort of the
    records. The sort is modelled as a stable insertion sort on a sequence:
    the records the component receives are a value here, so the input is
    never changed. */
module Sorting {
  import opened Records
  import opened StableSort

  datatype Direction = Asc | Desc

  /** Stand-in for `localeCompare`: code-point lexicographic order,
      answering -1, 0 or 1. */
  function LexCompare(s: string, t: string): (r: int)
    ensures -1 <= r <= 1
    decreases |s|
  {
    if s == [] && t == [] then 0
    else if s == [] then -1
    else if t == [] then 1
    else if s[0] < t[0] then -1
    else if s[0] > t[0] then 1
    else LexCompare(s[1..], t[1..])
  }

  /** Swapping the operands negates the answer. */
  lemma {:induction false} LexAntisymmetric(s: string, t: string)
    ensures LexCompare(s, t) == -LexCompare(t, s)
    decreases |s|
  {
    if s != [] && t != [] && s[0] == t[0] {
      LexAntisymmetric(s[1..], t[1..]);
    }
  }

  /** Only equal strings compare equal. */
  lemma {:induction false} LexZeroIffEqual(s: string, t: string)
    ensures LexCompare(s, t) == 0 <==> s == t
    decreases |s|
  {
    if s != [] && t != [] && s[0] == t[0] {
      LexZeroIffEqual(s[1..], t[1..]);
      assert s == [s[0]] + s[1..] && t == [t[0]] + t[1..];
    }
  }

  /** "Not after" is transitive. */
  lemma {:induction false} LexTransitive(a: string, b: string, c: string)
    requires LexCompare(a, b) <= 0 && LexCompare(b, c) <= 0
    ensures LexCompare(a, c) <= 0
    decreases |a|
  {
    if a != [] && b != [] && c != [] && a[0] == b[0] == c[0] {
      LexTransitive(a[1..], b[1..], c[1..]);
    }
  }

  /** The header sort's comparator on the values of field `col`: 0 when
      either value is undefined, the difference when both are numbers,
      otherwise a comparison of their text. */
  function CustomSort(col: string, a: Record, b: Record): int
  {
    if col in a && col in b then
      match (a[col], b[col])
      case (Num(x), Num(y)) => x - y
      case (va, vb) => LexCompare(Text(va), Text(vb))
    else 0
  }

  /** What the sign of the comparator means, case by case. */
  lemma CustomSortSign(col: string, a: Record, b: Record)
    ensures col !in a || col !in b ==> CustomSort(col, a, b) == 0
    ensures col in a && col in b && a[col].Num? && b[col].Num? ==>
      (CustomSort(col, a, b) < 0 <==> a[col].n < b[col].n) &&
      (CustomSort(col, a, b) == 0 <==> a[col].n == b[col].n)
    ensures col in a && col in b && !(a[col].Num? && b[col].Num?) ==>
      (CustomSort(col, a, b) == 0 <==> Text(a[col]) == Text(b[col])) &&
      (CustomSort(col, a, b) < 0 <==> LexCompare(Text(a[col]), Text(b[col])) == -1)
  {
    if col in a && col in b {
      LexZeroIffEqual(Text(a[col]), Text(b[col]));
    }
  }

  /** Swapping the records negates the answer. */
  lemma CustomSortAntisymmetric(col: string, a: Record, b: Record)
    ensures CustomSort(col, a, b) == -CustomSort(col, b, a)
  {
    if col in a && col in b {
      LexAntisymmetric(Text(a[col]), Text(b[col]));
    }
  }

  /** The comparator the sort receives: descending order is obtained by
      swapping the operands of the ascending comparator. */
  function Compare(col: string, dir: Direction, a: Record, b: Record): int
  {
    if dir == Asc then CustomSort(col, a, b) else CustomSort(col, b, a)
  }

  /** Because the comparator is antisymmetric, swapping operands is the
      same as negating the ascending answer. */
  lemma DescendingNegatesAscending(col: string, a: Record, b: Record)
    ensures Compare(col, Desc, a, b) == -Compare(col, Asc, a, b)
  {
    CustomSortAntisymmetric(col, a, b);
  }

  /** Antisymmetry holds in both directions, and a record ties with itself. */
  lemma CompareAntisymmetric(col: string, dir: Direction, a: Record, b: Record)
    ensures Compare(col, dir, a, b) == -Compare(col, dir, b, a)
    ensures Compare(col, dir, a, a) == 0
    ensures Compare(col, dir, a, b) == 0 <==> CustomSort(col, a, b) == 0
  {
    CustomSortAntisymmetric(col, a, b);
    CustomSortAntisymmetric(col, a, a);
  }

  /** The function handed to the sort for the current column and direction. */
  function Comparator(col: string, dir: Direction): (Record, Record) -> int
  {
    (a: Record, b: Record) => Compare(col, dir, a, b)
  }

  /** `sortedValues`: a sorted copy of the records; it always holds the
      same records, each as often as before. */
  function SortedValues(col: string, dir: Direction, values: seq<Record>): (r: seq<Record>)
    ensures multiset(r) == multiset(values)
    ensures |r| == |values|
  {
    assert |multiset(Sort(Comparator(col, dir), values))| == |multiset(values)|;
    Sort(Comparator(col, dir), values)
  }

  /** Every record defines `col`, and either all those values are numbers
      or none is. */
  ghost predicate Uniform(col: string, dom: seq<Record>)
  {
    (forall e: Record :: e in dom ==> col in e && e[col].Num?) ||
    (forall e: Record :: e in dom ==> col in e && !e[col].Num?)
  }

  /** On a uniform column the comparator is a total preorder. */
  lemma UniformConsistent(col: string, dir: Direction, dom: seq<Record>)
    requires Uniform(col, dom)
    ensures Consistent(Comparator(col, dir), dom)
  {
    var cmp := Comparator(col, dir);
    forall a: Record, b: Record | a in dom && b in dom ensures cmp(a, b) == -cmp(b, a) {
      CompareAntisymmetric(col, dir, a, b);
    }
    forall a: Record, b: Record, c: Record |
      a in dom && b in dom && c in dom && cmp(a, b) <= 0 && cmp(b, c) <= 0
      ensures cmp(a, c) <= 0
    {
      if !a[col].Num? {
        var ta, tb, tc := Text(a[col]), Text(b[col]), Text(c[col]);
        if dir == Asc {
          LexTransitive(ta, tb, tc);
        } else {
          LexTransitive(tc, tb, ta);
        }
      }
    }
  }

  /** Mixing numbers and strings under one column breaks transitivity:
      10 sorts before "9" as text, "9" ties with 9 as text, and 9 sorts
      before 10 as numbers. */
  lemma MixedColumnInconsistent()
    ensures !Consistent(Comparator("k", Asc), [map["k" := Num(10)], map["k" := Str("9")], map["k" := Num(9)]])
  {
    var ten, text9, nine := map["k" := Num(10)], map["k" := Str("9")], map["k" := Num(9)];
    var cmp := Comparator("k", Asc);
    assert NumText(10) == "10";
    assert cmp(ten, text9) == -1;
    assert cmp(text9, nine) == 0;
    assert cmp(ten, nine) == 1;
  }

  /** On a uniform column the rows come out in the chosen direction:
      ascending puts no record before one the comparator ranks below it,
      descending the reverse. */
  lemma SortedValuesOrdered(col: string, dir: Direction, values: seq<Record>)
    requires Uniform(col, values)
    ensures var r := SortedValues(col, dir, values);
      forall i, j :: 0 <= i < j < |r| ==>
        if dir == Asc then CustomSort(col, r[i], r[j]) <= 0 else CustomSort(col, r[i], r[j]) >= 0
  {
    UniformConsistent(col, dir, values);
    SortOrdered(Comparator(col, dir), values);
    var r := SortedValues(col, dir, values);
    forall i, j | 0 <= i < j < |r|
      ensures if dir == Asc then CustomSort(col, r[i], r[j]) <= 0 else CustomSort(col, r[i], r[j]) >= 0
    {
      assert Comparator(col, dir)(r[i], r[j]) <= 0;
      CustomSortAntisymmetric(col, r[i], r[j]);
    }
  }

  /** On a uniform column the sort is stable: the records that tie with
      any record `x` of the input appear in their original order. */
  lemma SortedValuesStable(col: string, dir: Direction, values: seq<Record>, x: Record)
    requires Uniform(col, values) && x in values
    ensures Ties(Comparator(col, dir), SortedValues(col, dir, values), x) == Ties(Comparator(col, dir), values, x)
  {
    assert forall e :: e in values + [x] ==> e in values;
    assert Uniform(col, values + [x]);
    UniformConsistent(col, dir, values + [x]);
    SortStable(Comparator(col, dir), values, x);
  }

  /** When no record has the sort field (the cleared column `''`, say),
      the rows keep their original order. */
  lemma SortedValuesWithoutField(col: string, dir: Direction, values: seq<Record>)
    requires forall e :: e in values ==> col !in e
    ensures SortedValues(col, dir, values) == values
  {
    SortAllTiesKeepsOrder(Comparator(col, dir), values);
  }
}
