/** `Array.prototype.sort` with a comparator, as a stable insertion sort on
    a sequence. The language requires the sort to be stable; with a
    comparator that is a total preorder every stable sort gives the same
    answer, so the one below stands for the engine's. */
module StableSort {
  import opened Selection

  /** Place `x` in front of the first element that the comparator puts
      after it. */
  function Insert<T>(cmp: (T, T) -> int, x: T, s: seq<T>): (r: seq<T>)
    ensures multiset(r) == multiset(s) + multiset{x}
    decreases |s|
  {
    if s == [] then [x]
    else if cmp(x, s[0]) < 0 then [x] + s
    else
      assert s == [s[0]] + s[1..];
      [s[0]] + Insert(cmp, x, s[1..])
  }

  /** `s.sort(cmp)` on a copy: insert the elements in turn. */
  function Sort<T>(cmp: (T, T) -> int, s: seq<T>): (r: seq<T>)
    ensures multiset(r) == multiset(s)
    decreases |s|
  {
    if s == [] then []
    else
      assert s == s[..|s| - 1] + [s[|s| - 1]];
      Insert(cmp, s[|s| - 1], Sort(cmp, s[..|s| - 1]))
  }

  /** Every pair of elements is in comparator order. */
  ghost predicate Ordered<T>(cmp: (T, T) -> int, s: seq<T>)
  {
    forall i, j :: 0 <= i < j < |s| ==> cmp(s[i], s[j]) <= 0
  }

  /** On the elements of `dom` the comparator is antisymmetric (swapping
      the operands negates the answer) and "not after" is transitive: a
      total preorder. */
  ghost predicate Consistent<T>(cmp: (T, T) -> int, dom: seq<T>)
  {
    (forall a, b :: a in dom && b in dom ==> cmp(a, b) == -cmp(b, a)) &&
    (forall a, b, c ::
       (a in dom && b in dom && c in dom && cmp(a, b) <= 0 && cmp(b, c) <= 0) ==> cmp(a, c) <= 0)
  }

  /** Consistency carries over to the elements of a smaller collection. */
  lemma {:induction false} ConsistentWithin<T>(cmp: (T, T) -> int, small: seq<T>, big: seq<T>)
    requires Consistent(cmp, big)
    requires forall e :: e in small ==> e in big
    ensures Consistent(cmp, small)
  {
  }

  /** The elements of an insertion are the inserted one and the old ones. */
  lemma {:induction false} InsertMembers<T>(cmp: (T, T) -> int, x: T, s: seq<T>)
    ensures forall e :: e in Insert(cmp, x, s) ==> e == x || e in s
  {
    var r := Insert(cmp, x, s);
    forall e | e in r ensures e == x || e in s {
      assert e in multiset(r);
    }
  }

  /** The sorted copy holds nothing that was not in the input. */
  lemma {:induction false} SortMembers<T>(cmp: (T, T) -> int, s: seq<T>)
    ensures forall e :: e in Sort(cmp, s) ==> e in s
  {
    var r := Sort(cmp, s);
    forall e | e in r ensures e in s {
      assert e in multiset(r);
    }
  }

  /** The tail of an ordered sequence is ordered. */
  lemma {:induction false} OrderedTail<T>(cmp: (T, T) -> int, s: seq<T>)
    requires Ordered(cmp, s) && s != []
    ensures Ordered(cmp, s[1..])
  {
    var t := s[1..];
    forall i, j | 0 <= i < j < |t| ensures cmp(t[i], t[j]) <= 0 {
      assert t[i] == s[i + 1] && t[j] == s[j + 1];
    }
  }

  /** Putting in front an element that comes before all others keeps order. */
  lemma {:induction false} OrderedCons<T>(cmp: (T, T) -> int, h: T, t: seq<T>)
    requires Ordered(cmp, t)
    requires forall e :: e in t ==> cmp(h, e) <= 0
    ensures Ordered(cmp, [h] + t)
  {
    var r := [h] + t;
    forall i, j | 0 <= i < j < |r| ensures cmp(r[i], r[j]) <= 0 {
      assert r[j] == t[j - 1];
      if i > 0 {
        assert r[i] == t[i - 1];
      }
    }
  }

  /** Inserting into an ordered sequence keeps it ordered. */
  lemma {:induction false} InsertOrdered<T>(cmp: (T, T) -> int, x: T, s: seq<T>, dom: seq<T>)
    requires Consistent(cmp, dom)
    requires x in dom && forall e :: e in s ==> e in dom
    requires Ordered(cmp, s)
    ensures Ordered(cmp, Insert(cmp, x, s))
    decreases |s|
  {
    if s == [] {
    } else if cmp(x, s[0]) < 0 {
      forall e | e in s ensures cmp(x, e) <= 0 {
        var j :| 0 <= j < |s| && s[j] == e;
        if j > 0 {
          assert cmp(s[0], s[j]) <= 0;
        }
      }
      OrderedCons(cmp, x, s);
    } else {
      var tail := s[1..];
      assert forall e :: e in tail ==> e in s;
      OrderedTail(cmp, s);
      InsertOrdered(cmp, x, tail, dom);
      InsertMembers(cmp, x, tail);
      forall e | e in Insert(cmp, x, tail) ensures cmp(s[0], e) <= 0 {
        if e != x {
          var j :| 0 <= j < |tail| && tail[j] == e;
          assert s[j + 1] == e;
        }
      }
      OrderedCons(cmp, s[0], Insert(cmp, x, tail));
    }
  }

  /** With a consistent comparator the sorted copy is in comparator order. */
  lemma {:induction false} SortOrdered<T>(cmp: (T, T) -> int, s: seq<T>)
    requires Consistent(cmp, s)
    ensures Ordered(cmp, Sort(cmp, s))
    decreases |s|
  {
    if s != [] {
      var init := s[..|s| - 1];
      assert forall e :: e in init ==> e in s;
      ConsistentWithin(cmp, init, s);
      SortOrdered(cmp, init);
      SortMembers(cmp, init);
      InsertOrdered(cmp, s[|s| - 1], Sort(cmp, init), s);
    }
  }

  /** The elements of `s` that tie with `x`, in their order in `s`. */
  function Ties<T>(cmp: (T, T) -> int, s: seq<T>, x: T): seq<T>
    decreases |s|
  {
    if s == [] then []
    else (if cmp(s[0], x) == 0 then [s[0]] else []) + Ties(cmp, s[1..], x)
  }

  lemma InitLast<T>(s: seq<T>)
    requires s != []
    ensures s[..|s| - 1] + [s[|s| - 1]] == s
  {
  }

  /** The ties of one element followed by more. */
  lemma {:induction false} TiesCons<T>(cmp: (T, T) -> int, h: T, t: seq<T>, x: T)
    ensures Ties(cmp, [h] + t, x) == (if cmp(h, x) == 0 then [h] else []) + Ties(cmp, t, x)
  {
    assert ([h] + t)[0] == h;
    assert ([h] + t)[1..] == t;
  }

  lemma {:induction false} TiesConcat<T>(cmp: (T, T) -> int, a: seq<T>, b: seq<T>, x: T)
    ensures Ties(cmp, a + b, x) == Ties(cmp, a, x) + Ties(cmp, b, x)
    decreases |a|
  {
    if a == [] {
      assert a + b == b;
    } else {
      var h := if cmp(a[0], x) == 0 then [a[0]] else [];
      assert a + b == [a[0]] + (a[1..] + b);
      TiesCons(cmp, a[0], a[1..] + b, x);
      TiesConcat(cmp, a[1..], b, x);
      assert Ties(cmp, a, x) == h + Ties(cmp, a[1..], x);
      Associative(h, Ties(cmp, a[1..], x), Ties(cmp, b, x));
    }
  }

  lemma {:induction false} TiesNone<T>(cmp: (T, T) -> int, s: seq<T>, x: T)
    requires forall e :: e in s ==> cmp(e, x) != 0
    ensures Ties(cmp, s, x) == []
    decreases |s|
  {
    if s != [] {
      assert forall e :: e in s[1..] ==> e in s;
      TiesNone(cmp, s[1..], x);
    }
  }

  /** An element that sorts strictly before the head of an ordered sequence
      ties with none of its elements, nor does anything it ties with. */
  lemma {:induction false} NoTieAfterSmaller<T>(cmp: (T, T) -> int, y: T, s: seq<T>, x: T, dom: seq<T>)
    requires Consistent(cmp, dom)
    requires x in dom && y in dom && forall e :: e in s ==> e in dom
    requires Ordered(cmp, s) && s != []
    requires cmp(y, s[0]) < 0 && cmp(y, x) == 0
    ensures forall e :: e in s ==> cmp(e, x) != 0
  {
    forall e | e in s ensures cmp(e, x) != 0 {
      var j :| 0 <= j < |s| && s[j] == e;
      assert cmp(s[0], s[0]) == -cmp(s[0], s[0]);
      assert cmp(s[0], e) <= 0;
      assert cmp(x, y) == 0;
      if cmp(e, x) == 0 {
        assert false;
      }
    }
  }

  /** The ties of an insertion that lands in front. */
  lemma {:induction false} InsertTiesFront<T>(cmp: (T, T) -> int, y: T, s: seq<T>, x: T)
    requires s != [] && cmp(y, s[0]) < 0
    requires cmp(y, x) == 0 ==> Ties(cmp, s, x) == []
    ensures Ties(cmp, Insert(cmp, y, s), x) == Ties(cmp, s, x) + (if cmp(y, x) == 0 then [y] else [])
  {
    assert Insert(cmp, y, s) == [y] + s;
    TiesCons(cmp, y, s, x);
  }

  /** The ties of an insertion that goes past the head. */
  lemma {:induction false} InsertTiesPast<T>(cmp: (T, T) -> int, y: T, s: seq<T>, x: T)
    requires s != [] && cmp(y, s[0]) >= 0
    requires Ties(cmp, Insert(cmp, y, s[1..]), x) == Ties(cmp, s[1..], x) + (if cmp(y, x) == 0 then [y] else [])
    ensures Ties(cmp, Insert(cmp, y, s), x) == Ties(cmp, s, x) + (if cmp(y, x) == 0 then [y] else [])
  {
    var tail := s[1..];
    var h := if cmp(s[0], x) == 0 then [s[0]] else [];
    var ty := if cmp(y, x) == 0 then [y] else [];
    InsertPastHead(cmp, y, s);
    TiesCons(cmp, s[0], Insert(cmp, y, tail), x);
    TiesHead(cmp, s, x);
    Associative(h, Ties(cmp, tail, x), ty);
  }

  /** An insertion that goes past the head keeps the head in front. */
  lemma InsertPastHead<T>(cmp: (T, T) -> int, y: T, s: seq<T>)
    requires s != [] && cmp(y, s[0]) >= 0
    ensures Insert(cmp, y, s) == [s[0]] + Insert(cmp, y, s[1..])
  {
  }

  /** The ties of a sequence, split at its head. */
  lemma TiesHead<T>(cmp: (T, T) -> int, s: seq<T>, x: T)
    requires s != []
    ensures Ties(cmp, s, x) == (if cmp(s[0], x) == 0 then [s[0]] else []) + Ties(cmp, s[1..], x)
  {
  }

  /** Inserting `y` puts it after every element it ties with. */
  lemma {:induction false} InsertTies<T>(cmp: (T, T) -> int, y: T, s: seq<T>, x: T, dom: seq<T>)
    requires Consistent(cmp, dom)
    requires x in dom && y in dom && forall e :: e in s ==> e in dom
    requires Ordered(cmp, s)
    ensures Ties(cmp, Insert(cmp, y, s), x) == Ties(cmp, s, x) + (if cmp(y, x) == 0 then [y] else [])
    decreases |s|
  {
    if s == [] {
      assert Insert(cmp, y, s) == [y] + [];
      TiesCons(cmp, y, [], x);
    } else if cmp(y, s[0]) < 0 {
      if cmp(y, x) == 0 {
        NoTieAfterSmaller(cmp, y, s, x, dom);
        TiesNone(cmp, s, x);
      }
      InsertTiesFront(cmp, y, s, x);
    } else {
      assert forall e :: e in s[1..] ==> e in s;
      OrderedTail(cmp, s);
      InsertTies(cmp, y, s[1..], x, dom);
      InsertTiesPast(cmp, y, s, x);
    }
  }

  /** One step of the stability proof, for the last element. */
  lemma {:induction false} SortStableStep<T>(cmp: (T, T) -> int, s: seq<T>, x: T)
    requires s != []
    requires Ties(cmp, Sort(cmp, s[..|s| - 1]), x) == Ties(cmp, s[..|s| - 1], x)
    requires Ties(cmp, Insert(cmp, s[|s| - 1], Sort(cmp, s[..|s| - 1])), x)
          == Ties(cmp, Sort(cmp, s[..|s| - 1]), x) + (if cmp(s[|s| - 1], x) == 0 then [s[|s| - 1]] else [])
    ensures Ties(cmp, Sort(cmp, s), x) == Ties(cmp, s, x)
  {
    var init, last := s[..|s| - 1], s[|s| - 1];
    assert Sort(cmp, s) == Insert(cmp, last, Sort(cmp, init));
    TiesSnoc(cmp, s, x);
  }

  /** The ties of a sequence are those of all but its last element, then the
      last element if it ties. */
  lemma TiesSnoc<T>(cmp: (T, T) -> int, s: seq<T>, x: T)
    requires s != []
    ensures Ties(cmp, s, x) == Ties(cmp, s[..|s| - 1], x) + (if cmp(s[|s| - 1], x) == 0 then [s[|s| - 1]] else [])
  {
    var init, last := s[..|s| - 1], s[|s| - 1];
    TiesCons(cmp, last, [], x);
    assert [last] + [] == [last];
    TiesConcat(cmp, init, [last], x);
    assert init + [last] == s;
  }

  /** Stability: with a consistent comparator, the elements that tie with
      any `x` keep their original relative order. */
  lemma {:induction false} SortStable<T>(cmp: (T, T) -> int, s: seq<T>, x: T)
    requires Consistent(cmp, s + [x])
    ensures Ties(cmp, Sort(cmp, s), x) == Ties(cmp, s, x)
    decreases |s|
  {
    if s != [] {
      var init, last := s[..|s| - 1], s[|s| - 1];
      var dom := s + [x];
      assert forall e :: e in init + [x] ==> e in dom;
      ConsistentWithin(cmp, init + [x], dom);
      SortStable(cmp, init, x);
      assert forall e :: e in init ==> e in dom;
      ConsistentWithin(cmp, init, dom);
      SortOrdered(cmp, init);
      SortMembers(cmp, init);
      InsertTies(cmp, last, Sort(cmp, init), x, dom);
      SortStableStep(cmp, s, x);
    }
  }

  /** Inserting an element that ties with everything appends it. */
  lemma {:induction false} InsertTieAppends<T>(cmp: (T, T) -> int, x: T, s: seq<T>)
    requires forall e :: e in s ==> cmp(x, e) == 0
    ensures Insert(cmp, x, s) == s + [x]
    decreases |s|
  {
    if s != [] {
      var tail := s[1..];
      assert s[0] in s && forall e :: e in tail ==> e in s;
      InsertTieAppends(cmp, x, tail);
      InsertPastHead(cmp, x, s);
      assert s == [s[0]] + tail;
      Associative([s[0]], tail, [x]);
    }
  }

  /** When every pair ties, sorting keeps the original order. */
  lemma {:induction false} SortAllTiesKeepsOrder<T>(cmp: (T, T) -> int, s: seq<T>)
    requires forall a, b :: a in s && b in s ==> cmp(a, b) == 0
    ensures Sort(cmp, s) == s
    decreases |s|
  {
    if s != [] {
      var init, last := s[..|s| - 1], s[|s| - 1];
      assert forall e :: e in init ==> e in s;
      SortAllTiesKeepsOrder(cmp, init);
      assert last in s;
      assert forall e :: e in init ==> cmp(last, e) == 0;
      InsertTieAppends(cmp, last, init);
      assert Sort(cmp, s) == Insert(cmp, last, Sort(cmp, init));
      InitLast(s);
    }
  }
}
