/** `filter` on a sequence: the selected elements, the positions they
    come from, and how selections compose. */
module Selection {


  /** `s.filter(keep)`: the elements that pass, in their order. */
  function Select<T(!new)>(s: seq<T>, keep: T -> bool): (r: seq<T>)
    ensures |r| <= |s|
    ensures forall x :: x in r <==> x in s && keep(x)
    decreases |s|
  {
    if s == [] then []
    else (if keep(s[0]) then [s[0]] else []) + Select(s[1..], keep)
  }

  /** The positions of `s` whose elements pass, ascending. */
  function SelectedIndices<T(!new)>(s: seq<T>, keep: T -> bool): (idx: seq<int>)
    ensures forall k :: 0 <= k < |idx| ==> 0 <= idx[k] < |s|
    ensures forall k, l :: 0 <= k < l < |idx| ==> idx[k] < idx[l]
    ensures forall i :: 0 <= i < |s| ==> (i in idx <==> keep(s[i]))
    decreases |s|
  {
    if s == [] then []
    else
      var rest := SelectedIndices(s[1..], keep);
      ShiftMembers(rest);
      (if keep(s[0]) then [0] else []) + Shift(rest)
  }

  /** Every position one further on. */
  function Shift(idx: seq<int>): (r: seq<int>)
    ensures |r| == |idx| && forall k :: 0 <= k < |r| ==> r[k] == idx[k] + 1
  {
    seq(|idx|, k requires 0 <= k < |idx| => idx[k] + 1)
  }

  lemma ShiftMembers(idx: seq<int>)
    ensures forall i :: i in Shift(idx) <==> i - 1 in idx
  {
    forall i ensures i in Shift(idx) <==> i - 1 in idx {
      if i in Shift(idx) {
        var k :| 0 <= k < |idx| && Shift(idx)[k] == i;
        assert idx[k] == i - 1;
      }
      if i - 1 in idx {
        var k :| 0 <= k < |idx| && idx[k] == i - 1;
        assert Shift(idx)[k] == i;
      }
    }
  }

  /** The selection is the elements at the selected positions, in order. */
  lemma {:induction false} SelectAt<T(!new)>(s: seq<T>, keep: T -> bool)
    ensures var r, idx := Select(s, keep), SelectedIndices(s, keep);
      |r| == |idx| && forall k :: 0 <= k < |r| ==> r[k] == s[idx[k]]
    decreases |s|
  {
    if s != [] {
      SelectAt(s[1..], keep);
      ConsAt(s[0], s[1..], Select(s[1..], keep), SelectedIndices(s[1..], keep), keep(s[0]));
      assert [s[0]] + s[1..] == s;
    }
  }

  /** Putting an element in front keeps elements and positions in step:
      the positions move one further on, and the front element, if taken,
      comes from position 0. */
  lemma ConsAt<T>(x: T, t: seq<T>, r: seq<T>, idx: seq<int>, take: bool)
    requires |r| == |idx| && forall k :: 0 <= k < |r| ==> 0 <= idx[k] < |t| && r[k] == t[idx[k]]
    ensures var r1, idx1 := (if take then [x] else []) + r, (if take then [0] else []) + Shift(idx);
      |r1| == |idx1| && forall k :: 0 <= k < |r1| ==> 0 <= idx1[k] < |[x] + t| && r1[k] == ([x] + t)[idx1[k]]
  {
  }

  /** Selecting with a weaker test first changes nothing. */
  lemma {:induction false} SelectTwice<T(!new)>(s: seq<T>, p: T -> bool, q: T -> bool)
    requires forall x :: x in s && q(x) ==> p(x)
    ensures Select(Select(s, p), q) == Select(s, q)
    decreases |s|
  {
    if s != [] {
      assert forall x :: x in s[1..] ==> x in s;
      SelectTwice(s[1..], p, q);
      var rest := Select(s[1..], p);
      if p(s[0]) {
        assert Select(s, p) == [s[0]] + rest;
        assert ([s[0]] + rest)[1..] == rest;
        assert Select([s[0]] + rest, q) == (if q(s[0]) then [s[0]] else []) + Select(rest, q);
      } else {
        assert !q(s[0]);
        assert Select(s, p) == rest;
        assert Select(s, q) == Select(s[1..], q);
      }
    }
  }

  /** Tests that agree on the elements select alike. */
  lemma {:induction false} SelectSame<T(!new)>(s: seq<T>, p: T -> bool, q: T -> bool)
    requires forall x :: x in s ==> p(x) == q(x)
    ensures Select(s, p) == Select(s, q)
    decreases |s|
  {
    if s != [] {
      assert forall x :: x in s[1..] ==> x in s;
      SelectSame(s[1..], p, q);
    }
  }

  /** Concatenation regroups freely. */
  lemma {:induction false} Associative<T>(a: seq<T>, b: seq<T>, c: seq<T>)
    ensures a + (b + c) == (a + b) + c
  {
  }
}
