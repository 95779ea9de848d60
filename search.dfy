/** The table's search box: the query is split on commas into terms; a
    term matches a record when the normalised text of one of its
    non-object field values contains the normalised term; in AND mode a
    record is kept when every term matches, in OR mode when one does. */
module Search {
  import opened Strings
  import opened Records
  import opened Selection
  import opened Normalisation

  // ---------------------------------------------------------------------
  // Matching and filtering.
  // ---------------------------------------------------------------------

  /** A value the search looks at: anything whose `typeof` is not "object". */
  predicate Searchable(v: Value)
  {
    !v.Nested?
  }

  /** Some non-object field value's normal form contains the term's. */
  predicate TermMatches(rec: Record, term: string)
  {
    exists f :: f in rec && Searchable(rec[f]) && Contains(Normalise(Text(rec[f])), Normalise(term))
  }

  /** The record passes the search: every term matches (AND) or one does (OR). */
  predicate Keeps(rec: Record, terms: seq<string>, matchAll: bool)
  {
    if matchAll then forall i :: 0 <= i < |terms| ==> TermMatches(rec, terms[i])
    else exists i :: 0 <= i < |terms| && TermMatches(rec, terms[i])
  }

  /** The search's test, as the function handed to `filter`. */
  function Passes(terms: seq<string>, matchAll: bool): Record -> bool
  {
    (rec: Record) => Keeps(rec, terms, matchAll)
  }

  /** `filteredUsers`: the sorted rows that pass the comma-separated query. */
  function FilteredUsers(sorted: seq<Record>, query: string, doIncludeAll: bool): (r: seq<Record>)
    ensures |r| <= |sorted|
    ensures forall x :: x in r <==> x in sorted && Keeps(x, Split(query, ','), doIncludeAll)
  {
    Select(sorted, Passes(Split(query, ','), doIncludeAll))
  }

  /** The filter keeps the sorted order: its rows are the records at an
      ascending list of positions, and a position is listed exactly when
      its record passes. */
  lemma FilteredUsersSelects(sorted: seq<Record>, query: string, doIncludeAll: bool)
    ensures var r, idx := FilteredUsers(sorted, query, doIncludeAll),
                          SelectedIndices(sorted, Passes(Split(query, ','), doIncludeAll));
      |r| == |idx| &&
      (forall k :: 0 <= k < |r| ==> r[k] == sorted[idx[k]]) &&
      (forall k, l :: 0 <= k < l < |idx| ==> idx[k] < idx[l]) &&
      (forall i :: 0 <= i < |sorted| ==> (i in idx <==> Keeps(sorted[i], Split(query, ','), doIncludeAll)))
  {
    SelectAt(sorted, Passes(Split(query, ','), doIncludeAll));
  }

  /** AND is stricter than OR: the AND rows are the OR rows filtered again
      in AND mode (the query always has at least one term). */
  lemma AndQueryWithinOrQuery(sorted: seq<Record>, query: string)
    ensures FilteredUsers(sorted, query, true)
         == Select(FilteredUsers(sorted, query, false), Passes(Split(query, ','), true))
  {
    var terms := Split(query, ',');
    forall x | x in sorted && Passes(terms, true)(x) ensures Passes(terms, false)(x) {
      assert TermMatches(x, terms[0]);
    }
    SelectTwice(sorted, Passes(terms, false), Passes(terms, true));
  }

  /** A query of two comma-free terms: AND mode needs both to match, OR
      mode either. */
  lemma TwoTermQuery(rec: Record, a: string, b: string)
    requires ',' !in a && ',' !in b
    ensures Split(a + [','] + b, ',') == [a, b]
    ensures Keeps(rec, Split(a + [','] + b, ','), true) <==> TermMatches(rec, a) && TermMatches(rec, b)
    ensures Keeps(rec, Split(a + [','] + b, ','), false) <==> TermMatches(rec, a) || TermMatches(rec, b)
  {
    var parts := [a, b];
    assert parts[1..] == [b];
    assert Join(parts, ',') == a + [','] + b;
    SplitJoin(parts, ',');
    KeepsTwoTerms(rec, a, b);
  }

  /** With two terms, AND is both and OR is either. */
  lemma KeepsTwoTerms(rec: Record, x: string, y: string)
    ensures Keeps(rec, [x, y], true) <==> TermMatches(rec, x) && TermMatches(rec, y)
    ensures Keeps(rec, [x, y], false) <==> TermMatches(rec, x) || TermMatches(rec, y)
  {
    var terms := [x, y];
    assert terms[0] == x && terms[1] == y;
    if TermMatches(rec, x) && TermMatches(rec, y) {
      forall i | 0 <= i < |terms| ensures TermMatches(rec, terms[i]) {
        if i == 0 { assert terms[i] == x; } else { assert terms[i] == y; }
      }
    }
    if TermMatches(rec, y) {
      assert 1 < |terms| && TermMatches(rec, terms[1]);
    }
    if Keeps(rec, terms, false) {
      var i :| 0 <= i < |terms| && TermMatches(rec, terms[i]);
      assert i == 0 || i == 1;
    }
  }

  /** The query "foo,bar" has the terms "foo" and "bar". */
  lemma FooBarQuery(rec: Record, foo: string, bar: string, query: string)
    requires foo == "foo" && bar == "bar" && query == "foo,bar"
    ensures Split(query, ',') == [foo, bar]
    ensures Keeps(rec, Split(query, ','), true) <==> TermMatches(rec, foo) && TermMatches(rec, bar)
    ensures Keeps(rec, Split(query, ','), false) <==> TermMatches(rec, foo) || TermMatches(rec, bar)
  {
    assert query == foo + [','] + bar;
    TwoTermQuery(rec, foo, bar);
  }

  /** The record has a value the search looks at. */
  predicate HasSearchableValue(rec: Record)
  {
    exists f :: f in rec && Searchable(rec[f])
  }

  /** The records having a value the search looks at, in order. */
  function WithSearchableValue(s: seq<Record>): seq<Record>
  {
    Select(s, (rec: Record) => HasSearchableValue(rec))
  }

  /** A term whose normal form is empty matches exactly the records that
      have a value the search looks at. */
  lemma BlankTermMatches(rec: Record, term: string)
    requires Normalise(term) == ""
    ensures TermMatches(rec, term) <==> HasSearchableValue(rec)
  {
    if HasSearchableValue(rec) {
      var f :| f in rec && Searchable(rec[f]);
      assert "" <= Normalise(Text(rec[f]));
    }
  }

  /** With a single term both modes reduce to that term matching. */
  lemma KeepsOneTerm(rec: Record, term: string, matchAll: bool)
    ensures Keeps(rec, [term], matchAll) <==> TermMatches(rec, term)
  {
    assert [term][0] == term;
    if !matchAll && TermMatches(rec, term) {
      assert 0 < |[term]| && TermMatches(rec, [term][0]);
    }
  }

  /** A search for " JOSE " keeps, in either mode, a record whose field
      holds "José": case, accents and surrounding white space do not
      matter. */
  lemma UpperTermFindsAccentedValue(rec: Record, f: string, term: string, matchAll: bool)
    requires f in rec && rec[f] == Str("Jos\U{00E9}") && term == " JOSE "
    ensures Keeps(rec, [term], matchAll)
  {
    JoseContained(term, Text(rec[f]));
    assert TermMatches(rec, term);
    KeepsOneTerm(rec, term, matchAll);
  }

  lemma JoseContained(term: string, value: string)
    requires term == " JOSE " && value == "Jos\U{00E9}"
    ensures Contains(Normalise(value), Normalise(term))
  {
    JoseExample(term, value);
    var v := Normalise(value);
    assert v <= v;
  }

  /** Term lists that normalise alike keep the same records. */
  lemma KeepsAlike(rec: Record, t1: seq<string>, t2: seq<string>, matchAll: bool)
    requires |t1| == |t2| && forall i :: 0 <= i < |t1| ==> Normalise(t1[i]) == Normalise(t2[i])
    ensures Keeps(rec, t1, matchAll) == Keeps(rec, t2, matchAll)
  {
    forall i | 0 <= i < |t1| ensures TermMatches(rec, t1[i]) == TermMatches(rec, t2[i]) {
    }
    if !matchAll {
      SomeTermAlike(rec, t1, t2);
      SomeTermAlike(rec, t2, t1);
    }
  }

  /** In OR mode a term of `t1` that matches has its counterpart in `t2`. */
  lemma SomeTermAlike(rec: Record, t1: seq<string>, t2: seq<string>)
    requires |t1| == |t2| && forall i :: 0 <= i < |t1| ==> TermMatches(rec, t1[i]) == TermMatches(rec, t2[i])
    ensures Keeps(rec, t1, false) ==> Keeps(rec, t2, false)
  {
    if Keeps(rec, t1, false) {
      var i :| 0 <= i < |t1| && TermMatches(rec, t1[i]);
      assert TermMatches(rec, t2[i]);
    }
  }

  /** A query of one blank term keeps, in either mode, exactly the
      records that have a non-object value. */
  lemma SingleBlankTerm(sorted: seq<Record>, term: string, matchAll: bool)
    requires Normalise(term) == ""
    ensures Select(sorted, Passes([term], matchAll)) == WithSearchableValue(sorted)
  {
    forall x | x in sorted
      ensures Passes([term], matchAll)(x) == HasSearchableValue(x)
    {
      BlankTermMatches(x, term);
      KeepsOneTerm(x, term, matchAll);
    }
    SelectSame(sorted, Passes([term], matchAll), (rec: Record) => HasSearchableValue(rec));
  }

  /** An empty query splits to one empty term, so in either mode it keeps
      exactly the records that have a non-object value. */
  lemma EmptyQuery(sorted: seq<Record>, doIncludeAll: bool)
    ensures FilteredUsers(sorted, "", doIncludeAll) == WithSearchableValue(sorted)
  {
    assert Split("", ',') == [""];
    NormaliseEmpty();
    SingleBlankTerm(sorted, "", doIncludeAll);
  }

  /** In OR mode a blank term (a trailing comma, say) does the same: every
      record with a non-object value is kept. */
  lemma OrWithBlankTerm(sorted: seq<Record>, query: string, k: int)
    requires 0 <= k < |Split(query, ',')| && Normalise(Split(query, ',')[k]) == ""
    ensures FilteredUsers(sorted, query, false) == WithSearchableValue(sorted)
  {
    var terms := Split(query, ',');
    forall x | x in sorted
      ensures Passes(terms, false)(x) == HasSearchableValue(x)
    {
      BlankTermMatches(x, terms[k]);
      if Keeps(x, terms, false) {
        var i :| 0 <= i < |terms| && TermMatches(x, terms[i]);
      }
    }
    SelectSame(sorted, Passes(terms, false), (rec: Record) => HasSearchableValue(rec));
  }

  /** Terms are compared only through their normal forms: two queries whose
      terms normalise alike filter alike. */
  lemma SameNormalFormsFilterAlike(sorted: seq<Record>, q1: string, q2: string, doIncludeAll: bool)
    requires |Split(q1, ',')| == |Split(q2, ',')|
    requires forall i :: 0 <= i < |Split(q1, ',')| ==> Normalise(Split(q1, ',')[i]) == Normalise(Split(q2, ',')[i])
    ensures FilteredUsers(sorted, q1, doIncludeAll) == FilteredUsers(sorted, q2, doIncludeAll)
  {
    var t1, t2 := Split(q1, ','), Split(q2, ',');
    forall x | x in sorted ensures Passes(t1, doIncludeAll)(x) == Passes(t2, doIncludeAll)(x) {
      KeepsAlike(x, t1, t2, doIncludeAll);
    }
    SelectSame(sorted, Passes(t1, doIncludeAll), Passes(t2, doIncludeAll));
  }
}
