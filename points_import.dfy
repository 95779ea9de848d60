/** The correction-points import worker. For every student it loads the ids
    of the point transactions already stored, chooses how to ask the API for
    the student's history, and hands each transaction the API returns to a
    callback. The callback stores transactions it has not seen and keeps a
    budget: an unseen transaction refills it, a known one spends one unit,
    and the callback answers whether any budget is left (the API helper
    stops early on `false` when asked to). The budget and the stored ids
    are module globals, modelled as the fields of one importer object; the
    database and the API become inputs and logs. */
module PointsImport {
  import opened Selection

  /** One correction-point transaction as the API returns it. */
  datatype Transaction = Transaction(id: int, reason: string, sum: int, total: int, createdAt: string, updatedAt: string)

  /** One row inserted into `points_transactions`. */
  datatype PointRow = PointRow(id: int, userId: int, reason: string, sum: int, total: int, createdAt: string, updatedAt: string)

  /** A student selected for checking. */
  datatype Student = Student(id: int, login: string)

  /** What the worker knows about one student: the ids already stored for
      them, and the transactions the API hands to the callback. */
  datatype Check = Check(student: Student, local: seq<int>, feed: seq<Transaction>)

  /** One request to the API helper: the path, the page to start at, and
      whether the callback's answer may stop the paging. */
  datatype ApiCall = ApiCall(path: string, nultiple: int, callbackLimit: bool)

  /** The initial value of both budget globals. */
  const InitialLimit := 50

  /** The row stored for a transaction: its six fields, and the student's id
      given to the callback. */
  function RowFor(t: Transaction, userId: int): PointRow
  {
    PointRow(t.id, userId, t.reason, t.sum, t.total, t.createdAt, t.updatedAt)
  }

  // ---------------------------------------------------------------------
  // The callback's budget and inserts, as functions of what it was given.
  // ---------------------------------------------------------------------

  /** The budget after one callback: refilled to `checker` for an unseen
      id, one less for a known one. */
  function NextLimit(limit: int, checker: int, local: seq<int>, id: int): int
  {
    if id !in local then checker else limit - 1
  }

  /** The budget after the callback has seen `feed`, in order. */
  function LimitAfter(limit: int, checker: int, local: seq<int>, feed: seq<Transaction>): int
    decreases |feed|
  {
    if feed == [] then limit
    else NextLimit(LimitAfter(limit, checker, local, feed[..|feed| - 1]), checker, local, feed[|feed| - 1].id)
  }

  /** The rows the callback inserts while seeing `feed`. */
  function NewRows(local: seq<int>, userId: int, feed: seq<Transaction>): seq<PointRow>
    decreases |feed|
  {
    if feed == [] then []
    else
      var t := feed[|feed| - 1];
      NewRows(local, userId, feed[..|feed| - 1]) + (if t.id !in local then [RowFor(t, userId)] else [])
  }

  /** All ids of `feed` are among the stored ones. */
  predicate AllKnown(local: seq<int>, feed: seq<Transaction>)
  {
    forall i :: 0 <= i < |feed| ==> feed[i].id in local
  }

  /** After a run of known ids the budget has dropped by one per id. */
  lemma {:induction false} KnownRunSpends(limit: int, checker: int, local: seq<int>, feed: seq<Transaction>)
    requires AllKnown(local, feed)
    ensures LimitAfter(limit, checker, local, feed) == limit - |feed|
    decreases |feed|
  {
    if feed != [] {
      var init := feed[..|feed| - 1];
      assert AllKnown(local, init) by {
        forall i | 0 <= i < |init| ensures init[i].id in local {
          assert init[i] == feed[i];
        }
      }
      KnownRunSpends(limit, checker, local, init);
    }
  }

  /** The budget after any feed: `checker` less the known ids after the last
      unseen one, or the starting budget less every id when all are known. */
  lemma {:induction false} LimitAfterUnseen(limit: int, checker: int, local: seq<int>, feed: seq<Transaction>, j: int)
    requires 0 <= j < |feed| && feed[j].id !in local && AllKnown(local, feed[j + 1..])
    ensures LimitAfter(limit, checker, local, feed) == checker - (|feed| - 1 - j)
    decreases |feed|
  {
    var init := feed[..|feed| - 1];
    if j == |feed| - 1 {
    } else {
      assert init[j] == feed[j];
      var rest := init[j + 1..];
      assert AllKnown(local, rest) by {
        forall i | 0 <= i < |rest| ensures rest[i].id in local {
          assert rest[i] == feed[j + 1..][i];
        }
      }
      assert feed[|feed| - 1] == feed[j + 1..][|feed| - 2 - j];
      LimitAfterUnseen(limit, checker, local, init, j);
    }
  }

  /** From a budget `c > 0`, a run of known ids makes the callback answer
      `true` for the first `c - 1` of them and `false` from the `c`-th on. */
  lemma KnownRunStops(c: int, checker: int, local: seq<int>, feed: seq<Transaction>, k: int)
    requires c > 0 && AllKnown(local, feed) && 1 <= k <= |feed|
    ensures LimitAfter(c, checker, local, feed[..k]) > 0 <==> k < c
  {
    assert AllKnown(local, feed[..k]) by {
      forall i | 0 <= i < k ensures feed[..k][i].id in local {
        assert feed[..k][i] == feed[i];
      }
    }
    KnownRunSpends(c, checker, local, feed[..k]);
  }

  /** An unseen id refills the budget whatever it was before it. */
  lemma UnseenRestores(limit: int, checker: int, local: seq<int>, feed: seq<Transaction>)
    requires feed != [] && feed[|feed| - 1].id !in local
    ensures LimitAfter(limit, checker, local, feed) == checker
  {
  }

  /** The callback never adds to the stored ids, so every transaction of a
      feed of unseen ids is inserted, a repeated one as often as it comes. */
  lemma {:induction false} UnseenAllInserted(local: seq<int>, userId: int, feed: seq<Transaction>)
    requires forall i :: 0 <= i < |feed| ==> feed[i].id !in local
    ensures |NewRows(local, userId, feed)| == |feed|
    ensures forall i :: 0 <= i < |feed| ==> NewRows(local, userId, feed)[i] == RowFor(feed[i], userId)
    decreases |feed|
  {
    if feed != [] {
      var init := feed[..|feed| - 1];
      UnseenAllInserted(local, userId, init);
    }
  }

  /** Seeing the same unseen transaction twice inserts it twice. */
  lemma SeenTwiceInsertedTwice(local: seq<int>, userId: int, t: Transaction)
    requires t.id !in local
    ensures NewRows(local, userId, [t, t]) == [RowFor(t, userId), RowFor(t, userId)]
  {
    UnseenAllInserted(local, userId, [t, t]);
  }

  /** A feed of known ids inserts nothing. */
  lemma {:induction false} KnownNothingInserted(local: seq<int>, userId: int, feed: seq<Transaction>)
    requires AllKnown(local, feed)
    ensures NewRows(local, userId, feed) == []
    decreases |feed|
  {
    if feed != [] {
      var init := feed[..|feed| - 1];
      assert AllKnown(local, init) by {
        forall i | 0 <= i < |init| ensures init[i].id in local {
          assert init[i] == feed[i];
        }
      }
      KnownNothingInserted(local, userId, init);
    }
  }

  // ---------------------------------------------------------------------
  // The worker's loop over the students, as functions of its inputs.
  // ---------------------------------------------------------------------

  /** The `update_all` flag once the first `n` students have been visited:
      set from the start, or set by a student with no stored transaction. */
  function UpdateAllAfter(updateAll: bool, checks: seq<Check>, n: nat): bool
    requires n <= |checks|
  {
    if n == 0 then updateAll
    else UpdateAllAfter(updateAll, checks, n - 1) || |checks[n - 1].local| == 0
  }

  /** The flag is sticky: it is set after `n` students exactly when it was
      set from the start or one of them had nothing stored. */
  lemma {:induction false} UpdateAllSticky(updateAll: bool, checks: seq<Check>, n: nat)
    requires n <= |checks|
    ensures UpdateAllAfter(updateAll, checks, n) <==>
      updateAll || exists j :: 0 <= j < n && |checks[j].local| == 0
  {
    if n > 0 {
      UpdateAllSticky(updateAll, checks, n - 1);
    }
  }

  /** Once set, the flag stays set for every later student. */
  lemma UpdateAllStaysSet(updateAll: bool, checks: seq<Check>, k: nat, l: nat)
    requires k <= l <= |checks| && UpdateAllAfter(updateAll, checks, k)
    ensures UpdateAllAfter(updateAll, checks, l)
  {
    UpdateAllSticky(updateAll, checks, k);
    UpdateAllSticky(updateAll, checks, l);
  }

  /** The history path of a student's correction points. */
  function HistoryPath(login: string): string
  {
    "/v2/users/" + login + "/correction_point_historics"
  }

  /** The request for one student: the whole history oldest first from page
      `startAt`, never stopped by the callback, when the flag is set; the
      newest transactions first from page 1, stopped by the callback,
      otherwise. */
  function CallFor(updateAll: bool, startAt: int, login: string): ApiCall
  {
    if updateAll then ApiCall(HistoryPath(login) + "?sort=id", startAt, false)
    else ApiCall(HistoryPath(login) + "?sort=-id", 1, true)
  }

  /** The requests made for the first `n` students. */
  function Calls(updateAll: bool, startAt: int, checks: seq<Check>, n: nat): (r: seq<ApiCall>)
    requires n <= |checks|
    ensures |r| == n
  {
    if n == 0 then []
    else
      Calls(updateAll, startAt, checks, n - 1) +
      [CallFor(UpdateAllAfter(updateAll, checks, n), startAt, checks[n - 1].student.login)]
  }

  /** One request per student, in order, made with the flag as it stands
      after that student's stored ids were looked at. */
  lemma {:induction false} CallsPerStudent(updateAll: bool, startAt: int, checks: seq<Check>, n: nat)
    requires n <= |checks|
    ensures forall k :: 0 <= k < n ==>
      Calls(updateAll, startAt, checks, n)[k] == CallFor(UpdateAllAfter(updateAll, checks, k + 1), startAt, checks[k].student.login)
  {
    if n > 0 {
      CallsPerStudent(updateAll, startAt, checks, n - 1);
    }
  }

  /** With the flag set from the start every student's history is read in
      full; once a student with nothing stored is met, every later student
      is read in full too. */
  lemma FullReadsAfterEmpty(updateAll: bool, startAt: int, checks: seq<Check>, j: nat, k: nat)
    requires j <= k < |checks| && (updateAll || |checks[j].local| == 0)
    ensures Calls(updateAll, startAt, checks, |checks|)[k] ==
      ApiCall(HistoryPath(checks[k].student.login) + "?sort=id", startAt, false)
  {
    CallsPerStudent(updateAll, startAt, checks, |checks|);
    UpdateAllSticky(updateAll, checks, k + 1);
  }

  /** Without the flag given, every student up to the first one with
      nothing stored is read newest first from page 1, and the callback's
      answer may stop the read. */
  lemma PartialReadsBeforeEmpty(updateAll: bool, startAt: int, checks: seq<Check>, k: nat)
    requires !updateAll && k < |checks| && forall j :: 0 <= j <= k ==> |checks[j].local| > 0
    ensures Calls(updateAll, startAt, checks, |checks|)[k] ==
      ApiCall(HistoryPath(checks[k].student.login) + "?sort=-id", 1, true)
  {
    CallsPerStudent(updateAll, startAt, checks, |checks|);
    UpdateAllSticky(updateAll, checks, k + 1);
  }

  /** The rows inserted for the first `n` students. */
  function RowsFor(checks: seq<Check>, n: nat): seq<PointRow>
    requires n <= |checks|
  {
    if n == 0 then []
    else
      var c := checks[n - 1];
      RowsFor(checks, n - 1) + NewRows(c.local, c.student.id, c.feed)
  }

  /** The budget after the first `n` students: it is never reset between
      them. */
  function LimitAcross(limit: int, checker: int, checks: seq<Check>, n: nat): int
    requires n <= |checks|
  {
    if n == 0 then limit
    else
      var c := checks[n - 1];
      LimitAfter(LimitAcross(limit, checker, checks, n - 1), checker, c.local, c.feed)
  }

  /** The number of transactions handed to the callback for the first `n`
      students. */
  function FeedTotal(checks: seq<Check>, n: nat): nat
    requires n <= |checks|
  {
    if n == 0 then 0 else FeedTotal(checks, n - 1) + |checks[n - 1].feed|
  }

  /** The budget carries over: when every id the API returns is already
      stored, the budget after `n` students is the starting budget less the
      number of transactions seen, however many students there were. */
  lemma {:induction false} BudgetCarriesAcross(limit: int, checker: int, checks: seq<Check>, n: nat)
    requires n <= |checks|
    requires forall k :: 0 <= k < n ==> AllKnown(checks[k].local, checks[k].feed)
    ensures LimitAcross(limit, checker, checks, n) == limit - FeedTotal(checks, n)
  {
    if n > 0 {
      var c := checks[n - 1];
      BudgetCarriesAcross(limit, checker, checks, n - 1);
      KnownRunSpends(LimitAcross(limit, checker, checks, n - 1), checker, c.local, c.feed);
    }
  }

  /** When every id the API returns is already stored, no student's visit
      inserts a row. */
  lemma {:induction false} KnownStudentsInsertNothing(checks: seq<Check>, n: nat)
    requires n <= |checks|
    requires forall k :: 0 <= k < n ==> AllKnown(checks[k].local, checks[k].feed)
    ensures RowsFor(checks, n) == []
  {
    if n > 0 {
      var c := checks[n - 1];
      KnownStudentsInsertNothing(checks, n - 1);
      KnownNothingInserted(c.local, c.student.id, c.feed);
    }
  }

  // ---------------------------------------------------------------------
  // The worker's globals and its two procedures.
  // ---------------------------------------------------------------------

  /** How the callback's functions extend by one transaction. */
  lemma FeedStep(limit: int, checker: int, local: seq<int>, userId: int, feed: seq<Transaction>, j: int)
    requires 0 <= j < |feed|
    ensures LimitAfter(limit, checker, local, feed[..j + 1]) ==
      NextLimit(LimitAfter(limit, checker, local, feed[..j]), checker, local, feed[j].id)
    ensures NewRows(local, userId, feed[..j + 1]) ==
      NewRows(local, userId, feed[..j]) + (if feed[j].id !in local then [RowFor(feed[j], userId)] else [])
  {
    assert feed[..j + 1][..j] == feed[..j];
  }

  class PointsImporter {
    /** The ids stored for the student being checked. */
    var localPoints: seq<int>
    /** The budget of known transactions still allowed. */
    var currentLimit: int
    /** The budget an unseen transaction refills. */
    var limitChecker: int
    /** The rows sent to `points_transactions`, in order. */
    var inserted: seq<PointRow>
    /** The requests made to the API helper, in order. */
    var calls: seq<ApiCall>

    /** The budget globals as the script defines them, both at 50. The
        stored ids, which `import_points` binds before any callback runs,
        start empty, and nothing has been inserted or requested. */
    constructor()
      ensures localPoints == [] && currentLimit == InitialLimit && limitChecker == InitialLimit
      ensures inserted == [] && calls == []
    {
      localPoints := [];
      currentLimit := InitialLimit;
      limitChecker := InitialLimit;
      inserted := [];
      calls := [];
    }

    /** `user_points_callback`: an unseen transaction refills the budget and
        is inserted with the student's id; a known one spends one unit. The
        answer is whether budget is left. */
    method UserPointsCallback(transac: Transaction, userId: int, login: string) returns (more: bool)
      modifies this
      ensures transac.id !in old(localPoints) ==>
        currentLimit == old(limitChecker) && inserted == old(inserted) + [RowFor(transac, userId)]
      ensures transac.id in old(localPoints) ==>
        currentLimit == old(currentLimit) - 1 && inserted == old(inserted)
      ensures currentLimit == NextLimit(old(currentLimit), old(limitChecker), old(localPoints), transac.id)
      ensures more == (currentLimit > 0)
      ensures localPoints == old(localPoints) && limitChecker == old(limitChecker) && calls == old(calls)
    {
      if transac.id !in localPoints {
        currentLimit := limitChecker;
        var good := PointRow(transac.id, userId, transac.reason, transac.sum, transac.total,
                             transac.createdAt, transac.updatedAt);
        inserted := inserted + [good];
      } else {
        currentLimit := currentLimit - 1;
      }
      more := currentLimit > 0;
    }

    /** The API helper handing `feed` to the callback, one transaction at a
        time; `answers` are the callback's replies. */
    method Deliver(feed: seq<Transaction>, userId: int, login: string) returns (answers: seq<bool>)
      modifies this
      ensures currentLimit == LimitAfter(old(currentLimit), old(limitChecker), old(localPoints), feed)
      ensures inserted == old(inserted) + NewRows(old(localPoints), userId, feed)
      ensures |answers| == |feed|
      ensures forall k :: 0 <= k < |feed| ==>
        answers[k] == (LimitAfter(old(currentLimit), old(limitChecker), old(localPoints), feed[..k + 1]) > 0)
      ensures localPoints == old(localPoints) && limitChecker == old(limitChecker) && calls == old(calls)
    {
      answers := [];
      var j := 0;
      while j < |feed|
        invariant 0 <= j <= |feed|
        invariant localPoints == old(localPoints) && limitChecker == old(limitChecker) && calls == old(calls)
        invariant currentLimit == LimitAfter(old(currentLimit), limitChecker, localPoints, feed[..j])
        invariant inserted == old(inserted) + NewRows(localPoints, userId, feed[..j])
        invariant |answers| == j
        invariant forall k :: 0 <= k < j ==>
          answers[k] == (LimitAfter(old(currentLimit), limitChecker, localPoints, feed[..k + 1]) > 0)
      {
        FeedStep(old(currentLimit), limitChecker, localPoints, userId, feed, j);
        var more := UserPointsCallback(feed[j], userId, login);
        Associative(old(inserted), NewRows(localPoints, userId, feed[..j]),
                if feed[j].id !in localPoints then [RowFor(feed[j], userId)] else []);
        answers := answers + [more];
        j := j + 1;
      }
      assert feed[..|feed|] == feed;
    }

    /** One pass of `import_points`' loop: load the student's stored ids,
        set the flag when there are none, make the request the flag calls
        for and let the callback see what the API returns. */
    method CheckStudent(flag: bool, startAt: int, check: Check) returns (newFlag: bool)
      modifies this
      ensures newFlag == (flag || |check.local| == 0)
      ensures localPoints == check.local && limitChecker == old(limitChecker)
      ensures calls == old(calls) + [CallFor(newFlag, startAt, check.student.login)]
      ensures inserted == old(inserted) + NewRows(check.local, check.student.id, check.feed)
      ensures currentLimit == LimitAfter(old(currentLimit), old(limitChecker), check.local, check.feed)
    {
      newFlag := flag;
      localPoints := check.local;
      if |localPoints| == 0 {
        newFlag := true;
      }
      calls := calls + [CallFor(newFlag, startAt, check.student.login)];
      var _ := Deliver(check.feed, check.student.id, check.student.login);
    }

    /** `import_points`: every student in turn, the flag and the budget
        carried from one to the next. */
    method ImportPoints(updateAll: bool, startAt: int, checks: seq<Check>)
      modifies this
      ensures calls == old(calls) + Calls(updateAll, startAt, checks, |checks|)
      ensures inserted == old(inserted) + RowsFor(checks, |checks|)
      ensures currentLimit == LimitAcross(old(currentLimit), old(limitChecker), checks, |checks|)
      ensures limitChecker == old(limitChecker)
      ensures localPoints == if checks == [] then old(localPoints) else checks[|checks| - 1].local
    {
      var flag := updateAll;
      var i := 0;
      while i < |checks|
        invariant 0 <= i <= |checks|
        invariant flag == UpdateAllAfter(updateAll, checks, i)
        invariant calls == old(calls) + Calls(updateAll, startAt, checks, i)
        invariant inserted == old(inserted) + RowsFor(checks, i)
        invariant limitChecker == old(limitChecker)
        invariant currentLimit == LimitAcross(old(currentLimit), limitChecker, checks, i)
        invariant localPoints == if i == 0 then old(localPoints) else checks[i - 1].local
      {
        var c := checks[i];
        flag := CheckStudent(flag, startAt, c);
        Associative(old(calls), Calls(updateAll, startAt, checks, i), [CallFor(flag, startAt, c.student.login)]);
        Associative(old(inserted), RowsFor(checks, i), NewRows(c.local, c.student.id, c.feed));
        i := i + 1;
      }
    }
  }
}
