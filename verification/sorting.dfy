/** The sort the ledger applies when it loads and saves: `Vec::sort` on
    `Ord for Transaction`, which is stable and compares dates only. The model
    is a stable insertion sort; records of the same day keep their relative
    order. */
module Sorting {
  import opened Wrappers
  import opened Dates
  import opened Transactions

  /** `a` may come before `b`: its date is not later. */
  predicate NotAfter(a: Transaction, b: Transaction) {
    TransactionCmp(a, b) != Greater
  }

  /** Non-decreasing dates. */
  predicate Sorted(s: seq<Transaction>) {
    forall i, j :: 0 <= i < j < |s| ==> NotAfter(s[i], s[j])
  }

  /** `NotAfter` is a total preorder. */
  lemma NotAfterPreorder(a: Transaction, b: Transaction, c: Transaction)
    ensures NotAfter(a, b) || NotAfter(b, a)
    ensures NotAfter(a, b) && NotAfter(b, c) ==> NotAfter(a, c)
    ensures TransactionCmp(a, b) != Less ==> NotAfter(b, a)
  {
    DateLeTotalPreorder(a.date, b.date, c.date);
  }

  /** Inserts `x` after every record of `s` whose date is not later than its
      own, so that among records of one day the newcomer comes last. */
  function Insert(x: Transaction, s: seq<Transaction>): (r: seq<Transaction>)
    ensures multiset(r) == multiset(s) + multiset{x}
    ensures |r| == |s| + 1
  {
    if |s| == 0 then [x]
    else if TransactionCmp(x, s[0]) == Less then [x] + s
    else
      assert s == [s[0]] + s[1..];
      [s[0]] + Insert(x, s[1..])
  }

  /** A record not after `x` and not after any record of `s` is not after
      any record of the insertion. */
  lemma {:induction false} InsertBounded(b: Transaction, x: Transaction, s: seq<Transaction>)
    requires NotAfter(b, x)
    requires forall k :: 0 <= k < |s| ==> NotAfter(b, s[k])
    ensures forall k :: 0 <= k < |Insert(x, s)| ==> NotAfter(b, Insert(x, s)[k])
    decreases |s|
  {
    if |s| > 0 && TransactionCmp(x, s[0]) != Less {
      InsertBounded(b, x, s[1..]);
      var r := Insert(x, s);
      assert r == [s[0]] + Insert(x, s[1..]);
      forall k | 0 <= k < |r| ensures NotAfter(b, r[k]) {
        if k > 0 { assert r[k] == Insert(x, s[1..])[k - 1]; }
      }
    }
  }

  /** A record not after any record of a sorted `s` can go in front of it. */
  lemma ConsSorted(b: Transaction, s: seq<Transaction>)
    requires Sorted(s)
    requires forall k :: 0 <= k < |s| ==> NotAfter(b, s[k])
    ensures Sorted([b] + s)
  {
    var r := [b] + s;
    forall i, j | 0 <= i < j < |r| ensures NotAfter(r[i], r[j]) {
      assert r[j] == s[j - 1];
      if i > 0 { assert r[i] == s[i - 1]; }
    }
  }

  /** Insertion keeps a sequence sorted. */
  lemma {:induction false} InsertSorted(x: Transaction, s: seq<Transaction>)
    requires Sorted(s)
    ensures Sorted(Insert(x, s))
    decreases |s|
  {
    if |s| > 0 {
      if TransactionCmp(x, s[0]) == Less {
        forall k | 0 <= k < |s| ensures NotAfter(x, s[k]) {
          NotAfterPreorder(x, s[0], s[k]);
        }
        ConsSorted(x, s);
      } else {
        NotAfterPreorder(x, s[0], x);
        assert Sorted(s[1..]);
        InsertSorted(x, s[1..]);
        InsertBounded(s[0], x, s[1..]);
        ConsSorted(s[0], Insert(x, s[1..]));
      }
    }
  }

  /** `self.transactions.sort()`: the records in non-decreasing date order. */
  function SortByDate(s: seq<Transaction>): (r: seq<Transaction>)
    ensures Sorted(r)
    ensures multiset(r) == multiset(s)
    ensures |r| == |s|
  {
    if |s| == 0 then []
    else
      assert s == s[..|s| - 1] + [s[|s| - 1]];
      InsertSorted(s[|s| - 1], SortByDate(s[..|s| - 1]));
      Insert(s[|s| - 1], SortByDate(s[..|s| - 1]))
  }

  // ---------------------------------------------------------------------------
  // Stability
  // ---------------------------------------------------------------------------

  /** The records of `s` dated on the same day as `d`, in order. */
  function SameDay(s: seq<Transaction>, d: SimpleDate): (r: seq<Transaction>)
    ensures |r| <= |s|
  {
    if |s| == 0 then []
    else
      var init := SameDay(s[..|s| - 1], d);
      if DateCmp(s[|s| - 1].date, d) == Equal then init + [s[|s| - 1]] else init
  }

  lemma {:induction false} SameDayAppend(a: seq<Transaction>, b: seq<Transaction>, d: SimpleDate)
    ensures SameDay(a + b, d) == SameDay(a, d) + SameDay(b, d)
    decreases |b|
  {
    if |b| == 0 {
      assert a + b == a;
    } else {
      assert (a + b)[..|a + b| - 1] == a + b[..|b| - 1];
      SameDayAppend(a, b[..|b| - 1], d);
    }
  }

  lemma SameDaySingle(x: Transaction, d: SimpleDate)
    ensures SameDay([x], d) == if DateCmp(x.date, d) == Equal then [x] else []
  {
    assert [x][..0] == [];
  }

  /** No record of `s` is dated on the day of `d`. */
  lemma {:induction false} SameDayNone(s: seq<Transaction>, d: SimpleDate)
    requires forall k :: 0 <= k < |s| ==> DateCmp(s[k].date, d) != Equal
    ensures SameDay(s, d) == []
    decreases |s|
  {
    if |s| > 0 {
      SameDayNone(s[..|s| - 1], d);
    }
  }

  /** Records of a sorted sequence that starts after `x` are all dated
      after the day of `x`. */
  lemma LaterDaysDiffer(x: Transaction, s: seq<Transaction>, d: SimpleDate)
    requires Sorted(s) && |s| > 0 && TransactionCmp(x, s[0]) == Less
    requires DateCmp(x.date, d) == Equal
    ensures forall k :: 0 <= k < |s| ==> DateCmp(s[k].date, d) != Equal
  {
    forall k | 0 <= k < |s| ensures DateCmp(s[k].date, d) != Equal {
      NotAfterPreorder(x, s[0], s[k]);
      DateLeTotalPreorder(s[k].date, x.date, d);
    }
  }

  /** Inserting `x` puts it behind every earlier record of its own day. */
  lemma {:induction false} InsertSameDay(x: Transaction, s: seq<Transaction>, d: SimpleDate)
    requires Sorted(s)
    ensures SameDay(Insert(x, s), d)
         == SameDay(s, d) + (if DateCmp(x.date, d) == Equal then [x] else [])
    decreases |s|
  {
    if |s| == 0 {
      SameDaySingle(x, d);
    } else if TransactionCmp(x, s[0]) == Less {
      InsertInFrontSameDay(x, s, d);
    } else {
      assert Sorted(s[1..]);
      InsertSameDay(x, s[1..], d);
      InsertBehindSameDay(x, s, d);
    }
  }

  /** When `x` goes in front of a sorted `s`, no record of `s` shares its day. */
  lemma {:induction false} InsertInFrontSameDay(x: Transaction, s: seq<Transaction>, d: SimpleDate)
    requires Sorted(s) && |s| > 0 && TransactionCmp(x, s[0]) == Less
    ensures SameDay([x] + s, d) == SameDay(s, d) + (if DateCmp(x.date, d) == Equal then [x] else [])
  {
    SameDayAppend([x], s, d);
    SameDaySingle(x, d);
    if DateCmp(x.date, d) == Equal {
      LaterDaysDiffer(x, s, d);
      SameDayNone(s, d);
    }
  }

  /** When `x` goes behind the first record, the first record's day filter
      is unaffected and the rest follows from the insertion into the tail. */
  lemma {:induction false} InsertBehindSameDay(x: Transaction, s: seq<Transaction>, d: SimpleDate)
    requires |s| > 0 && TransactionCmp(x, s[0]) != Less
    requires SameDay(Insert(x, s[1..]), d)
          == SameDay(s[1..], d) + (if DateCmp(x.date, d) == Equal then [x] else [])
    ensures SameDay(Insert(x, s), d)
         == SameDay(s, d) + (if DateCmp(x.date, d) == Equal then [x] else [])
  {
    assert Insert(x, s) == [s[0]] + Insert(x, s[1..]);
    assert s == [s[0]] + s[1..];
    SameDayCons(s[0], Insert(x, s[1..]), s[1..], if DateCmp(x.date, d) == Equal then [x] else [], d);
  }

  /** Putting the same record in front of two sequences keeps a relation
      between their day filters. */
  lemma SameDayCons(a: Transaction, u: seq<Transaction>, v: seq<Transaction>, extra: seq<Transaction>, d: SimpleDate)
    requires SameDay(u, d) == SameDay(v, d) + extra
    ensures SameDay([a] + u, d) == SameDay([a] + v, d) + extra
  {
    SameDayAppend([a], u, d);
    SameDayAppend([a], v, d);
  }

  /** The sort is stable: the records of any one day come out in the order
      they went in. */
  lemma {:induction false} SortByDateStable(s: seq<Transaction>, d: SimpleDate)
    ensures SameDay(SortByDate(s), d) == SameDay(s, d)
    decreases |s|
  {
    if |s| > 0 {
      var init := s[..|s| - 1];
      SortByDateStable(init, d);
      InsertSameDay(s[|s| - 1], SortByDate(init), d);
    }
  }

  // ---------------------------------------------------------------------------
  // Already-sorted input
  // ---------------------------------------------------------------------------

  lemma {:induction false} InsertLast(x: Transaction, s: seq<Transaction>)
    requires Sorted(s)
    requires forall k :: 0 <= k < |s| ==> NotAfter(s[k], x)
    ensures Insert(x, s) == s + [x]
    decreases |s|
  {
    if |s| > 0 {
      assert s == [s[0]] + s[1..];
      InsertLast(x, s[1..]);
    }
  }

  /** Sorting a sorted ledger changes nothing; in particular sorting twice is
      sorting once. */
  lemma {:induction false} SortSortedIsIdentity(s: seq<Transaction>)
    requires Sorted(s)
    ensures SortByDate(s) == s
    decreases |s|
  {
    if |s| > 0 {
      var init := s[..|s| - 1];
      SortSortedIsIdentity(init);
      InsertLast(s[|s| - 1], init);
      assert init + [s[|s| - 1]] == s;
    }
  }

  lemma SortIdempotent(s: seq<Transaction>)
    ensures SortByDate(SortByDate(s)) == SortByDate(s)
  {
    SortSortedIsIdentity(SortByDate(s));
  }
}
