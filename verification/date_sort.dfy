/** The date ordering of decoded distributions: the comparator subtracts
    the first record's parsed date from the second's, so later dates sort
    first.
    Date parsing is a parameter: `timeOf(text)` is the millisecond time the
    host's date parser gives, `None` when it gives NaN. */
module DateSort {
  import opened Types

  /** The host's date parser. */
  type TimeOf = string -> Option<int>

  /** The comparator's sign: negative puts `a` first, positive puts `b`
      first. A NaN difference counts as +0 (section 23.1.3.30.2 of
      ECMA-262, SortCompare), so an unparseable date ties with everything. */
  function Compare(a: Distribution, b: Distribution, timeOf: TimeOf): (c: int)
    ensures timeOf(a.date).Some? && timeOf(b.date).Some? ==>
      (c < 0 <==> timeOf(a.date).value > timeOf(b.date).value) &&
      (c > 0 <==> timeOf(a.date).value < timeOf(b.date).value)
    ensures timeOf(a.date).None? || timeOf(b.date).None? ==> c == 0
  {
    match (timeOf(a.date), timeOf(b.date))
    case (Some(ta), Some(tb)) => tb - ta
    case _ => 0
  }

  /** Every date in `ds` parses. */
  predicate AllDated(ds: seq<Distribution>, timeOf: TimeOf)
  {
    forall i :: 0 <= i < |ds| ==> timeOf(ds[i].date).Some?
  }

  /** Most recent first. */
  ghost predicate NewestFirst(ds: seq<Distribution>, timeOf: TimeOf)
    requires AllDated(ds, timeOf)
  {
    forall i, j :: 0 <= i < j < |ds| ==> timeOf(ds[i].date).value >= timeOf(ds[j].date).value
  }

  /** Inserts `x` before the first element it does not sort after. */
  function Insert(x: Distribution, ds: seq<Distribution>, timeOf: TimeOf): (r: seq<Distribution>)
    ensures multiset(r) == multiset(ds) + multiset{x}
  {
    if |ds| == 0 || Compare(x, ds[0], timeOf) <= 0 then
      [x] + ds
    else
      assert ds == [ds[0]] + ds[1..];
      [ds[0]] + Insert(x, ds[1..], timeOf)
  }

  /** Inserting a dated record into a newest-first sequence keeps it
      newest-first. */
  lemma {:induction false} InsertKeepsOrder(x: Distribution, ds: seq<Distribution>, timeOf: TimeOf)
    requires AllDated(ds, timeOf) && timeOf(x.date).Some? && NewestFirst(ds, timeOf)
    ensures AllDated(Insert(x, ds, timeOf), timeOf) && NewestFirst(Insert(x, ds, timeOf), timeOf)
  {
    if |ds| > 0 && Compare(x, ds[0], timeOf) > 0 {
      var tail := Insert(x, ds[1..], timeOf);
      InsertKeepsOrder(x, ds[1..], timeOf);
      assert ds == [ds[0]] + ds[1..];
      forall j | 0 <= j < |tail|
        ensures timeOf(ds[0].date).value >= timeOf(tail[j].date).value
      {
        assert tail[j] in multiset(tail);
        if tail[j] != x {
          assert tail[j] in multiset(ds[1..]);
          var k :| 0 <= k < |ds[1..]| && ds[1..][k] == tail[j];
          assert ds[k + 1] == tail[j];
        }
      }
    }
  }

  /** A stable insertion sort under `Compare`; ES2019 requires
      `Array.prototype.sort` to be stable. */
  function SortNewestFirst(ds: seq<Distribution>, timeOf: TimeOf): (r: seq<Distribution>)
    ensures multiset(r) == multiset(ds)
    ensures AllDated(ds, timeOf) ==> AllDated(r, timeOf) && NewestFirst(r, timeOf)
  {
    if |ds| == 0 then []
    else
      assert ds == [ds[0]] + ds[1..];
      var rest := SortNewestFirst(ds[1..], timeOf);
      if AllDated(ds, timeOf) then
        InsertKeepsOrder(ds[0], rest, timeOf);
        Insert(ds[0], rest, timeOf)
      else
        Insert(ds[0], rest, timeOf)
  }

  /** The elements whose date parses to time `t`, in order. */
  function WithTime(ds: seq<Distribution>, timeOf: TimeOf, t: int): (r: seq<Distribution>)
    ensures forall j :: 0 <= j < |r| ==> timeOf(r[j].date) == Some(t)
  {
    if |ds| == 0 then []
    else (if timeOf(ds[0].date) == Some(t) then [ds[0]] else []) + WithTime(ds[1..], timeOf, t)
  }

  lemma WithTimeCons(x: Distribution, ds: seq<Distribution>, timeOf: TimeOf, t: int)
    ensures WithTime([x] + ds, timeOf, t) ==
      (if timeOf(x.date) == Some(t) then [x] else []) + WithTime(ds, timeOf, t)
  {
    assert ([x] + ds)[0] == x && ([x] + ds)[1..] == ds;
  }

  /** Insertion puts a record ahead of every other record with its time. */
  lemma {:induction false} WithTimeInsert(x: Distribution, ds: seq<Distribution>, timeOf: TimeOf, t: int)
    ensures WithTime(Insert(x, ds, timeOf), timeOf, t) ==
      (if timeOf(x.date) == Some(t) then [x] else []) + WithTime(ds, timeOf, t)
  {
    if |ds| == 0 || Compare(x, ds[0], timeOf) <= 0 {
      WithTimeCons(x, ds, timeOf, t);
    } else {
      var tail := Insert(x, ds[1..], timeOf);
      var mx := if timeOf(x.date) == Some(t) then [x] else [];
      var h0 := if timeOf(ds[0].date) == Some(t) then [ds[0]] else [];
      WithTimeInsert(x, ds[1..], timeOf, t);
      assert Insert(x, ds, timeOf) == [ds[0]] + tail;
      WithTimeCons(ds[0], tail, timeOf, t);
      assert mx == [] || h0 == [];
      SwapAroundEmpty(h0, mx, WithTime(ds[1..], timeOf, t));
    }
  }

  /** Two blocks commute in front of a third when one of them is empty. */
  lemma SwapAroundEmpty<T>(a: seq<T>, b: seq<T>, c: seq<T>)
    requires a == [] || b == []
    ensures a + (b + c) == b + (a + c)
  {
  }

  /** Stability: records with the same time keep their relative order. */
  lemma {:induction false} SortIsStable(ds: seq<Distribution>, timeOf: TimeOf, t: int)
    ensures WithTime(SortNewestFirst(ds, timeOf), timeOf, t) == WithTime(ds, timeOf, t)
  {
    if |ds| > 0 {
      SortIsStable(ds[1..], timeOf, t);
      WithTimeInsert(ds[0], SortNewestFirst(ds[1..], timeOf), timeOf, t);
    }
  }
}
