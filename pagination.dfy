/**
 * The pagination aggregator: pages 0, 1, 2, ... of the activities endpoint
 * are requested in turn and concatenated, until a page comes back empty.
 * A page source is the function from page index to response; it stands for
 * the activities request with everything but the page index fixed.
 */
module Pagination {
  import opened Wrappers
  import opened Api

  /** A response after which no further page is requested. */
  predicate Ends(r: PageResponse) {
    r.RequestFailed? || r.activities == []
  }

  /** The server eventually answers with an empty page (or a request fails). */
  ghost predicate Terminates(source: nat -> PageResponse) {
    exists n: nat :: Ends(source(n))
  }

  /** The first ending page at or after `k`, searching no further than `bound`. */
  function FirstEndFrom(source: nat -> PageResponse, k: nat, bound: nat): (n: nat)
    requires k <= bound && Ends(source(bound))
    ensures k <= n <= bound && Ends(source(n))
    ensures forall m: nat :: k <= m < n ==> !Ends(source(m))
    decreases bound - k
  {
    if Ends(source(k)) then k else FirstEndFrom(source, k + 1, bound)
  }

  /** The index of the first ending page: the last page the aggregator requests. */
  ghost function FirstEnd(source: nat -> PageResponse): (n: nat)
    requires Terminates(source)
    ensures Ends(source(n))
    ensures forall m: nat :: m < n ==> !Ends(source(m))
  {
    var bound: nat :| Ends(source(bound));
    FirstEndFrom(source, 0, bound)
  }

  /** The records of a response; a failed request contributes none. */
  function Items(r: PageResponse): seq<Activity> {
    if r.Activities? then r.activities else []
  }

  /** The records of pages 0 .. n-1, concatenated in page order. */
  function Collected(source: nat -> PageResponse, n: nat): seq<Activity> {
    if n == 0 then [] else Collected(source, n - 1) + Items(source(n - 1))
  }

  /** The number of records on pages 0 .. n-1. */
  function RecordsBefore(source: nat -> PageResponse, n: nat): nat {
    if n == 0 then 0 else RecordsBefore(source, n - 1) + |Items(source(n - 1))|
  }

  /**
   * What `paginateImages` resolves to: the concatenation of every page up to
   * and including the first empty one, or the error of the first failed request.
   */
  ghost function Paginated(source: nat -> PageResponse): (r: Result<seq<Activity>, Failure>)
    requires Terminates(source)
    ensures r.Err? <==> source(FirstEnd(source)).RequestFailed?
    ensures r.Err? ==> r.error == RequestError(FirstEnd(source))
    ensures r.Ok? ==> |r.value| == RecordsBefore(source, FirstEnd(source))
  {
    var last := FirstEnd(source);
    CollectedLength(source, last + 1);
    if source(last).RequestFailed? then Err(RequestError(last)) else Ok(Collected(source, last + 1))
  }

  /** The aggregate holds exactly as many records as the pages consumed: nothing is dropped or merged. */
  lemma {:induction false} CollectedLength(source: nat -> PageResponse, n: nat)
    ensures |Collected(source, n)| == RecordsBefore(source, n)
  {
    if n > 0 {
      CollectedLength(source, n - 1);
    }
  }

  /** Page p occupies its own contiguous slice of the aggregate, after the pages before it. */
  lemma {:induction false} CollectedPage(source: nat -> PageResponse, n: nat, p: nat)
    requires p < n
    ensures RecordsBefore(source, p + 1) <= |Collected(source, n)|
    ensures Collected(source, n)[RecordsBefore(source, p)..RecordsBefore(source, p + 1)] == Items(source(p))
  {
    CollectedLength(source, n);
    CollectedLength(source, n - 1);
    var a, b := RecordsBefore(source, p), RecordsBefore(source, p + 1);
    var c := Collected(source, n - 1);
    assert Collected(source, n) == c + Items(source(n - 1));
    if p < n - 1 {
      CollectedPage(source, n - 1, p);
      RecordsMonotone(source, p + 1, n - 1);
      assert (c + Items(source(n - 1)))[a..b] == c[a..b];
    } else {
      assert a == |c| && b == |c| + |Items(source(p))|;
      assert (c + Items(source(p)))[a..b] == Items(source(p));
    }
  }

  lemma {:induction false} RecordsMonotone(source: nat -> PageResponse, m: nat, n: nat)
    requires m <= n
    ensures RecordsBefore(source, m) <= RecordsBefore(source, n)
  {
    if m < n {
      RecordsMonotone(source, m, n - 1);
    }
  }

  /** The aggregate depends on pages 0 .. n-1 only. */
  lemma {:induction false} CollectedAgree(s1: nat -> PageResponse, s2: nat -> PageResponse, n: nat)
    requires forall m: nat :: m < n ==> s1(m) == s2(m)
    ensures Collected(s1, n) == Collected(s2, n)
  {
    if n > 0 {
      CollectedAgree(s1, s2, n - 1);
    }
  }

  /** Nothing after the first empty page is requested: sources that agree up to it paginate alike. */
  lemma PaginatedIgnoresLaterPages(s1: nat -> PageResponse, s2: nat -> PageResponse)
    requires Terminates(s1)
    requires forall m: nat :: m <= FirstEnd(s1) ==> s1(m) == s2(m)
    ensures Terminates(s2) && FirstEnd(s2) == FirstEnd(s1)
    ensures Paginated(s2) == Paginated(s1)
  {
    var n := FirstEnd(s1);
    assert Ends(s2(n));
    forall m: nat | m < n
      ensures !Ends(s2(m))
    {
      assert s1(m) == s2(m);
    }
    CollectedAgree(s1, s2, n + 1);
  }

  /** The request is a do-while: page 0 is always requested, and an empty page 0 gives no records. */
  lemma EmptyFirstPage(source: nat -> PageResponse)
    requires source(0) == Activities([])
    ensures Terminates(source) && FirstEnd(source) == 0
    ensures Paginated(source) == Ok([])
  {
    assert Ends(source(0));
    assert Collected(source, 1) == [];
  }

  /**
   * A successful aggregate is made of non-empty pages 0 .. FirstEnd-1 followed by one empty page;
   * its length is the sum of their sizes.
   */
  lemma PaginatedOk(source: nat -> PageResponse)
    requires Terminates(source) && Paginated(source).Ok?
    ensures forall m: nat :: m < FirstEnd(source) ==> source(m).Activities? && source(m).activities != []
    ensures source(FirstEnd(source)) == Activities([])
    ensures |Paginated(source).value| == RecordsBefore(source, FirstEnd(source))
  {
    var n := FirstEnd(source);
    CollectedLength(source, n + 1);
  }

  /** Pages of sizes 200, 47 and 0: 247 records from three requests. */
  lemma TwoPagesThenEmpty(source: nat -> PageResponse)
    requires source(0).Activities? && |source(0).activities| == 200
    requires source(1).Activities? && |source(1).activities| == 47
    requires source(2) == Activities([])
    ensures Terminates(source) && FirstEnd(source) + 1 == 3
    ensures Paginated(source).Ok? && |Paginated(source).value| == 247
  {
  }
}
