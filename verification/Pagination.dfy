/** `Pagination` of gt_table.js: moving a window of rows over a table. */
module Pagination {
  import opened Division
  import opened Wrappers

  datatype Pages = Pages(startIndex: int, totalCount: int, rowsPerPage: int)

  predicate HasNext(p: Pages) {
    p.totalCount < 0 || p.startIndex + p.rowsPerPage < p.totalCount
  }

  predicate HasPrev(p: Pages) {
    p.totalCount == -1 || p.startIndex > 0
  }

  function Next(p: Pages): Pages {
    if HasNext(p) then p.(startIndex := p.startIndex + p.rowsPerPage) else p
  }

  function Prev(p: Pages): Pages {
    if HasPrev(p) then
      var start := p.startIndex - p.rowsPerPage;
      p.(startIndex := if start < 0 then 0 else start)
    else p
  }

  function First(p: Pages): Pages {
    p.(startIndex := 0)
  }

  function PageCount(p: Pages): int
    requires 0 < p.rowsPerPage
  {
    if p.totalCount <= 0 then p.totalCount
    else
      var pages := p.totalCount / p.rowsPerPage;
      if p.totalCount % p.rowsPerPage == 0 then pages else pages + 1
  }

  /** None where `turnToPage` throws. */
  function TurnTo(p: Pages, page: int): Option<Pages>
    requires 0 < p.rowsPerPage
  {
    if page < 0 || page >= PageCount(p) then None else Some(p.(startIndex := page * p.rowsPerPage))
  }

  function LastPage(p: Pages): int
    requires 0 < p.rowsPerPage && 0 <= p.totalCount
  {
    var mod := p.totalCount % p.rowsPerPage;
    if mod == 0 then p.totalCount - p.rowsPerPage else p.totalCount - mod
  }

  // ----------------------------------------------------------------- page numbers

  predicate Sized(p: Pages) {
    0 < p.totalCount && 0 < p.rowsPerPage
  }

  /** The window is page number `k`. */
  predicate OnPage(p: Pages, k: nat) {
    Sized(p) && k < PageCount(p) && p.startIndex == k * p.rowsPerPage
  }

  lemma Times(a: int, b: int, r: int)
    requires 0 < r
    ensures (a + 1) * r == a * r + r
    ensures a < b ==> a * r + r <= b * r
    ensures a <= b <==> a * r <= b * r
  {
    if a < b {
      assert b * r == a * r + r * (b - a);
    } else if b < a {
      assert a * r == b * r + r * (a - b);
    }
  }

  /** A page exists exactly when its first row does. */
  lemma PageExists(p: Pages, k: nat)
    requires Sized(p)
    ensures 1 <= PageCount(p)
    ensures k < PageCount(p) <==> k * p.rowsPerPage < p.totalCount
  {
    var n, r := p.totalCount, p.rowsPerPage;
    var q, m := n / r, n % r;
    assert n == r * q + m && r * q == q * r;
    Times(k, q, r);
    Times(q, k, r);
    if q == 0 {
      assert m == n;
    } else if q < 0 {
      Times(q, -1, r);
    }
  }

  /** The value of `lastPage` is the start of the last page. */
  lemma LastPageIsLast(p: Pages)
    requires Sized(p)
    ensures LastPage(p) == (PageCount(p) - 1) * p.rowsPerPage
  {
    var n, r := p.totalCount, p.rowsPerPage;
    assert n == r * (n / r) + n % r;
    Times(n / r - 1, n / r, r);
  }

  /** Moving on and back between pages. */
  lemma Moves(p: Pages, k: nat)
    requires OnPage(p, k)
    ensures HasNext(p) <==> k + 1 < PageCount(p)
    ensures HasNext(p) ==> OnPage(Next(p), k + 1) && Prev(Next(p)) == p
    ensures HasPrev(p) <==> 0 < k
    ensures OnPage(Prev(p), if k == 0 then 0 else k - 1)
    ensures OnPage(First(p), 0)
  {
    PageExists(p, k + 1);
    PageExists(p, 0);
    Times(k, k + 1, p.rowsPerPage);
    Times(0, k, p.rowsPerPage);
    if 0 < k {
      Times(k - 1, k, p.rowsPerPage);
      Times(0, k - 1, p.rowsPerPage);
    }
  }

  // ---------------------------------------------------------- from first to last

  function NextTimes(p: Pages, k: nat): Pages {
    if k == 0 then p else Next(NextTimes(p, k - 1))
  }

  /** From the first page, k steps reach page k as `turnToPage(k)` does, until the last page, where
      there is no next one and the start is the value of `lastPage`. */
  lemma {:induction false} SteppingReachesEveryPage(p: Pages, k: nat)
    requires Sized(p) && p.startIndex == 0 && k < PageCount(p)
    ensures OnPage(NextTimes(p, k), k)
    ensures TurnTo(p, k) == Some(NextTimes(p, k))
    ensures HasNext(NextTimes(p, k)) <==> k + 1 < PageCount(p)
    ensures k + 1 == PageCount(p) ==> NextTimes(p, k).startIndex == LastPage(p)
  {
    if k != 0 {
      SteppingReachesEveryPage(p, k - 1);
      Moves(NextTimes(p, k - 1), k - 1);
    }
    Moves(NextTimes(p, k), k);
    LastPageIsLast(p);
  }

  /** When the total is not known there is always a next page, one page on, and no page has a number. */
  lemma {:induction false} UnknownTotal(p: Pages, k: nat)
    requires 0 < p.rowsPerPage && p.totalCount < 0 && 0 <= p.startIndex
    ensures HasNext(p) && NextTimes(p, k) == p.(startIndex := p.startIndex + k * p.rowsPerPage)
    ensures p.startIndex <= NextTimes(p, k).startIndex && Prev(Next(p)) == p
    ensures (forall page :: TurnTo(p, page) == None) && (p.totalCount == -1 ==> HasPrev(p))
  {
    if k == 0 {
      assert 0 * p.rowsPerPage == 0;
    } else {
      UnknownTotal(p, k - 1);
      Times(k - 1, k, p.rowsPerPage);
    }
  }

  /** An empty table has no page, neither a next nor a previous one, and `lastPage` lies before its start. */
  lemma EmptyTable(p: Pages, page: int)
    requires 0 < p.rowsPerPage && p.totalCount == 0 && p.startIndex == 0
    ensures Next(p) == p && Prev(p) == p && TurnTo(p, page) == None && LastPage(p) == -p.rowsPerPage
  {
  }

  /** Row `x` lies in the window. */
  predicate Shows(p: Pages, x: int) {
    p.startIndex <= x < p.startIndex + p.rowsPerPage && x < p.totalCount
  }

  /** The windows partition the rows: each row is shown on exactly one page. */
  lemma EachRowOnOnePage(p: Pages, x: int)
    requires Sized(p) && 0 <= x < p.totalCount
    ensures var k := x / p.rowsPerPage;
            && 0 <= k < PageCount(p)
            && forall j: nat :: j < PageCount(p) ==>
                 (Shows(p.(startIndex := j * p.rowsPerPage), x) <==> j == k)
  {
    var r := p.rowsPerPage;
    var k := x / r;
    assert x == r * k + x % r && r * k == k * r;
    if k < 0 {
      Times(k, -1, r);
    }
    PageExists(p, k);
    forall j: nat | j < PageCount(p)
      ensures Shows(p.(startIndex := j * r), x) <==> j == k
    {
      Times(j, k, r);
      Times(k, j, r);
    }
  }

  // ------------------------------------------------------------------------ runs

  datatype Move = ToNext | ToPrev | ToFirst | ToPage(page: int)

  /** A throwing `turnToPage` changes nothing. */
  function Step(p: Pages, m: Move): Pages
    requires 0 < p.rowsPerPage
  {
    match m
    case ToNext => Next(p)
    case ToPrev => Prev(p)
    case ToFirst => First(p)
    case ToPage(page) => if TurnTo(p, page).Some? then TurnTo(p, page).value else p
  }

  function Run(p: Pages, moves: seq<Move>): (r: Pages)
    requires 0 < p.rowsPerPage
    ensures r.rowsPerPage == p.rowsPerPage && r.totalCount == p.totalCount
  {
    if moves == [] then p else Step(Run(p, moves[..|moves| - 1]), moves[|moves| - 1])
  }

  lemma StepStaysOnPages(p: Pages, k: nat, m: Move) returns (k': nat)
    requires OnPage(p, k)
    ensures OnPage(Step(p, m), k')
  {
    Moves(p, k);
    match m
    case ToNext => k' := if HasNext(p) then k + 1 else k;
    case ToPrev => k' := if k == 0 then 0 else k - 1;
    case ToFirst => k' := 0;
    case ToPage(page) => k' := if TurnTo(p, page).Some? then page else k;
  }

  /** Any run from the first page stays on whole pages inside the table. */
  lemma {:induction false} RunStaysOnPages(p: Pages, moves: seq<Move>) returns (k: nat)
    requires Sized(p) && p.startIndex == 0
    ensures OnPage(Run(p, moves), k)
    ensures 0 <= Run(p, moves).startIndex < p.totalCount && Run(p, moves).startIndex % p.rowsPerPage == 0
  {
    if moves == [] {
      k := 0;
      PageExists(p, 0);
    } else {
      var j := RunStaysOnPages(p, moves[..|moves| - 1]);
      k := StepStaysOnPages(Run(p, moves[..|moves| - 1]), j, moves[|moves| - 1]);
    }
    PageExists(Run(p, moves), k);
    Times(0, k, p.rowsPerPage);
    QuotientIsUnique(k * p.rowsPerPage, p.rowsPerPage, k, 0);
  }

  // -------------------------------------------------------------------- in place

  class Pagination {
    var startIndex: int
    var totalCount: int
    var rowsPerPage: int

    ghost function Value(): Pages
      reads this
    {
      Pages(startIndex, totalCount, rowsPerPage)
    }

    constructor (startIndex: int, totalCount: int, rowsPerPage: Option<int>)
      ensures Value() == Pages(startIndex, totalCount, if rowsPerPage.Some? then rowsPerPage.value else 20)
    {
      this.startIndex, this.totalCount := startIndex, totalCount;
      this.rowsPerPage := if rowsPerPage.Some? then rowsPerPage.value else 20;
    }

    method NextPage()
      modifies this`startIndex
      ensures Value() == Next(old(Value()))
    {
      if totalCount < 0 || startIndex + rowsPerPage < totalCount {
        startIndex := startIndex + rowsPerPage;
      }
    }

    method PrevPage()
      modifies this`startIndex
      ensures Value() == Prev(old(Value()))
    {
      if totalCount == -1 || startIndex > 0 {
        startIndex := startIndex - rowsPerPage;
        if startIndex < 0 {
          startIndex := 0;
        }
      }
    }

    method FirstPage()
      modifies this`startIndex
      ensures Value() == First(old(Value()))
    {
      startIndex := 0;
    }

    method TurnToPage(page: int) returns (ok: bool)
      requires 0 < rowsPerPage
      modifies this`startIndex
      ensures ok <==> TurnTo(old(Value()), page).Some?
      ensures Value() == Step(old(Value()), ToPage(page))
    {
      if page < 0 || page >= PageCount(Pages(startIndex, totalCount, rowsPerPage)) {
        return false;
      }
      startIndex := page * rowsPerPage;
      return true;
    }
  }
}
