/** The "recent workouts" list under the calendar: five rows per page, a page counter clamped by
    the previous/next buttons, and the rows of the current page cut out with `Array.slice`. */
module Paging {
  /** `workoutsPerPage`. */
  const WorkoutsPerPage: nat := 5

  /** `Math.ceil(workoutDates.length / workoutsPerPage)`. */
  function PageCount(n: nat): (c: nat)
    ensures (c - 1) * WorkoutsPerPage < n <= c * WorkoutsPerPage || (n == 0 && c == 0)
    ensures n == 0 <==> c == 0
  {
    (n + WorkoutsPerPage - 1) / WorkoutsPerPage
  }

  /** The page controls are drawn only when `workoutDates.length > workoutsPerPage`. */
  predicate PaginationShown(n: nat) { n > WorkoutsPerPage }

  /** The "previous" button: `setCurrentPage((p) => Math.max(1, p - 1))`. */
  function PrevPage(p: int): int
  {
    if p - 1 > 1 then p - 1 else 1
  }

  /** The "next" button: `setCurrentPage((p) => Math.min(Math.ceil(n / 5), p + 1))`. */
  function NextPage(p: int, n: nat): int
  {
    if PageCount(n) < p + 1 then PageCount(n) else p + 1
  }

  /** `disabled={currentPage === 1}` on the "previous" button. */
  predicate PrevDisabled(p: int) { p == 1 }

  /** `disabled={currentPage === Math.ceil(n / 5)}` on the "next" button. */
  predicate NextDisabled(p: int, n: nat) { p == PageCount(n) }

  /** Resolves one bound of `Array.prototype.slice`: a negative bound counts from the end, and the
      result is clamped to `0..len`. */
  function SliceBound(b: int, len: nat): (r: nat)
    ensures r <= len
  {
    if b < 0 then (if len + b > 0 then len + b else 0)
    else if b > len then len
    else b
  }

  /** `s.slice(start, end)`: the entries between the two resolved bounds, empty when they cross. */
  function JsSlice<T>(s: seq<T>, start: int, end: int): seq<T>
  {
    var a, b := SliceBound(start, |s|), SliceBound(end, |s|);
    if a < b then s[a..b] else []
  }

  /** The rows listed on page `p`: `workoutDates.slice((p - 1) * 5, p * 5)`. */
  function PageItems<T>(rows: seq<T>, p: int): seq<T>
  {
    JsSlice(rows, (p - 1) * WorkoutsPerPage, p * WorkoutsPerPage)
  }

  /** Pages `p` to the last one, one after another. */
  function PagesFrom<T>(rows: seq<T>, p: nat): seq<T>
    requires 1 <= p
    decreases PageCount(|rows|) + 1 - p
  {
    if p > PageCount(|rows|) then [] else PageItems(rows, p) + PagesFrom(rows, p + 1)
  }

  // ---- Lemmas ----

  /** Starting from page 1 and pressing the two buttons in any order keeps the page in
      `1..ceil(n / 5)`, for every list that has at least one workout. */
  lemma ButtonsKeepPageInRange(p: int, n: nat)
    requires 1 <= n && 1 <= p <= PageCount(n)
    ensures 1 <= PrevPage(p) <= PageCount(n)
    ensures 1 <= NextPage(p, n) <= PageCount(n)
  {
  }

  /** The buttons move by exactly one page unless disabled, and a disabled button leaves the page
      unchanged. */
  lemma ButtonsStepByOne(p: int, n: nat)
    requires 1 <= p <= PageCount(n)
    ensures PrevDisabled(p) <==> PrevPage(p) == p
    ensures !PrevDisabled(p) ==> PrevPage(p) == p - 1
    ensures NextDisabled(p, n) <==> NextPage(p, n) == p
    ensures !NextDisabled(p, n) ==> NextPage(p, n) == p + 1
  {
  }

  /** When the controls are drawn there are at least two pages, so "next" is enabled on page 1. */
  lemma ShownControlsHaveTwoPages(n: nat)
    requires PaginationShown(n)
    ensures 2 <= PageCount(n)
    ensures !NextDisabled(1, n)
  {
  }

  /** Page `p` lists at most five rows, taken in list order from index `(p - 1) * 5`; a page in
      range is never empty and every page but the last is full. */
  lemma PageContents<T>(rows: seq<T>, p: int)
    requires 1 <= p
    ensures |PageItems(rows, p)| <= WorkoutsPerPage
    ensures forall k :: 0 <= k < |PageItems(rows, p)| ==>
      PageItems(rows, p)[k] == rows[(p - 1) * WorkoutsPerPage + k]
    ensures p <= PageCount(|rows|) ==> 1 <= |PageItems(rows, p)|
    ensures p < PageCount(|rows|) ==> |PageItems(rows, p)| == WorkoutsPerPage
    ensures p > PageCount(|rows|) ==> PageItems(rows, p) == []
  {
  }

  /** Read one after another, pages `p` onwards list exactly the rows from index `(p - 1) * 5`. */
  lemma {:induction false} PagesFromAreSuffix<T>(rows: seq<T>, p: nat)
    requires 1 <= p && (p - 1) * WorkoutsPerPage <= |rows|
    ensures PagesFrom(rows, p) == rows[(p - 1) * WorkoutsPerPage..]
    decreases PageCount(|rows|) + 1 - p
  {
    var start := (p - 1) * WorkoutsPerPage;
    if p > PageCount(|rows|) {
      assert start == |rows|;
    } else {
      PageContents(rows, p);
      if p * WorkoutsPerPage < |rows| {
        PagesFromAreSuffix(rows, p + 1);
        assert PageItems(rows, p) == rows[start..p * WorkoutsPerPage];
      } else {
        assert PagesFrom(rows, p + 1) == [];
        assert PageItems(rows, p) == rows[start..];
      }
    }
  }

  /** The pages together list every workout exactly once, in list order. */
  lemma PagesCoverAllRows<T>(rows: seq<T>)
    ensures PagesFrom(rows, 1) == rows
  {
    PagesFromAreSuffix(rows, 1);
  }
}
