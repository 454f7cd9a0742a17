/**
  Pre-selected ("filtered") mode of the inventory table (src/components/Tables/DataTable.tsx:117-128):
  the rows shown are one page of the department-sorted copy of the set handed down by the
  parent, and the total is the size of that set. No listing request is made in this mode.
 */
module Paging {
  import opened Computers
  import opened Ordering

  function Min(a: nat, b: nat): nat {
    if a <= b then a else b
  }

  /** `s.slice(start, end)` for non-negative bounds: both are clamped to the length. */
  function Slice<T>(s: seq<T>, start: nat, end: nat): (r: seq<T>)
    ensures |r| == if Min(start, |s|) < Min(end, |s|) then Min(end, |s|) - start else 0
    ensures forall i :: 0 <= i < |r| ==> start + i < |s| && r[i] == s[start + i]
  {
    var lo := Min(start, |s|);
    var hi := Min(end, |s|);
    if lo < hi then s[lo..hi] else []
  }

  /** What the table shows: the current page of rows and the record count of the paginator. */
  datatype View = View(rows: seq<Computer>, total: nat)

  /** The index of the first row of the page holding row `first`. */
  function PageStart(first: nat, rows: nat): nat
    requires rows > 0
  {
    (first / rows) * rows
  }

  function PreselectedView(checked: seq<Computer>, first: nat, rows: nat, localeLe: (string, string) -> bool): (v: View)
    requires rows > 0
    ensures v.total == |checked|
    ensures checked == [] ==> v.rows == []
    ensures |v.rows| == if PageStart(first, rows) < |checked| then Min(rows, |checked| - PageStart(first, rows)) else 0
    ensures forall i :: 0 <= i < |v.rows| ==>
      PageStart(first, rows) + i < |checked| &&
      v.rows[i] == SortByDepartment(checked, localeLe)[PageStart(first, rows) + i]
  {
    var page := first / rows;
    assert (page + 1) * rows == page * rows + rows;
    if |checked| > 0 then
      View(Slice(SortByDepartment(checked, localeLe), page * rows, (page + 1) * rows), |checked|)
    else
      View([], 0)
  }

  /** Every row of the sorted set is shown, at position `j % rows`, whenever the paginator's
      offset lies on the page that contains it. */
  lemma RowOnItsPage(checked: seq<Computer>, first: nat, rows: nat, localeLe: (string, string) -> bool, j: nat)
    requires rows > 0
    requires j < |checked| && first / rows == j / rows
    ensures var v := PreselectedView(checked, first, rows, localeLe);
      j % rows < |v.rows| && v.rows[j % rows] == SortByDepartment(checked, localeLe)[j]
  {
    assert PageStart(first, rows) + j % rows == j;
  }
}
