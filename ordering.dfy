/**
  Department ordering of the inventory table (src/components/Tables/DataTable.tsx):
  `extractPrefix`, the comparator of the department option list and the comparator of
  `sortByDepartment`. A missing prefix is `None`, standing for `Number.POSITIVE_INFINITY`.
  `localeLe(a, b)` abstracts `a.localeCompare(b, undefined, {sensitivity: 'base'}) <= 0`.
 */
module Ordering {
  import opened Wrappers
  import opened Decimal
  import opened Sorting
  import opened Computers

  /** The maximal run of ASCII digits at the start of `s` (what `/^(\d+)/` captures). */
  function LeadingDigits(s: string): (d: string)
    ensures d <= s && AllDigits(d)
    ensures |d| == |s| || !IsDigit(s[|d|])
  {
    if s == [] || !IsDigit(s[0]) then [] else [s[0]] + LeadingDigits(s[1..])
  }

  /** `extractPrefix`: the number a name starts with, `None` (+infinity) when it starts with none. */
  function ExtractPrefix(s: string): (p: Option<nat>)
    ensures p.None? <==> (s == [] || !IsDigit(s[0]))
  {
    var d := LeadingDigits(s);
    if d == [] then None else Some(DigitsValue(d))
  }

  lemma {:induction false} LeadingDigitsOfSplit(d: string, rest: string)
    requires AllDigits(d)
    requires rest == [] || !IsDigit(rest[0])
    ensures LeadingDigits(d + rest) == d
  {
    if d != [] {
      assert (d + rest)[1..] == d[1..] + rest;
      LeadingDigitsOfSplit(d[1..], rest);
    } else {
      assert d + rest == rest;
    }
  }

  /** A name made of a non-empty digit run and a rest not starting with a digit has
      the value of that run as its prefix. */
  lemma ExtractPrefixOfSplit(d: string, rest: string)
    requires d != [] && AllDigits(d)
    requires rest == [] || !IsDigit(rest[0])
    ensures ExtractPrefix(d + rest) == Some(DigitsValue(d))
  {
    LeadingDigitsOfSplit(d, rest);
  }

  /** The numeral of `n`, followed by anything that does not start with a digit, has prefix `n`. */
  lemma PrefixOfNumeral(n: nat, rest: string)
    requires rest == [] || !IsDigit(rest[0])
    ensures ExtractPrefix(NatToString(n) + rest) == Some(n)
  {
    ExtractPrefixOfSplit(NatToString(n), rest);
    NatToStringRoundTrip(n);
  }

  /** `n1 - n2 < 0` where `None` is +infinity (only asked when `n1 !== n2`). */
  predicate PrefixBefore(a: Option<nat>, b: Option<nat>) {
    match (a, b)
    case (Some(x), Some(y)) => x < y
    case (Some(_), None) => true
    case (None, _) => false
  }

  /** Department names: by prefix, then by the locale comparison when prefixes are equal. */
  predicate DepartmentNameLe(a: string, b: string, localeLe: (string, string) -> bool) {
    var n1 := ExtractPrefix(a);
    var n2 := ExtractPrefix(b);
    if n1 == n2 then localeLe(a, b) else PrefixBefore(n1, n2)
  }

  lemma DepartmentNameLeTotal(localeLe: (string, string) -> bool, a: string, b: string)
    requires TotalPreorder(localeLe)
    ensures DepartmentNameLe(a, b, localeLe) || DepartmentNameLe(b, a, localeLe)
  {
  }

  lemma DepartmentNameLeTransitive(localeLe: (string, string) -> bool, a: string, b: string, c: string)
    requires TotalPreorder(localeLe)
    requires DepartmentNameLe(a, b, localeLe) && DepartmentNameLe(b, c, localeLe)
    ensures DepartmentNameLe(a, c, localeLe)
  {
  }

  /** "2-цех" sorts before "10-цех": prefixes compare as numbers, not as text. */
  lemma NumericPrefixOrder(localeLe: (string, string) -> bool)
    ensures DepartmentNameLe("2-цех", "10-цех", localeLe)
    ensures !DepartmentNameLe("10-цех", "2-цех", localeLe)
  {
    assert NatToString(2) == "2";
    assert NatToString(10) == "10";
    PrefixOfNumeral(2, "-цех");
    PrefixOfNumeral(10, "-цех");
    assert "2-цех" == NatToString(2) + "-цех";
    assert "10-цех" == NatToString(10) + "-цех";
  }

  /** A name without a numeric prefix comes after every name with one. */
  lemma NoPrefixLast(localeLe: (string, string) -> bool, a: string, b: string)
    requires ExtractPrefix(a).Some? && ExtractPrefix(b).None?
    ensures DepartmentNameLe(a, b, localeLe) && !DepartmentNameLe(b, a, localeLe)
  {
  }

  // ---- The department option list (`sortedDepartments`) ----

  function DepartmentOrder(localeLe: (string, string) -> bool): (Department, Department) -> bool {
    (a: Department, b: Department) => DepartmentNameLe(a.name, b.name, localeLe)
  }

  lemma DepartmentOrderIsPreorder(localeLe: (string, string) -> bool)
    requires TotalPreorder(localeLe)
    ensures TotalPreorder(DepartmentOrder(localeLe))
  {
    var le := DepartmentOrder(localeLe);
    forall a: Department, b: Department ensures le(a, b) || le(b, a) {
      DepartmentNameLeTotal(localeLe, a.name, b.name);
    }
    forall a: Department, b: Department, c: Department | le(a, b) && le(b, c) ensures le(a, c) {
      DepartmentNameLeTransitive(localeLe, a.name, b.name, c.name);
    }
  }

  /** `filterOptions.departments.slice().sort(...)`: a sorted copy of the catalog list. */
  function SortedDepartments(departments: seq<Department>, localeLe: (string, string) -> bool): (r: seq<Department>)
    ensures multiset(r) == multiset(departments)
  {
    Sort(departments, DepartmentOrder(localeLe))
  }

  /** Ascending by prefix (none = last) and, within one prefix, by the locale order. */
  ghost predicate DepartmentsAscending(r: seq<Department>, localeLe: (string, string) -> bool) {
    forall i, j :: 0 <= i < j < |r| ==>
      && (ExtractPrefix(r[i].name) == ExtractPrefix(r[j].name) ==> localeLe(r[i].name, r[j].name))
      && (ExtractPrefix(r[i].name) != ExtractPrefix(r[j].name) ==>
            PrefixBefore(ExtractPrefix(r[i].name), ExtractPrefix(r[j].name)))
  }

  /** The option list is ordered (it is a permutation of the catalog by SortedDepartments' contract). */
  lemma SortedDepartmentsOrdered(departments: seq<Department>, localeLe: (string, string) -> bool)
    requires TotalPreorder(localeLe)
    ensures DepartmentsAscending(SortedDepartments(departments, localeLe), localeLe)
  {
    DepartmentOrderIsPreorder(localeLe);
    SortSorted(departments, DepartmentOrder(localeLe));
    var r := SortedDepartments(departments, localeLe);
    forall i, j | 0 <= i < j < |r| ensures DepartmentNameLe(r[i].name, r[j].name, localeLe) {
      assert DepartmentOrder(localeLe)(r[i], r[j]);
    }
  }

  // ---- Row sorting (`sortByDepartment`) ----

  /** `a.departament?.name` when truthy: a missing department and an empty name both count as none. */
  function DepartmentName(c: Computer): (n: Option<string>)
    ensures n.Some? ==> n.value != ""
  {
    if c.department.Some? && c.department.value.name != "" then Some(c.department.value.name) else None
  }

  predicate RowLe(a: Computer, b: Computer, localeLe: (string, string) -> bool) {
    match (DepartmentName(a), DepartmentName(b))
    case (None, None) => true
    case (None, Some(_)) => false
    case (Some(_), None) => true
    case (Some(x), Some(y)) => DepartmentNameLe(x, y, localeLe)
  }

  function RowOrder(localeLe: (string, string) -> bool): (Computer, Computer) -> bool {
    (a: Computer, b: Computer) => RowLe(a, b, localeLe)
  }

  lemma RowOrderIsPreorder(localeLe: (string, string) -> bool)
    requires TotalPreorder(localeLe)
    ensures TotalPreorder(RowOrder(localeLe))
  {
    var le := RowOrder(localeLe);
    forall a: Computer, b: Computer ensures le(a, b) || le(b, a) {
      if DepartmentName(a).Some? && DepartmentName(b).Some? {
        DepartmentNameLeTotal(localeLe, DepartmentName(a).value, DepartmentName(b).value);
      }
    }
    forall a: Computer, b: Computer, c: Computer | le(a, b) && le(b, c) ensures le(a, c) {
      if DepartmentName(a).Some? && DepartmentName(b).Some? && DepartmentName(c).Some? {
        DepartmentNameLeTransitive(localeLe, DepartmentName(a).value, DepartmentName(b).value, DepartmentName(c).value);
      }
    }
  }

  /** `sortByDepartment(data)`: a sorted copy of the rows. */
  function SortByDepartment(data: seq<Computer>, localeLe: (string, string) -> bool): (r: seq<Computer>)
    ensures |r| == |data| && multiset(r) == multiset(data)
  {
    Sort(data, RowOrder(localeLe))
  }

  /** Rows without a department name form the tail; the others ascend by prefix, then by name. */
  ghost predicate RowsAscending(r: seq<Computer>, localeLe: (string, string) -> bool) {
    forall i, j :: 0 <= i < j < |r| ==>
      && (DepartmentName(r[i]).None? ==> DepartmentName(r[j]).None?)
      && (DepartmentName(r[i]).Some? && DepartmentName(r[j]).Some? ==>
            DepartmentNameLe(DepartmentName(r[i]).value, DepartmentName(r[j]).value, localeLe))
  }

  lemma SortByDepartmentOrdered(data: seq<Computer>, localeLe: (string, string) -> bool)
    requires TotalPreorder(localeLe)
    ensures RowsAscending(SortByDepartment(data, localeLe), localeLe)
  {
    RowOrderIsPreorder(localeLe);
    SortSorted(data, RowOrder(localeLe));
    var r := SortByDepartment(data, localeLe);
    forall i, j | 0 <= i < j < |r| ensures RowLe(r[i], r[j], localeLe) {
      assert RowOrder(localeLe)(r[i], r[j]);
    }
  }

  /** Rows that the comparator ranks equal (same department, or both without one)
      keep their input order, as the stable `Array.prototype.sort` does. */
  lemma SortByDepartmentStable(data: seq<Computer>, localeLe: (string, string) -> bool, e: Computer)
    requires TotalPreorder(localeLe)
    ensures Tied(SortByDepartment(data, localeLe), RowOrder(localeLe), e) == Tied(data, RowOrder(localeLe), e)
  {
    RowOrderIsPreorder(localeLe);
    SortStable(data, RowOrder(localeLe), e);
  }
}
