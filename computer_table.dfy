/**
  The state of the inventory table component (`DataTable`, src/components/Tables/DataTable.tsx)
  and the handlers that update it. React's `useState` setters become assignments to fields;
  network responses and the data a parent passes in become method parameters.

  The section menu is enabled only while `selectedDepartmentId` is truthy (lines 537-555), and
  then lists the sections of that department. `Cascade` states what this menu is meant to keep:
  a section filter is only set while a department is chosen.
 */
module ComputerTableState {
  import opened Wrappers
  import opened Decimal
  import opened Computers
  import opened Ordering
  import opened Filters
  import opened Query
  import opened Paging
  import opened CsvExport
  import opened CsvReader

  /** `filterOptions.departments.find(d => d.name === depName)`: the first department with that name. */
  function FindDepartment(departments: seq<Department>, name: string): (r: Option<Department>)
    ensures r.None? <==> forall i :: 0 <= i < |departments| ==> departments[i].name != name
    ensures r.Some? ==> r.value.name == name && exists i :: (0 <= i < |departments| && departments[i] == r.value &&
      forall j :: 0 <= j < i ==> departments[j].name != name)
  {
    if departments == [] then None
    else if departments[0].name == name then Some(departments[0])
    else
      var r := FindDepartment(departments[1..], name);
      assert forall j :: 1 <= j < |departments| ==> departments[j] == departments[1..][j - 1];
      if r.Some? then
        var i :| 0 <= i < |departments[1..]| && departments[1..][i] == r.value &&
          r.value.name == name && forall j :: 0 <= j < i ==> departments[1..][j].name != name;
        assert departments[i + 1] == r.value;
        r
      else r
  }

  /** `!selectedDepartmentId` is false: a department id other than `null` and `0`. */
  predicate IdTruthy(id: Option<int>) {
    id.Some? && id.value != 0
  }

  /** The section filter is set only while the section menu is enabled, and the menu is enabled
      only while a (truthy) department filter is set. */
  predicate CascadeHolds(f: FilterState, id: Option<int>) {
    && (IdTruthy(id) ==> Active(f.department))
    && (Active(f.section) ==> IdTruthy(id))
  }

  /** Under the cascade, a request that filters by section also carries a department filter. */
  lemma SectionParamNeedsDepartment(f: FilterState, id: Option<int>, search: string, first: nat, rows: nat, isoDay: Date -> string)
    requires rows > 0 && CascadeHolds(f, id)
    ensures HasKey(Query.Query(f, search, first, rows, isoDay), PSection) ==>
      HasKey(Query.Query(f, search, first, rows, isoDay), PDepartment)
  {
    QueryFilterParam(f, search, first, rows, isoDay, Section);
    QueryFilterParam(f, search, first, rows, isoDay, FilterKey.Department);
  }

  /** The query assembled from its filter part, its search part and the two paging pairs. */
  lemma QueryOfParts(f: FilterState, search: string, first: nat, rows: nat, isoDay: Date -> string,
                     filterPart: seq<Pair>, searchPart: seq<Pair>, params: seq<Pair>)
    requires rows > 0
    requires filterPart == FilterPairs(f, isoDay)
    requires searchPart == if search != "" then filterPart + [(PSearch, search)] else filterPart
    requires params == searchPart + [(PPage, NatToString(first / rows + 1))] + [(PPageSize, NatToString(rows))]
    ensures params == Query.Query(f, search, first, rows, isoDay)
  {
  }

  /** `isFiltered ? checkedComputer : computers` */
  function ExportSource(isFiltered: bool, checked: seq<Computer>, shown: seq<Computer>): seq<Computer> {
    if isFiltered then checked else shown
  }

  /** The body of a `/all_compyuters/` response: `{results, count}`. */
  datatype ListingResponse = ListingResponse(results: seq<Computer>, count: nat)

  datatype ExportOutcome =
    | NothingToExport
    | Exported(filename: string, count: nat, csv: string)

  class ComputerTable {
    var filters: FilterState
    var searchText: string
    var first: nat
    var rows: nat
    var selectedDepartmentId: Option<int>
    var sectionOptions: seq<SectionOption>
    /** `filterOptions.departments` */
    var departments: seq<Department>
    var computers: seq<Computer>
    var totalCount: nat
    /** `localeCompare(…, {sensitivity: 'base'}) <= 0` */
    const localeLe: (string, string) -> bool

    ghost predicate Valid()
      reads this
    {
      rows > 0 && WellTyped(filters)
    }

    predicate SectionsEnabled()
      reads this
    {
      IdTruthy(selectedDepartmentId)
    }

    predicate Cascade()
      reads this
    {
      CascadeHolds(filters, selectedDepartmentId)
    }

    /** The initial state (lines 51-66, 76-82, 106-115). */
    constructor (localeLe: (string, string) -> bool)
      ensures Valid() && Cascade() && !SectionsEnabled()
      ensures filters == InitialFilters() && searchText == "" && first == 0 && rows == 50
      ensures selectedDepartmentId == None && sectionOptions == [] && departments == []
      ensures computers == [] && totalCount == 0 && this.localeLe == localeLe
    {
      filters := InitialFilters();
      searchText := "";
      first := 0;
      rows := 50;
      selectedDepartmentId := None;
      sectionOptions := [];
      departments := [];
      computers := [];
      totalCount := 0;
      this.localeLe := localeLe;
      InitialWellTyped();
    }

    /** The `/filter-options/` response (lines 86-93). */
    method LoadFilterOptions(options: seq<Department>)
      modifies this`departments
      ensures departments == options
    {
      departments := options;
    }

    /** `handleDepartmentSelect`: filter by the department, clear the section filter, remember
        the id of the first department of that name, return to the first page. The cascade
        holds afterwards unless a catalog department with an empty name, whose filter value
        is falsy and never sent, opens the section menu. */
    method DepartmentSelect(depName: string)
      requires Valid()
      modifies this`filters, this`selectedDepartmentId, this`first
      ensures Valid()
      ensures depName != "" || !SectionsEnabled() ==> Cascade()
      ensures filters == old(filters).With(FilterKey.Department, FilterField(Some(Text(depName)), Contains)).With(Section, Unset)
      ensures FindDepartment(departments, depName).Some? ==> selectedDepartmentId == Some(FindDepartment(departments, depName).value.id)
      ensures FindDepartment(departments, depName).None? ==> selectedDepartmentId == None
      ensures first == 0
    {
      var dep := FindDepartment(departments, depName);
      filters := filters.With(FilterKey.Department, FilterField(Some(Text(depName)), Contains)).With(Section, Unset);
      selectedDepartmentId := if dep.Some? then Some(dep.value.id) else None;
      first := 0;
    }

    /** `handleDepartmentSelect` with the section menu tied to the department filter: a name
        that is falsy, and so never sent, does not open the menu. The cascade always holds. */
    method DepartmentSelectGuarded(depName: string)
      requires Valid()
      modifies this`filters, this`selectedDepartmentId, this`first
      ensures Valid() && Cascade()
      ensures filters == old(filters).With(FilterKey.Department, FilterField(Some(Text(depName)), Contains)).With(Section, Unset)
      ensures depName != "" && FindDepartment(departments, depName).Some? ==>
        selectedDepartmentId == Some(FindDepartment(departments, depName).value.id)
      ensures depName == "" || FindDepartment(departments, depName).None? ==> selectedDepartmentId == None
      ensures first == 0
    {
      var dep := FindDepartment(departments, depName);
      filters := filters.With(FilterKey.Department, FilterField(Some(Text(depName)), Contains)).With(Section, Unset);
      selectedDepartmentId := if dep.Some? && depName != "" then Some(dep.value.id) else None;
      first := 0;
    }

    /** The effect on `selectedDepartmentId` (lines 306-323): no department, no sections;
        otherwise the sections fetched for it, or none when the request fails (`None`). */
    method LoadSections(response: Option<seq<SectionOption>>)
      modifies this`sectionOptions
      ensures !SectionsEnabled() ==> sectionOptions == []
      ensures SectionsEnabled() && response.Some? ==> sectionOptions == response.value
      ensures SectionsEnabled() && response.None? ==> sectionOptions == []
    {
      if !SectionsEnabled() {
        sectionOptions := [];
      } else if response.Some? {
        sectionOptions := response.value;
      } else {
        sectionOptions := [];
      }
    }

    /** `handleSectionSelect`; reachable from the menu only while it is enabled. */
    method SectionSelect(secName: string)
      requires Valid()
      modifies this`filters
      ensures Valid()
      ensures filters == old(filters).With(Section, FilterField(Some(Text(secName)), Contains))
      ensures old(Cascade()) && SectionsEnabled() ==> Cascade()
    {
      filters := filters.With(Section, FilterField(Some(Text(secName)), Contains));
    }

    /** `handleTypeSelect` */
    method TypeSelect(typeName: string)
      requires Valid()
      modifies this`filters
      ensures Valid() && (old(Cascade()) ==> Cascade())
      ensures filters == old(filters).With(ComputerType, FilterField(Some(Text(typeName)), Contains))
    {
      filters := filters.With(ComputerType, FilterField(Some(Text(typeName)), Contains));
    }

    /** `handleIpSelect` */
    method IpSelect(ipValue: string)
      requires Valid()
      modifies this`filters
      ensures Valid() && (old(Cascade()) ==> Cascade())
      ensures filters == old(filters).With(Ip, FilterField(Some(Text(ipValue)), Contains))
    {
      filters := filters.With(Ip, FilterField(Some(Text(ipValue)), Contains));
    }

    /** `handleDateSelect`, after the picked value has been made a `Date`. */
    method DateSelect(day: Date)
      requires Valid()
      modifies this`filters
      ensures Valid() && (old(Cascade()) ==> Cascade())
      ensures filters == old(filters).With(HistoryDate, FilterField(Some(Day(day)), DateIs))
    {
      filters := filters.With(HistoryDate, FilterField(Some(Day(day)), DateIs));
    }

    /** `handleUserSelect` */
    method UserSelect(username: string)
      requires Valid()
      modifies this`filters
      ensures Valid() && (old(Cascade()) ==> Cascade())
      ensures filters == old(filters).With(HistoryUser, FilterField(Some(Text(username)), Contains))
    {
      filters := filters.With(HistoryUser, FilterField(Some(Text(username)), Contains));
    }

    /** `onSearch`: keep the typed text, return to the first page. */
    method OnSearch(v: string)
      modifies this`first, this`searchText
      ensures first == 0 && searchText == v
    {
      first := 0;
      searchText := v;
    }

    /** The paginator's `onPage` (lines 764-767); its page sizes are positive. */
    method OnPage(newFirst: nat, newRows: nat)
      requires Valid() && newRows > 0
      modifies this`first, this`rows
      ensures Valid() && first == newFirst && rows == newRows
    {
      first := newFirst;
      rows := newRows;
    }

    /** `clearFilter(field)`: the field becomes `{value: null, matchMode: CONTAINS}`; clearing the
        department also clears the section filter, the department id and the section list. */
    method ClearFilter(k: FilterKey)
      requires Valid()
      modifies this`filters, this`selectedDepartmentId, this`sectionOptions
      ensures Valid() && (old(Cascade()) ==> Cascade())
      ensures !Active(filters.Get(k))
      ensures k != FilterKey.Department ==> filters == old(filters).With(k, Unset)
      ensures k != FilterKey.Department ==> selectedDepartmentId == old(selectedDepartmentId) && sectionOptions == old(sectionOptions)
      ensures k == FilterKey.Department ==> filters == old(filters).With(FilterKey.Department, Unset).With(Section, Unset)
      ensures k == FilterKey.Department ==> selectedDepartmentId == None && sectionOptions == [] && Cascade()
    {
      var updated := filters.With(k, Unset);
      if k == FilterKey.Department {
        updated := updated.With(Section, Unset);
        selectedDepartmentId := None;
        sectionOptions := [];
      }
      filters := updated;
    }

    /** `resetAllFilters` as written: filters, search text and offset return to their initial
        values, while the department id and the section list are kept. */
    method ResetAllFilters()
      requires Valid()
      modifies this`filters, this`searchText, this`first
      ensures Valid()
      ensures filters == InitialFilters() && searchText == "" && first == 0
    {
      filters := InitialFilters();
      InitialWellTyped();
      searchText := "";
      first := 0;
    }

    /** `resetAllFilters` with the department cascade reset as `clearFilter('departament.name')`
        does it: the section menu is disabled again and the cascade holds. */
    method ResetAllFiltersScoped()
      requires Valid()
      modifies this`filters, this`searchText, this`first, this`selectedDepartmentId, this`sectionOptions
      ensures Valid() && Cascade() && !SectionsEnabled()
      ensures filters == InitialFilters() && searchText == "" && first == 0
      ensures selectedDepartmentId == None && sectionOptions == []
    {
      filters := InitialFilters();
      InitialWellTyped();
      searchText := "";
      first := 0;
      selectedDepartmentId := None;
      sectionOptions := [];
    }

    /** `buildQueryParams(search)`: the pairs appended, in order. */
    method BuildQueryParams(search: string, isoDay: Date -> string) returns (params: seq<Pair>)
      requires rows > 0
      ensures params == Query.Query(filters, search, first, rows, isoDay)
    {
      // Each filter step is one `if (filters[…].value) params.append(…)` of `buildQueryParams`,
      // written as the append of one pair or none that `PairOf` describes.
      var f := filters;
      params := [];
      assert [] + PairOf(f.department, PDepartment, isoDay) == PairOf(f.department, PDepartment, isoDay);
      params := params + PairOf(f.department, PDepartment, isoDay);
      params := params + PairOf(f.section, PSection, isoDay);
      params := params + PairOf(f.computerType, PType, isoDay);
      params := params + PairOf(f.ip, PIp, isoDay);
      params := params + PairOf(f.user, PUser, isoDay);
      params := params + PairOf(f.historyDate, PHistoryDate, isoDay);
      params := params + PairOf(f.historyUser, PHistoryUser, isoDay);
      ghost var filterPart := params;
      if search != "" {
        params := params + [(PSearch, search)];
      }
      ghost var searchPart := params;
      params := params + [(PPage, NatToString(first / rows + 1))];
      params := params + [(PPageSize, NatToString(rows))];
      QueryOfParts(filters, search, first, rows, isoDay, filterPart, searchPart, params);
    }


    /** The section menu (lines 537-555): it opens only while a department id is truthy and
        lists `sectionOptions`; clicking entry `i` calls `handleSectionSelect(sec.raw_name)`. */
    method PickSectionFromMenu(i: nat)
      requires Valid()
      modifies this`filters
      ensures Valid() && (old(Cascade()) ==> Cascade())
      ensures SectionsEnabled() && i < |sectionOptions| ==>
        filters == old(filters).With(Section, FilterField(Some(Text(sectionOptions[i].rawName)), Contains))
      ensures !(SectionsEnabled() && i < |sectionOptions|) ==> filters == old(filters)
    {
      if SectionsEnabled() && i < |sectionOptions| {
        SectionSelect(sectionOptions[i].rawName);
      }
    }

    /** The clone-and-sort effect on `checkedComputer` (lines 96-104). */
    method AdoptChecked(checked: seq<Computer>)
      modifies this`computers
      ensures checked != [] ==> computers == SortByDepartment(checked, localeLe)
      ensures checked == [] ==> computers == []
      ensures multiset(computers) == multiset(checked)
    {
      if |checked| > 0 {
        computers := SortByDepartment(checked, localeLe);
      } else {
        computers := [];
      }
    }

    /** Filtered mode of the listing effect (lines 118-127): the current page of the sorted
        preselected set, and its size as the total. */
    method ShowPreselected(checked: seq<Computer>)
      requires Valid()
      modifies this`computers, this`totalCount
      ensures View(computers, totalCount) == PreselectedView(checked, first, rows, localeLe)
    {
      var page := first / rows;
      if |checked| > 0 {
        computers := Slice(SortByDepartment(checked, localeLe), page * rows, (page + 1) * rows);
        totalCount := |checked|;
      } else {
        computers := [];
        totalCount := 0;
      }
    }

    /** The listing response handler (lines 132-140): a non-empty `results` is shown sorted by
        department with the server's `count`; otherwise the table is emptied. */
    method ShowListing(results: seq<Computer>, count: nat)
      modifies this`computers, this`totalCount
      ensures results != [] ==> computers == SortByDepartment(results, localeLe) && totalCount == count
      ensures results == [] ==> computers == [] && totalCount == 0
      ensures multiset(computers) == multiset(results)
      ensures Sorting.TotalPreorder(localeLe) ==> RowsAscending(computers, localeLe)
    {
      if |results| > 0 {
        computers := SortByDepartment(results, localeLe);
        totalCount := count;
        if Sorting.TotalPreorder(localeLe) {
          SortByDepartmentOrdered(results, localeLe);
        }
      } else {
        computers := [];
        totalCount := 0;
      }
    }

    /** The listing effect (lines 117-144). In filtered mode the page of the preselected set is
        shown and nothing is requested; otherwise the query of the current state is sent and
        its response handled, where `None` is a failed request, which leaves the table as it was. */
    method ListingEffect(isFiltered: bool, checked: seq<Computer>, isoDay: Date -> string,
                         response: Option<ListingResponse>) returns (request: Option<seq<Pair>>)
      requires Valid()
      modifies this`computers, this`totalCount
      ensures isFiltered ==> request == None
      ensures isFiltered ==> View(computers, totalCount) == PreselectedView(checked, first, rows, localeLe)
      ensures !isFiltered ==> request == Some(Query.Query(filters, searchText, first, rows, isoDay))
      ensures !isFiltered && response.Some? && response.value.results != [] ==>
        computers == SortByDepartment(response.value.results, localeLe) && totalCount == response.value.count
      ensures !isFiltered && response.Some? && response.value.results == [] ==> computers == [] && totalCount == 0
      ensures !isFiltered && response.None? ==> computers == old(computers) && totalCount == old(totalCount)
    {
      if isFiltered {
        ShowPreselected(checked);
        request := None;
      } else {
        var params := BuildQueryParams(searchText, isoDay);
        request := Some(params);
        if response.Some? {
          ShowListing(response.value.results, response.value.count);
        }
      }
    }

    /** `handleExportToExcel`: the preselected set in filtered mode, otherwise the rows on
        screen; nothing is exported when that is empty. */
    method HandleExportToExcel(isFiltered: bool, checked: seq<Computer>, locale: Locale) returns (outcome: ExportOutcome)
      ensures outcome.NothingToExport? <==> ExportSource(isFiltered, checked, computers) == []
      ensures outcome.Exported? ==>
        && outcome.filename == (if isFiltered then "filtered_computers" else "all_computers")
        && outcome.count == |ExportSource(isFiltered, checked, computers)|
        && ExportCsv(ExportSource(isFiltered, checked, computers), locale) == Success(outcome.csv)
        && ReadDocument(outcome.csv) == Some(Table(ExportSource(isFiltered, checked, computers), locale))
    {
      var dataToExport := ExportSource(isFiltered, checked, computers);
      var filename := if isFiltered then "filtered_computers" else "all_computers";
      if |dataToExport| == 0 {
        outcome := NothingToExport;
      } else {
        var csv := ExportCsv(dataToExport, locale);
        ExportRoundTrip(dataToExport, locale);
        outcome := Exported(filename, |dataToExport|, csv.value);
      }
    }
  }

  /** A stand-in for the locale collation in the scenarios below, which sort nothing. */
  function AnyCollation(a: string, b: string): bool {
    true
  }

  /** `resetAllFilters` as written keeps the department id, so the section menu stays open
      with the previous department's sections: picking one then sends a section filter with
      no department filter. */
  method ResetThenPickSection() returns (q: seq<Pair>)
    ensures HasKey(q, PSection) && !HasKey(q, PDepartment)
  {
    var t := new ComputerTable(AnyCollation);
    t.LoadFilterOptions([Computers.Department(7, "1-цех")]);
    t.DepartmentSelect("1-цех");
    t.LoadSections(Some([SectionOption(3, "ОТК", "ОТК")]));
    t.ResetAllFilters();
    t.PickSectionFromMenu(0);
    assert !t.Cascade();
    var isoDay := (d: Date) => "";
    q := t.BuildQueryParams("", isoDay);
    QueryFilterParam(t.filters, "", t.first, t.rows, isoDay, Section);
    QueryFilterParam(t.filters, "", t.first, t.rows, isoDay, FilterKey.Department);
  }

  /** The same steps with the scoped reset: the menu is closed afterwards, so the pick does
      nothing and no section filter is sent. */
  method ScopedResetThenPickSection() returns (q: seq<Pair>)
    ensures !HasKey(q, PSection)
  {
    var t := new ComputerTable(AnyCollation);
    t.LoadFilterOptions([Computers.Department(7, "1-цех")]);
    t.DepartmentSelect("1-цех");
    t.LoadSections(Some([SectionOption(3, "ОТК", "ОТК")]));
    t.ResetAllFiltersScoped();
    t.PickSectionFromMenu(0);
    var isoDay := (d: Date) => "";
    q := t.BuildQueryParams("", isoDay);
    QueryFilterParam(t.filters, "", t.first, t.rows, isoDay, Section);
  }

  /** Reachable from the department menu (lines 481-486): a catalog department named "" gets
      a truthy id but a falsy filter, so its sections can be picked and a section filter is
      sent without a department filter. */
  method EmptyNameThenPickSection() returns (q: seq<Pair>)
    ensures HasKey(q, PSection) && !HasKey(q, PDepartment)
  {
    var t := new ComputerTable(AnyCollation);
    t.LoadFilterOptions([Computers.Department(5, "")]);
    t.DepartmentSelect("");
    t.LoadSections(Some([SectionOption(3, "ОТК", "ОТК")]));
    t.PickSectionFromMenu(0);
    var isoDay := (d: Date) => "";
    q := t.BuildQueryParams("", isoDay);
    QueryFilterParam(t.filters, "", t.first, t.rows, isoDay, Section);
    QueryFilterParam(t.filters, "", t.first, t.rows, isoDay, FilterKey.Department);
  }

  /** The same steps with the guarded department select: the menu stays closed and no
      section filter is sent. */
  method GuardedEmptyNameThenPickSection() returns (q: seq<Pair>)
    ensures !HasKey(q, PSection)
  {
    var t := new ComputerTable(AnyCollation);
    t.LoadFilterOptions([Computers.Department(5, "")]);
    t.DepartmentSelectGuarded("");
    t.LoadSections(Some([SectionOption(3, "ОТК", "ОТК")]));
    t.PickSectionFromMenu(0);
    var isoDay := (d: Date) => "";
    q := t.BuildQueryParams("", isoDay);
    QueryFilterParam(t.filters, "", t.first, t.rows, isoDay, Section);
  }
}
