# Computer inventory table — a Dafny model

This project models the core of the computer inventory table of a React web client. The table
lists computers. In live mode it fetches one page at a time from a listing endpoint. In filtered
mode it pages through a set of computers handed in by its parent. The table keeps:

- a filter record: department, section, type, IP address, user, last-change date and last-change user;
- a search text;
- the paginator offset and page size;
- the chosen department id and the list of that department's sections.

From that state it builds the query string of the listing request. It orders departments and rows
by the number a department name starts with. It exports the rows on screen in live mode, or the whole
pre-selected set in filtered mode, as a `;`-separated CSV file with a byte-order mark.

The modules follow the program's structure:

- `Wrappers`, `Decimal` (`String(n)` for natural numbers) and `Sorting` are shared foundations.
  `Sorting` holds a stable insertion sort standing for `Array.prototype.sort`.
- `Computers` holds the record types.
- `Ordering` holds `extractPrefix`, the department option list and `sortByDepartment`.
- `Filters` holds the filter record.
- `Query` specifies `buildQueryParams` as the ordered list of appended pairs.
- `Paging` holds the filtered-mode page slice.
- `CsvExport` models `exportToExcel` up to the text handed to the download.
- `CsvReader` is an independent reader of that text, used to state the export's round trip.
- `ComputerTableState` models the component. It is a class whose fields are the component's
  `useState` variables; its methods are the event handlers and effects.

The model abstracts the following:

- Locale comparisons.
  - `localeLe(a, b)` stands for `a.localeCompare(b, undefined, {sensitivity: 'base'}) <= 0`.
  - It is assumed to be a total preorder wherever sortedness is proved.
- Dates.
  - A date is a millisecond timestamp.
  - `isoDay` stands for `toISOString().slice(0, 10)`.
  - A `Locale` value supplies `toLocaleDateString('ru-RU')` and `toLocaleString('ru-RU')`.
- Network responses are method parameters.

The export has 32 columns: 32 headers (excelExport.ts:10-43) and 32 cells per record (46-79).

## Model

| member | source | states |
|---|---|---|
| Decimal.NatToString | src/components/Tables/DataTable.tsx:191-192 | `String(n)` of a natural number is a non-empty run of decimal digits without a leading zero |
| Decimal.NatToStringRoundTrip | src/components/Tables/DataTable.tsx:191-192 | the digits written for `n` read back as `n` |
| Decimal.NatToStringInjective | src/components/Tables/DataTable.tsx:191-192 | distinct page numbers and page sizes are written as distinct texts |
| Sorting.Sort | src/components/Tables/DataTable.tsx:685 | sorting returns a permutation of its input |
| Sorting.SortSorted | src/components/Tables/DataTable.tsx:685 | under a total preorder, the sorted copy is ordered |
| Sorting.SortStable | src/components/Tables/DataTable.tsx:685 | elements the comparator ranks equal keep their input order (stable sort) |
| Ordering.LeadingDigits | src/components/Tables/DataTable.tsx:72 | the captured run is a prefix of the name, all digits, and maximal |
| Ordering.ExtractPrefix | src/components/Tables/DataTable.tsx:70-74 | the prefix is +infinity exactly when the name is empty or does not start with a digit |
| Ordering.ExtractPrefixOfSplit | src/components/Tables/DataTable.tsx:72-73 | a digit run followed by a non-digit gives the value of that run |
| Ordering.PrefixOfNumeral | src/components/Tables/DataTable.tsx:72-73 | the numeral of `n` followed by a non-digit rest gives the prefix `n` |
| Ordering.PrefixBefore | src/components/Tables/DataTable.tsx:455 | `n1 - n2 < 0` with +infinity for a missing prefix: a number is below every larger number and below +infinity |
| Ordering.DepartmentNameLe | src/components/Tables/DataTable.tsx:449-456 | the department comparator: by prefix, and by the locale order when the prefixes are equal |
| Ordering.DepartmentNameLeTotal | src/components/Tables/DataTable.tsx:449-456 | any two department names are comparable |
| Ordering.DepartmentNameLeTransitive | src/components/Tables/DataTable.tsx:449-456 | the department comparator is transitive |
| Ordering.NumericPrefixOrder | src/components/Tables/DataTable.tsx:450-455 | "2-цех" comes strictly before "10-цех": prefixes compare as numbers, not as text |
| Ordering.NoPrefixLast | src/components/Tables/DataTable.tsx:450-455 | a name with no numeric prefix comes strictly after every name with one |
| Ordering.DepartmentOrderIsPreorder | src/components/Tables/DataTable.tsx:449-456 | the comparator is a total preorder on departments |
| Ordering.SortedDepartments | src/components/Tables/DataTable.tsx:447-456 | the option list is a permutation of the catalog's departments |
| Ordering.SortedDepartmentsOrdered | src/components/Tables/DataTable.tsx:447-456 | the option list ascends by numeric prefix (none last), and by locale order within one prefix |
| Ordering.DepartmentName | src/components/Tables/DataTable.tsx:686-687 | a row's department name counts only when present and non-empty |
| Ordering.RowLe | src/components/Tables/DataTable.tsx:685-701 | the row comparator: rows without a department name last, two such rows equal, otherwise the department comparator on the names |
| Ordering.RowOrderIsPreorder | src/components/Tables/DataTable.tsx:685-701 | the row comparator is a total preorder |
| Ordering.SortByDepartment | src/components/Tables/DataTable.tsx:684-702 | the sorted rows are a permutation of the input |
| Ordering.SortByDepartmentOrdered | src/components/Tables/DataTable.tsx:684-702 | rows without a department form the tail; the others ascend by prefix, then by name |
| Ordering.SortByDepartmentStable | src/components/Tables/DataTable.tsx:684-702 | rows the comparator ranks equal keep their order |
| Paging.Slice | src/components/Tables/DataTable.tsx:121 | `slice(start, end)` clamps to the sequence and returns the elements from `start` on |
| Paging.PageStart | src/components/Tables/DataTable.tsx:119-121 | `page * rows` with `page = floor(first / rows)`: the first row of the page holding row `first` |
| Paging.PreselectedView | src/components/Tables/DataTable.tsx:117-128 | the page is the rows of the sorted set from `floor(first/rows)*rows` on, at most `rows` of them; the total is the set's size; an empty set shows nothing |
| Paging.RowOnItsPage | src/components/Tables/DataTable.tsx:119-121 | every row of the sorted set is shown, at position `j % rows`, when the offset is on its page |
| Filters.FilterState.With | src/components/Tables/DataTable.tsx:327-333 | `{...prev, [field]: v}` sets that field to `v` and leaves every other field unchanged |
| Filters.Unset | src/components/Tables/DataTable.tsx:420 | what `clearFilter` writes: `{value: null, matchMode: CONTAINS}` |
| Filters.Active | src/components/Tables/DataTable.tsx:158-185 | JavaScript truthiness of `filters[…].value`: `null` and `''` are falsy, a `Date` is truthy |
| Filters.InitialFilters | src/components/Tables/DataTable.tsx:106-115 | the initial record: global `''`, history_date `null` with DATE_IS, the other fields `null` with CONTAINS; none is truthy |
| Filters.InitialWellTyped | src/components/Tables/DataTable.tsx:106-115 | the initial record holds a date only in the date field |
| Query.Rank | src/components/Tables/DataTable.tsx:155-192 | each key has a position among the ten keys the query can contain |
| Query.Name | src/components/Tables/DataTable.tsx:159-192 | the key literals appended: department, section, type, ip, user, history_date, history_user, search, page, page_size |
| Query.NameInjective | src/components/Tables/DataTable.tsx:158-192 | distinct query keys are sent under distinct names |
| Query.ParamOfInjective | src/components/Tables/DataTable.tsx:158-185 | distinct filter fields are sent under distinct query keys |
| Query.ParamOf | src/components/Tables/DataTable.tsx:158-184 | the renaming of filter keys to query keys: `departament.name` to `department`, `section.name` to `section`, `type_compyuter.name` to `type`, `ipadresss` to `ip`, and `user`, `history_date`, `history_user` kept |
| Query.ParamText | src/components/Tables/DataTable.tsx:179 | the text a filter value is sent as: the string itself, or the ISO day of a date |
| Query.PageNumber | src/components/Tables/DataTable.tsx:191 | `floor(first/rows)+1` is the 1-based page whose rows include row `first` |
| Query.PairOf | src/components/Tables/DataTable.tsx:158-160 | one `if (value) params.append(key, value)` step: one pair when the value is truthy, none otherwise |
| Query.FilterPairs | src/components/Tables/DataTable.tsx:158-185 | the seven filter steps in source order |
| Query.SearchPairs | src/components/Tables/DataTable.tsx:187-189 | the search pair, present only for a non-empty search text |
| Query.PagePairs | src/components/Tables/DataTable.tsx:191-192 | the page pair then the page_size pair, both as decimal numerals |
| Query.Query | src/components/Tables/DataTable.tsx:155-192 | the functional form of `buildQueryParams`: filter pairs, the search pair, then page and page_size |
| Query.PairOfRanked | src/components/Tables/DataTable.tsx:158-160 | one filter step appends at most one pair, under its own key |
| Query.PairOfShape | src/components/Tables/DataTable.tsx:158-160 | one filter step appends its key exactly when the field's value is truthy, and then with that value |
| Query.FilterPairsOrdered | src/components/Tables/DataTable.tsx:158-185 | the filter pairs come in ascending key order, each key at most once |
| Query.FilterPairsMember | src/components/Tables/DataTable.tsx:158-185 | a filter key is among the filter pairs exactly when its field is truthy, and then with its text |
| Query.QueryInCanonicalOrder | src/components/Tables/DataTable.tsx:155-195 | keys appear at most once, in the order department … history_user, search, page, page_size; the query always ends with page then page_size |
| Query.QueryFilterParam | src/components/Tables/DataTable.tsx:158-185 | a filter's key is in the query exactly when its value is truthy, with the value's text (the ISO day for history_date) |
| Query.QuerySearchParam | src/components/Tables/DataTable.tsx:187-189 | `search` is in the query exactly when the search text is non-empty, with that text |
| Query.QueryPaging | src/components/Tables/DataTable.tsx:191-192 | page is the decimal numeral of the 1-based page holding row `first`; page_size is that of `rows` |
| CsvExport.Names | src/utils/excelExport.ts:73-78 | `list.map(x => x.name)` keeps length and order |
| CsvExport.Headers | src/utils/excelExport.ts:10-43 | the 32 header texts in order |
| CsvExport.OrEmpty | src/utils/excelExport.ts:50 | `x || ''` for an optional text field |
| CsvExport.RefName | src/utils/excelExport.ts:48 | `x?.name || ''` for an optional reference |
| CsvExport.YesNo | src/utils/excelExport.ts:68-69 | `flag ? 'Да' : 'Нет'` |
| CsvExport.DateCell | src/utils/excelExport.ts:70-71 | `t ? render(t) : ''`, with the locale rendering a parameter |
| CsvExport.Join | src/utils/excelExport.ts:95-97 | `parts.join(sep)` |
| CsvExport.NameList | src/utils/excelExport.ts:73-78 | `list?.map(x => x.name).join(', ') || ''` |
| CsvExport.PlacementCells | src/utils/excelExport.ts:47-54 | the first 8 cells of a record |
| CsvExport.HardwareCells | src/utils/excelExport.ts:55-67 | the next 13 cells of a record |
| CsvExport.StatusCells | src/utils/excelExport.ts:68-72 | the next 5 cells of a record |
| CsvExport.PeripheralCells | src/utils/excelExport.ts:73-78 | the last 6 cells of a record |
| CsvExport.RecordCells | src/utils/excelExport.ts:46-79 | a record has 32 cells, as many as there are headers |
| CsvExport.Table | src/utils/excelExport.ts:82 | the header row comes first, then row `i+1` holds the cells of record `i`; every row has 32 cells |
| CsvExport.IndexColumn | src/utils/excelExport.ts:47 | the first cell of data row `i` is the decimal numeral of `i+1` |
| CsvExport.FlagColumns | src/utils/excelExport.ts:68-69 | columns "Интернет" and "Активен" hold "Да" for a truthy flag and "Нет" otherwise |
| CsvExport.PlacementColumns | src/utils/excelExport.ts:48-54 | columns 2-8 (department … seal number) hold the field's text, or the empty string when the field is missing |
| CsvExport.BoardColumns | src/utils/excelExport.ts:55-60 | columns 9-14 (warehouse manager … frequency) hold the reference's name, or the empty string when it is missing |
| CsvExport.StorageColumns | src/utils/excelExport.ts:61-67 | columns 15-21 (HDD … operating system) hold the name or text, or the empty string when it is missing |
| CsvExport.StatusColumns | src/utils/excelExport.ts:70-72 | columns 24-26: a missing or empty date is an empty cell, a present one its locale rendering; a missing last editor is an empty cell |
| CsvExport.OptionalColumnHeaders | src/utils/excelExport.ts:10-36 | the headers above those columns, so each value sits under its own header |
| CsvExport.DoubleQuotesChars | src/utils/excelExport.ts:90 | `replace(/"/g, '""')` doubles each quote and keeps every other character; a cell without quotes is unchanged |
| CsvExport.DoubleQuotes | src/utils/excelExport.ts:90 | `replace(/"/g, '""')` |
| CsvExport.NeedsQuotes | src/utils/excelExport.ts:91 | the quoting test: the cell contains `,` `;` a newline or `"` |
| CsvExport.Escape | src/utils/excelExport.ts:88-94 | a cell containing `,` `;` newline or `"` is wrapped in quotes with its quotes doubled; any other cell is sent as is |
| CsvExport.EscapeRoundTrip | src/utils/excelExport.ts:88-94 | unquoting an escaped cell gives the cell back; an unquoted cell contains no delimiter, newline or quote |
| CsvExport.CommaIsQuoted | src/utils/excelExport.ts:91-92 | a cell containing a comma is quoted |
| CsvExport.EscapeAll | src/utils/excelExport.ts:88-94 | `row.map(cell => …)`: each cell escaped, in order |
| CsvExport.EncodeRows | src/utils/excelExport.ts:86-96 | `allData.map(row => …)`: each row encoded, in order |
| CsvExport.EncodeRow | src/utils/excelExport.ts:88-95 | a row as its escaped cells joined with `;` |
| CsvExport.EncodeTable | src/utils/excelExport.ts:86-97 | the encoded rows joined with `\n` |
| CsvExport.ExportCsv | src/utils/excelExport.ts:5-101 | an empty data set fails; otherwise the text is the BOM followed by the escaped rows, `;`-joined and `\n`-separated |
| CsvReader.QuotedRoundTrip | src/utils/excelExport.ts:92 | a reader that undoubles quotes recovers a quoted cell when a delimiter or row end follows |
| CsvReader.UnquotedRoundTrip | src/utils/excelExport.ts:94 | the reader recovers an unquoted cell |
| CsvReader.FieldRoundTrip | src/utils/excelExport.ts:88-94 | the reader recovers any escaped cell and stops at the following delimiter or row end |
| CsvReader.RowRoundTrip | src/utils/excelExport.ts:88-95 | reading a `;`-joined escaped row gives back its cells |
| CsvReader.RowsRoundTrip | src/utils/excelExport.ts:86-97 | reading the `\n`-joined rows gives back the table |
| CsvReader.ExportRoundTrip | src/utils/excelExport.ts:82-101 | for a non-empty data set, the exported text after its BOM reads back as exactly the header row and the record rows |
| ComputerTableState.FindDepartment | src/components/Tables/DataTable.tsx:293 | `find` returns the first department with that name, or nothing when none has it |
| ComputerTableState.IdTruthy | src/components/Tables/DataTable.tsx:537-546 | `selectedDepartmentId` is truthy: neither `null` nor `0` |
| ComputerTableState.ExportSource | src/components/Tables/DataTable.tsx:391 | `isFiltered ? checkedComputer : computers` |
| ComputerTableState.SectionParamNeedsDepartment | src/components/Tables/DataTable.tsx:537-555 | while the cascade holds (a truthy department id only with a truthy department filter), a query with a section filter also has a department filter |
| ComputerTableState.ComputerTable.constructor | src/components/Tables/DataTable.tsx:51-66 | the initial state: initial filters, empty search, offset 0, 50 rows, no department, nothing loaded |
| ComputerTableState.ComputerTable.LoadFilterOptions | src/components/Tables/DataTable.tsx:86-93 | the catalog's departments are stored |
| ComputerTableState.ComputerTable.DepartmentSelect | src/components/Tables/DataTable.tsx:292-304 | sets the department filter, clears the section filter, stores the first matching department's id or none, returns to offset 0; the cascade holds afterwards unless the name is empty and its department opens the section menu |
| ComputerTableState.ComputerTable.DepartmentSelectGuarded | src/components/Tables/DataTable.tsx:292-304 | the corrected select: as `handleDepartmentSelect`, but a falsy name opens no section menu, so the cascade always holds |
| ComputerTableState.ComputerTable.LoadSections | src/components/Tables/DataTable.tsx:306-323 | no truthy department id, no sections; otherwise the fetched sections, or none when the request fails |
| ComputerTableState.ComputerTable.SectionSelect | src/components/Tables/DataTable.tsx:326-335 | sets the section filter only; the cascade is kept while the section menu is enabled |
| ComputerTableState.ComputerTable.TypeSelect | src/components/Tables/DataTable.tsx:337-346 | sets the type filter only |
| ComputerTableState.ComputerTable.IpSelect | src/components/Tables/DataTable.tsx:348-357 | sets the IP filter only (no control in the component calls `handleIpSelect`: no overlay panel is bound to `ipOverlay`) |
| ComputerTableState.ComputerTable.DateSelect | src/components/Tables/DataTable.tsx:362-375 | sets the history date filter to the day with DATE_IS |
| ComputerTableState.ComputerTable.UserSelect | src/components/Tables/DataTable.tsx:378-384 | sets the history user filter only |
| ComputerTableState.ComputerTable.OnSearch | src/components/Tables/DataTable.tsx:409-414 | stores the typed text and returns to offset 0 |
| ComputerTableState.ComputerTable.OnPage | src/components/Tables/DataTable.tsx:764-767 | stores the paginator's offset and page size |
| ComputerTableState.ComputerTable.ClearFilter | src/components/Tables/DataTable.tsx:416-429 | the field becomes `null` with CONTAINS; clearing the department also clears the section filter, the id and the section list |
| ComputerTableState.ComputerTable.ResetAllFilters | src/components/Tables/DataTable.tsx:432-445 | as written: filters, search and offset return to their initial values; the department id and section list are kept (no control in the component calls `resetAllFilters`) |
| ComputerTableState.ComputerTable.ResetAllFiltersScoped | src/components/Tables/DataTable.tsx:432-445 | the corrected reset: also clears the department id and section list, so the cascade holds and the section menu is disabled |
| ComputerTableState.ComputerTable.BuildQueryParams | src/components/Tables/DataTable.tsx:155-195 | the appended pairs are exactly `Query.Query` of the current state, and so have every property proved about it |
| ComputerTableState.ComputerTable.PickSectionFromMenu | src/components/Tables/DataTable.tsx:537-555 | an entry of the section list can be picked only while a department id is truthy; picking it sets the section filter to its raw name |
| ComputerTableState.ComputerTable.AdoptChecked | src/components/Tables/DataTable.tsx:96-104 | a non-empty preselected set is shown sorted by department; an empty one empties the table |
| ComputerTableState.ComputerTable.ShowPreselected | src/components/Tables/DataTable.tsx:117-128 | the filtered-mode rows and total are the page of the sorted preselected set |
| ComputerTableState.ComputerTable.ShowListing | src/components/Tables/DataTable.tsx:132-140 | a non-empty response is shown sorted by department, with the server's count; an empty one shows nothing with total 0 |
| ComputerTableState.ComputerTable.ListingEffect | src/components/Tables/DataTable.tsx:117-144 | filtered mode shows the page of the preselected set and requests nothing; live mode sends the query of the current state and shows the response, while a failed request leaves the table unchanged |
| ComputerTableState.ComputerTable.HandleExportToExcel | src/components/Tables/DataTable.tsx:386-407 | nothing is exported exactly when the source set is empty; otherwise the filename is the mode's and the count is the set's size, and the CSV reads back as the table of that set |
| ComputerTableState.ResetThenPickSection | src/components/Tables/DataTable.tsx:432-445 | after a reset as written, the still-open section menu yields a query with a section filter and no department filter |
| ComputerTableState.ScopedResetThenPickSection | src/components/Tables/DataTable.tsx:432-445 | after the corrected reset, the same steps send no section filter |
| ComputerTableState.EmptyNameThenPickSection | src/components/Tables/DataTable.tsx:481-486 | picking a catalog department named "" from the department menu and then one of its sections yields a query with a section filter and no department filter |
| ComputerTableState.GuardedEmptyNameThenPickSection | src/components/Tables/DataTable.tsx:481-486 | with the guarded select, the same steps send no section filter |

## Left out

- The file download (Blob, object URL, the link click at excelExport.ts:104-120) and the date in the file name: browser I/O.
- Toast notifications, `console.error` logging and the `isExporting` and `loading` flags: they have no effect on the modelled state.
- The exception path of `handleExportToExcel`/`exportToExcel` (lines 401-403 and 121-124): cell conversion never throws in the model.
- The 300 ms debounce of the search text: timing. The query is built from the search text passed in.
- The network requests and the order in which their responses arrive. Responses are parameters of `LoadFilterOptions`, `LoadSections` and `ShowListing`, and a failed listing request leaves the state as it was.
- The `/get-mac/` effect (lines 146-153), the delete modal and `deleteCompData`, and the JSX rendering apart from the section menu guard: outside the table's filtering, paging and export logic.
- `URLSearchParams.toString()` percent-encoding: the query is modelled as its list of pairs.
- `Ordering.ExtractPrefix`: `parseInt` is exact in the model, not limited to 2^53.
- `ComputerTableState.ComputerTable.DateSelect`: takes the already converted `Date`. The conversion of a picked value or an unparsable string by `new Date(e.value)` is left out.
- `isoDay` and `Locale`: date formatting (`toISOString`, `toLocaleDateString`, `toLocaleString`) is a parameter.
- `localeLe`: the `localeCompare` collation is a parameter, assumed to be a total preorder only where ordering is proved. `Sorting.Sort` is a stable insertion sort; the engine's sort algorithm is not modelled, only its result for a consistent comparator.
- Filter values are typed as text or date (`Filters.WellTyped`); `IFilterField.value: any` (DataTable.tsx:20-23) can hold other types.
- `ComputerTableState.ComputerTable.BuildQueryParams`: each `if (…) params.append(…)` is written as the append of zero or one pair.

## Findings

| source | as written | input that shows it | evidently intended | confidence | as-written member | corrected member |
|---|---|---|---|---|---|---|
| src/components/Tables/DataTable.tsx:432-445 | `resetAllFilters` resets the filter record, the search and the offset, but keeps `selectedDepartmentId` and `sectionOptions`. The section menu (lines 537-555) stays enabled with the old department's sections. No control in the component calls `resetAllFilters`, so the defect is latent: it shows once a reset control is wired to it. | Select department "1-цех" (id 7), load its section "ОТК", reset all filters, then pick "ОТК" from the menu: the next query has `section=ОТК` and no `department`. | Reset also clears the department id and the section list, as `clearFilter('departament.name')` does (lines 422-426). A section filter then only appears with a department filter, provided the chosen department's name is non-empty (see the next row). | medium (latent: no caller), not executed | ComputerTableState.ComputerTable.ResetAllFilters, ComputerTableState.ResetThenPickSection | ComputerTableState.ComputerTable.ResetAllFiltersScoped, ComputerTableState.ScopedResetThenPickSection, ComputerTableState.SectionParamNeedsDepartment |
| src/components/Tables/DataTable.tsx:292-304 | `handleDepartmentSelect` stores the id of the department found by name even when that name is `''`. The filter value `''` is falsy and is never sent (line 158), but the truthy id opens the section menu (lines 537-555). | The catalog holds department `{id: 5, name: ''}`; pick it from the department menu (lines 481-486), load its section "ОТК", pick "ОТК": the next query has `section=ОТК` and no `department`. | The section menu opens only for a department whose filter is sent, so that a section filter always comes with a department filter. | low (needs a catalog department with an empty name), not executed | ComputerTableState.ComputerTable.DepartmentSelect, ComputerTableState.EmptyNameThenPickSection | ComputerTableState.ComputerTable.DepartmentSelectGuarded, ComputerTableState.GuardedEmptyNameThenPickSection, ComputerTableState.SectionParamNeedsDepartment |
