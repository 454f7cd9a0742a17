/**
  The filter state of the inventory table (`filters`, src/components/Tables/DataTable.tsx:106-115):
  one field per filter key, each a value and a match mode. The keys of that object are
  `global`, `departament.name`, `section.name`, `type_compyuter.name`, `ipadresss`, `user`,
  `history_date` and `history_user`.
 */
module Filters {
  import opened Wrappers

  datatype MatchMode = Contains | DateIs

  /** A calendar value picked in the date filter; its rendering as text is left to a parameter. */
  datatype Date = Date(millis: int)

  /** The filter values the handlers store: a string, or a date for `history_date`. */
  datatype FilterValue = Text(text: string) | Day(day: Date)

  datatype FilterField = FilterField(value: Option<FilterValue>, mode: MatchMode)

  datatype FilterKey = Global | Department | Section | ComputerType | Ip | User | HistoryDate | HistoryUser

  /** JavaScript truthiness of a filter value: `null` and `''` are false, a `Date` is true. */
  predicate Active(f: FilterField) {
    match f.value
    case None => false
    case Some(Text(s)) => s != ""
    case Some(Day(_)) => true
  }

  /** What `clearFilter` writes: `{value: null, matchMode: CONTAINS}`. */
  const Unset: FilterField := FilterField(None, Contains)

  datatype FilterState = FilterState(
    global: FilterField,
    department: FilterField,
    section: FilterField,
    computerType: FilterField,
    ip: FilterField,
    user: FilterField,
    historyDate: FilterField,
    historyUser: FilterField)
  {
    function Get(k: FilterKey): FilterField {
      match k
      case Global => global
      case Department => department
      case Section => section
      case ComputerType => computerType
      case Ip => ip
      case User => user
      case HistoryDate => historyDate
      case HistoryUser => historyUser
    }

    /** `{...prev, [k]: v}` */
    function With(k: FilterKey, v: FilterField): (r: FilterState)
      ensures r.Get(k) == v
      ensures forall k' :: k' != k ==> r.Get(k') == Get(k')
    {
      match k
      case Global => this.(global := v)
      case Department => this.(department := v)
      case Section => this.(section := v)
      case ComputerType => this.(computerType := v)
      case Ip => this.(ip := v)
      case User => this.(user := v)
      case HistoryDate => this.(historyDate := v)
      case HistoryUser => this.(historyUser := v)
    }
  }

  /** The initial state, which `resetAllFilters` also restores. */
  function InitialFilters(): (f: FilterState)
    ensures f.Get(Global) == FilterField(Some(Text("")), Contains)
    ensures f.Get(HistoryDate) == FilterField(None, DateIs)
    ensures forall k :: k != Global && k != HistoryDate ==> f.Get(k) == Unset
    ensures forall k :: !Active(f.Get(k))
  {
    FilterState(
      FilterField(Some(Text("")), Contains), Unset, Unset, Unset, Unset, Unset,
      FilterField(None, DateIs), Unset)
  }

  /** Text filters hold text, the date filter holds a date: what every handler stores. */
  predicate WellTyped(f: FilterState) {
    && (forall k :: k != HistoryDate && f.Get(k).value.Some? ==> f.Get(k).value.value.Text?)
    && (f.historyDate.value.Some? ==> f.historyDate.value.value.Day?)
  }

  lemma InitialWellTyped()
    ensures WellTyped(InitialFilters())
  {
  }
}
