/**
  The query of the listing request (`buildQueryParams`, src/components/Tables/DataTable.tsx:155-195),
  as the ordered `(key, value)` pairs appended to the `URLSearchParams`. Percent-encoding by
  `toString()` is left out; `isoDay` stands for `new Date(v).toISOString().slice(0, 10)`.
 */
module Query {
  import opened Wrappers
  import opened Decimal
  import opened Filters

  /** The keys of the listing query; `Name` gives the text sent. */
  datatype ParamKey =
    | PDepartment | PSection | PType | PIp | PUser | PHistoryDate | PHistoryUser
    | PSearch | PPage | PPageSize

  function Name(p: ParamKey): string {
    match p
    case PDepartment => "department"
    case PSection => "section"
    case PType => "type"
    case PIp => "ip"
    case PUser => "user"
    case PHistoryDate => "history_date"
    case PHistoryUser => "history_user"
    case PSearch => "search"
    case PPage => "page"
    case PPageSize => "page_size"
  }

  /** Position of a key in the canonical order of the listing query. */
  function Rank(p: ParamKey): (r: nat)
    ensures r < 10
  {
    match p
    case PDepartment => 0
    case PSection => 1
    case PType => 2
    case PIp => 3
    case PUser => 4
    case PHistoryDate => 5
    case PHistoryUser => 6
    case PSearch => 7
    case PPage => 8
    case PPageSize => 9
  }

  /** Distinct keys are sent as distinct texts. */
  lemma NameInjective(a: ParamKey, b: ParamKey)
    requires Name(a) == Name(b)
    ensures a == b
  {
    assert |Name(a)| == |Name(b)| && Name(a)[0] == Name(b)[0];
    if a.PHistoryDate? || a.PHistoryUser? || b.PHistoryDate? || b.PHistoryUser? {
      assert Name(a)[8] == Name(b)[8];
    }
    if a.PPage? || a.PPageSize? || b.PPage? || b.PPageSize? {
      assert |Name(a)| == |Name(b)|;
    }
  }

  type Pair = (ParamKey, string)

  /** The query key of a filter; `global` is never sent. */
  function ParamOf(k: FilterKey): ParamKey
    requires k != Global
  {
    match k
    case Department => PDepartment
    case Section => PSection
    case ComputerType => PType
    case Ip => PIp
    case User => PUser
    case HistoryDate => PHistoryDate
    case HistoryUser => PHistoryUser
  }

  lemma ParamOfInjective(a: FilterKey, b: FilterKey)
    requires a != Global && b != Global
    requires ParamOf(a) == ParamOf(b)
    ensures a == b
  {
  }

  /** The text a filter value is sent as. */
  function ParamText(v: FilterValue, isoDay: Date -> string): string {
    match v
    case Text(s) => s
    case Day(d) => isoDay(d)
  }

  /** The pair appended for a filter field under query key `p` (`if (field.value)
      params.append(p, …)`): one when the value is truthy, none otherwise. */
  function PairOf(field: FilterField, p: ParamKey, isoDay: Date -> string): seq<Pair> {
    if Active(field) then [(p, ParamText(field.value.value, isoDay))] else []
  }

  /** The filter pairs, appended in the order of lines 158-185. */
  function FilterPairs(f: FilterState, isoDay: Date -> string): seq<Pair> {
    PairOf(f.department, PDepartment, isoDay) + PairOf(f.section, PSection, isoDay)
    + PairOf(f.computerType, PType, isoDay) + PairOf(f.ip, PIp, isoDay) + PairOf(f.user, PUser, isoDay)
    + PairOf(f.historyDate, PHistoryDate, isoDay) + PairOf(f.historyUser, PHistoryUser, isoDay)
  }

  function SearchPairs(search: string): seq<Pair> {
    if search != "" then [(PSearch, search)] else []
  }

  /** `Math.floor(first / rows) + 1`: the 1-based page holding row `first`. */
  function PageNumber(first: nat, rows: nat): (p: nat)
    requires rows > 0
    ensures p >= 1 && (p - 1) * rows <= first < p * rows
  {
    first / rows + 1
  }

  function PagePairs(first: nat, rows: nat): seq<Pair>
    requires rows > 0
  {
    [(PPage, NatToString(PageNumber(first, rows))), (PPageSize, NatToString(rows))]
  }

  /** The whole query for a filter state, debounced search text and paginator state. */
  function Query(f: FilterState, search: string, first: nat, rows: nat, isoDay: Date -> string): seq<Pair>
    requires rows > 0
  {
    FilterPairs(f, isoDay) + SearchPairs(search) + PagePairs(first, rows)
  }

  predicate HasKey(q: seq<Pair>, p: ParamKey) {
    exists i :: 0 <= i < |q| && q[i].0 == p
  }

  /** Every pair with key `p` carries the value `v`. */
  predicate CarriesValue(q: seq<Pair>, p: ParamKey, v: string) {
    forall i :: 0 <= i < |q| && q[i].0 == p ==> q[i].1 == v
  }

  /** Keys strictly ascend in the canonical order (so none repeats). */
  predicate StrictlyRanked(q: seq<Pair>) {
    forall i, j :: 0 <= i < j < |q| ==> Rank(q[i].0) < Rank(q[j].0)
  }

  predicate RanksBetween(q: seq<Pair>, lo: nat, hi: nat) {
    forall i :: 0 <= i < |q| ==> lo <= Rank(q[i].0) <= hi
  }

  /** One conditional append holds at most one pair, under its own key. */
  lemma PairOfRanked(field: FilterField, p: ParamKey, isoDay: Date -> string)
    ensures StrictlyRanked(PairOf(field, p, isoDay))
    ensures RanksBetween(PairOf(field, p, isoDay), Rank(p), Rank(p))
  {
  }

  lemma PairOfShape(field: FilterField, p: ParamKey, isoDay: Date -> string, key: ParamKey, v: string)
    ensures HasKey(PairOf(field, p, isoDay), key) <==> Active(field) && p == key
    ensures p != key ==> CarriesValue(PairOf(field, p, isoDay), key, v)
    ensures Active(field) && v == ParamText(field.value.value, isoDay) ==> CarriesValue(PairOf(field, p, isoDay), key, v)
  {
    if Active(field) {
      assert PairOf(field, p, isoDay)[0].0 == p;
    }
  }

  /** The filter pairs have strictly ascending keys among department … history_user. */
  lemma FilterPairsOrdered(f: FilterState, isoDay: Date -> string)
    ensures RanksBetween(FilterPairs(f, isoDay), 0, 6)
    ensures StrictlyRanked(FilterPairs(f, isoDay))
  {
    var a1 := PairOf(f.department, PDepartment, isoDay);
    var a2 := a1 + PairOf(f.section, PSection, isoDay);
    var a3 := a2 + PairOf(f.computerType, PType, isoDay);
    var a4 := a3 + PairOf(f.ip, PIp, isoDay);
    var a5 := a4 + PairOf(f.user, PUser, isoDay);
    var a6 := a5 + PairOf(f.historyDate, PHistoryDate, isoDay);
    var a7 := a6 + PairOf(f.historyUser, PHistoryUser, isoDay);
    PairOfRanked(f.department, PDepartment, isoDay);
    PairOfRanked(f.section, PSection, isoDay);
    PairOfRanked(f.computerType, PType, isoDay);
    PairOfRanked(f.ip, PIp, isoDay);
    PairOfRanked(f.user, PUser, isoDay);
    PairOfRanked(f.historyDate, PHistoryDate, isoDay);
    PairOfRanked(f.historyUser, PHistoryUser, isoDay);
    ConcatRanked(a1, PairOf(f.section, PSection, isoDay), 0, 0, 1);
    ConcatRanked(a2, PairOf(f.computerType, PType, isoDay), 0, 1, 2);
    ConcatRanked(a3, PairOf(f.ip, PIp, isoDay), 0, 2, 3);
    ConcatRanked(a4, PairOf(f.user, PUser, isoDay), 0, 3, 4);
    ConcatRanked(a5, PairOf(f.historyDate, PHistoryDate, isoDay), 0, 4, 5);
    ConcatRanked(a6, PairOf(f.historyUser, PHistoryUser, isoDay), 0, 5, 6);
    assert a7 == FilterPairs(f, isoDay);
  }

  /** A filter's key is among the filter pairs exactly when its value is truthy, and then every
      pair under that key carries the value's text. */
  lemma FilterPairsMember(f: FilterState, isoDay: Date -> string, k: FilterKey)
    requires k != Global
    ensures HasKey(FilterPairs(f, isoDay), ParamOf(k)) <==> Active(f.Get(k))
    ensures Active(f.Get(k)) ==>
      CarriesValue(FilterPairs(f, isoDay), ParamOf(k), ParamText(f.Get(k).value.value, isoDay))
  {
    var p := ParamOf(k);
    var v := if Active(f.Get(k)) then ParamText(f.Get(k).value.value, isoDay) else "";
    PairOfShape(f.department, PDepartment, isoDay, p, v);
    PairOfShape(f.section, PSection, isoDay, p, v);
    PairOfShape(f.computerType, PType, isoDay, p, v);
    PairOfShape(f.ip, PIp, isoDay, p, v);
    PairOfShape(f.user, PUser, isoDay, p, v);
    PairOfShape(f.historyDate, PHistoryDate, isoDay, p, v);
    PairOfShape(f.historyUser, PHistoryUser, isoDay, p, v);
    var a1 := PairOf(f.department, PDepartment, isoDay);
    var a2 := a1 + PairOf(f.section, PSection, isoDay);
    var a3 := a2 + PairOf(f.computerType, PType, isoDay);
    var a4 := a3 + PairOf(f.ip, PIp, isoDay);
    var a5 := a4 + PairOf(f.user, PUser, isoDay);
    var a6 := a5 + PairOf(f.historyDate, PHistoryDate, isoDay);
    var a7 := a6 + PairOf(f.historyUser, PHistoryUser, isoDay);
    ConcatHasKey(a1, PairOf(f.section, PSection, isoDay), p);
    ConcatHasKey(a2, PairOf(f.computerType, PType, isoDay), p);
    ConcatHasKey(a3, PairOf(f.ip, PIp, isoDay), p);
    ConcatHasKey(a4, PairOf(f.user, PUser, isoDay), p);
    ConcatHasKey(a5, PairOf(f.historyDate, PHistoryDate, isoDay), p);
    ConcatHasKey(a6, PairOf(f.historyUser, PHistoryUser, isoDay), p);
    ConcatCarriesValue(a1, PairOf(f.section, PSection, isoDay), p, v);
    ConcatCarriesValue(a2, PairOf(f.computerType, PType, isoDay), p, v);
    ConcatCarriesValue(a3, PairOf(f.ip, PIp, isoDay), p, v);
    ConcatCarriesValue(a4, PairOf(f.user, PUser, isoDay), p, v);
    ConcatCarriesValue(a5, PairOf(f.historyDate, PHistoryDate, isoDay), p, v);
    ConcatCarriesValue(a6, PairOf(f.historyUser, PHistoryUser, isoDay), p, v);
    assert a7 == FilterPairs(f, isoDay);
  }

  lemma ConcatHasKey(a: seq<Pair>, b: seq<Pair>, p: ParamKey)
    ensures HasKey(a + b, p) <==> HasKey(a, p) || HasKey(b, p)
  {
    if HasKey(a + b, p) {
      var i :| 0 <= i < |a + b| && (a + b)[i].0 == p;
      if i >= |a| { assert b[i - |a|] == (a + b)[i]; }
    }
    if HasKey(a, p) {
      var i :| 0 <= i < |a| && a[i].0 == p;
      assert (a + b)[i] == a[i];
    }
    if HasKey(b, p) {
      var i :| 0 <= i < |b| && b[i].0 == p;
      assert (a + b)[i + |a|] == b[i];
    }
  }

  lemma ConcatCarriesValue(a: seq<Pair>, b: seq<Pair>, p: ParamKey, v: string)
    ensures CarriesValue(a + b, p, v) <==> CarriesValue(a, p, v) && CarriesValue(b, p, v)
  {
    if CarriesValue(a, p, v) && CarriesValue(b, p, v) {
      forall i | 0 <= i < |a + b| && (a + b)[i].0 == p ensures (a + b)[i].1 == v {
        if i >= |a| { assert b[i - |a|] == (a + b)[i]; }
      }
    }
    if CarriesValue(a + b, p, v) {
      forall i | 0 <= i < |a| && a[i].0 == p ensures a[i].1 == v {
        assert (a + b)[i] == a[i];
      }
      forall i | 0 <= i < |b| && b[i].0 == p ensures b[i].1 == v {
        assert (a + b)[i + |a|] == b[i];
      }
    }
  }

  lemma ConcatRanked(a: seq<Pair>, b: seq<Pair>, lo: nat, mid: nat, hi: nat)
    requires StrictlyRanked(a) && StrictlyRanked(b)
    requires RanksBetween(a, lo, mid) && RanksBetween(b, mid + 1, hi) && lo <= mid <= hi
    ensures StrictlyRanked(a + b) && RanksBetween(a + b, lo, hi)
  {
    var q := a + b;
    forall i, j | 0 <= i < j < |q| ensures Rank(q[i].0) < Rank(q[j].0) {
      if j < |a| {
        assert q[i] == a[i] && q[j] == a[j];
      } else if i < |a| {
        assert q[i] == a[i] && q[j] == b[j - |a|];
      } else {
        assert q[i] == b[i - |a|] && q[j] == b[j - |a|];
      }
    }
    forall i | 0 <= i < |q| ensures lo <= Rank(q[i].0) <= hi {
      if i < |a| { assert q[i] == a[i]; } else { assert q[i] == b[i - |a|]; }
    }
  }

  lemma OutOfRange(q: seq<Pair>, lo: nat, hi: nat, p: ParamKey, v: string)
    requires RanksBetween(q, lo, hi)
    requires Rank(p) < lo || Rank(p) > hi
    ensures !HasKey(q, p) && CarriesValue(q, p, v)
  {
  }

  /** Every key occurs at most once and in the order department, section, type, ip, user,
      history_date, history_user, search, page, page_size; the query always ends with
      page then page_size. */
  lemma QueryInCanonicalOrder(f: FilterState, search: string, first: nat, rows: nat, isoDay: Date -> string)
    requires rows > 0
    ensures |Query(f, search, first, rows, isoDay)| >= 2
    ensures StrictlyRanked(Query(f, search, first, rows, isoDay))
    ensures var q := Query(f, search, first, rows, isoDay); q[|q| - 2].0 == PPage && q[|q| - 1].0 == PPageSize
  {
    var fp := FilterPairs(f, isoDay);
    var sp := SearchPairs(search);
    var pp := PagePairs(first, rows);
    FilterPairsOrdered(f, isoDay);
    ConcatRanked(sp, pp, 7, 7, 9);
    ConcatRanked(fp, sp + pp, 0, 6, 9);
    assert Query(f, search, first, rows, isoDay) == fp + (sp + pp);
  }

  /** A filter's key is in the query exactly when its value is truthy, with that value's text. */
  lemma QueryFilterParam(f: FilterState, search: string, first: nat, rows: nat, isoDay: Date -> string, k: FilterKey)
    requires rows > 0
    requires k != Global
    ensures HasKey(Query(f, search, first, rows, isoDay), ParamOf(k)) <==> Active(f.Get(k))
    ensures Active(f.Get(k)) ==>
      CarriesValue(Query(f, search, first, rows, isoDay), ParamOf(k), ParamText(f.Get(k).value.value, isoDay))
  {
    var fp, sp, pp := FilterPairs(f, isoDay), SearchPairs(search), PagePairs(first, rows);
    var p := ParamOf(k);
    var v := if Active(f.Get(k)) then ParamText(f.Get(k).value.value, isoDay) else "";
    FilterPairsMember(f, isoDay, k);
    OutOfRange(sp, 7, 7, p, v);
    OutOfRange(pp, 8, 9, p, v);
    assert Query(f, search, first, rows, isoDay) == fp + (sp + pp);
    ConcatHasKey(sp, pp, p);
    ConcatHasKey(fp, sp + pp, p);
    ConcatCarriesValue(sp, pp, p, v);
    ConcatCarriesValue(fp, sp + pp, p, v);
  }

  /** `search` is in the query exactly when the search text is non-empty, with that text. */
  lemma QuerySearchParam(f: FilterState, search: string, first: nat, rows: nat, isoDay: Date -> string)
    requires rows > 0
    ensures HasKey(Query(f, search, first, rows, isoDay), PSearch) <==> search != ""
    ensures CarriesValue(Query(f, search, first, rows, isoDay), PSearch, search)
  {
    var fp := FilterPairs(f, isoDay);
    var sp := SearchPairs(search);
    var pp := PagePairs(first, rows);
    FilterPairsOrdered(f, isoDay);
    OutOfRange(fp, 0, 6, PSearch, search);
    OutOfRange(pp, 8, 9, PSearch, search);
    assert Query(f, search, first, rows, isoDay) == fp + (sp + pp);
    ConcatHasKey(sp, pp, PSearch);
    ConcatHasKey(fp, sp + pp, PSearch);
    ConcatCarriesValue(sp, pp, PSearch, search);
    ConcatCarriesValue(fp, sp + pp, PSearch, search);
    if search != "" { assert sp[0].0 == PSearch; }
  }

  /** The page pair carries the decimal numeral of the 1-based page holding row `first`,
      and the page_size pair the numeral of `rows`. */
  lemma QueryPaging(f: FilterState, search: string, first: nat, rows: nat, isoDay: Date -> string)
    requires rows > 0
    ensures var q := Query(f, search, first, rows, isoDay);
      && |q| >= 2
      && AllDigits(q[|q| - 2].1) && AllDigits(q[|q| - 1].1)
      && DigitsValue(q[|q| - 2].1) == first / rows + 1
      && (DigitsValue(q[|q| - 2].1) - 1) * rows <= first < DigitsValue(q[|q| - 2].1) * rows
      && DigitsValue(q[|q| - 1].1) == rows
  {
    var q := Query(f, search, first, rows, isoDay);
    assert q[|q| - 2] == (PPage, NatToString(PageNumber(first, rows)));
    assert q[|q| - 1] == (PPageSize, NatToString(rows));
    NatToStringRoundTrip(PageNumber(first, rows));
    NatToStringRoundTrip(rows);
  }
}
