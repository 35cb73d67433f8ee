/** StatisticalIndexModel: the result types of the statistical index, each
    with the indicators of a domain that have a value for a region and year. */
module StatisticalIndex {
  import opened Php
  import opened EntityStore
  import IndexTables

  /** The `UF_HL_CODE` of the statistical index, also the name of its value block. */
  const TypeIndexCode := "StatisticalIndex"

  /** The two blocks getXmlId is asked about. */
  datatype XmlBlock = Results | Domains

  /** `['rowTitle' => NAME, 'text' => DETAIL_TEXT, 'value' => value]` */
  datatype Indicator = Indicator(rowTitle: string, text: Field, value: string)

  /** `['title', 'notes', 'headerAside', 'icon', 'data']` of one result type. */
  datatype ResultType = ResultType(title: Field, notes: Field, headerAside: string, icon: string, data: seq<Indicator>)

  /** `ID` and `UF_XML_ID` of a row of either block. */
  datatype XmlItem = XmlItem(id: int, xmlId: Field)

  // ---------------------------------------------------------------------
  // The single-value reads

  /** `ID` and `UF_XML_ID` of a result type row. */
  function ResultItem(t: ResultTypeRow): XmlItem {
    XmlItem(t.id, t.xmlId)
  }

  /** `ID` and `UF_XML_ID` of a domain row. */
  function DomainItem(d: DomainRow): XmlItem {
    XmlItem(d.id, d.xmlId)
  }

  function XmlItems(db: Store, block: XmlBlock): seq<XmlItem> {
    match block
    case Results => MapSeq(db.resultTypes, ResultItem)
    case Domains => MapSeq(db.domains, DomainItem)
  }

  /** getXmlId: the `UF_XML_ID` of the row with the given ID, or '' when
      there is no such row or its xml id is empty. */
  function XmlId(db: Store, itemId: int, block: XmlBlock): (r: string)
    ensures r != "" ==> !Empty(Str(r)) && XmlItem(itemId, Str(r)) in XmlItems(db, block)
    ensures (forall x :: x in XmlItems(db, block) ==> x.id != itemId) ==> r == ""
    ensures (exists x :: x in XmlItems(db, block) && x.id == itemId) ==>
      exists x :: (x in XmlItems(db, block) && x.id == itemId && r == OrEmpty(x.xmlId))
  {
    match First(XmlItems(db, block), (x: XmlItem) => x.id == itemId)
    case None => OrEmpty(Null)
    case Some(x) => OrEmpty(x.xmlId)
  }

  predicate IsIndicatorValue(v: IndicatorValueRow, regionId: int, year: int, indicatorId: int) {
    v.region == regionId && v.indicator == indicatorId && v.year == year
  }

  /** getIndicatorValue: the value of the first row for the region, the
      indicator and the year, or '' when there is none or it is empty. */
  function IndicatorValue(db: Store, regionId: int, year: int, indicatorId: int): (r: string)
    ensures r != "" ==> !Empty(Str(r)) && exists v :: (v in db.indicatorValues
      && IsIndicatorValue(v, regionId, year, indicatorId) && v.value == Str(r))
    ensures (forall v :: v in db.indicatorValues ==> !IsIndicatorValue(v, regionId, year, indicatorId)) ==> r == ""
    ensures (exists v :: v in db.indicatorValues && IsIndicatorValue(v, regionId, year, indicatorId)) ==>
      exists v :: (v in db.indicatorValues && IsIndicatorValue(v, regionId, year, indicatorId) && r == OrEmpty(v.value))
  {
    match First(db.indicatorValues, (v: IndicatorValueRow) => IsIndicatorValue(v, regionId, year, indicatorId))
    case None => OrEmpty(Null)
    case Some(v) => OrEmpty(v.value)
  }

  predicate IsResultValue(a: ResultTypeAverageRow, regionId: int, year: int, resultId: int) {
    a.resultType == resultId && a.year == year && a.region == regionId
  }

  /** getResultValue: the average of the result type for the region and the
      year, or '' when there is none or it is empty. */
  function ResultValue(db: Store, regionId: int, year: int, resultId: int): (r: string)
    ensures r != "" ==> !Empty(Str(r)) && exists a :: (a in db.resultTypeAverages
      && IsResultValue(a, regionId, year, resultId) && a.value == Str(r))
    ensures (forall a :: a in db.resultTypeAverages ==> !IsResultValue(a, regionId, year, resultId)) ==> r == ""
    ensures (exists a :: a in db.resultTypeAverages && IsResultValue(a, regionId, year, resultId)) ==>
      exists a :: (a in db.resultTypeAverages && IsResultValue(a, regionId, year, resultId) && r == OrEmpty(a.value))
  {
    match First(db.resultTypeAverages, (a: ResultTypeAverageRow) => IsResultValue(a, regionId, year, resultId))
    case None => OrEmpty(Null)
    case Some(a) => OrEmpty(a.value)
  }

  // ---------------------------------------------------------------------
  // The indicators of a result type

  /** The element filter of getIndicators: its two properties equal the xml
      ids of the result type and of the domain. */
  predicate MatchesXml(e: IndicatorElement, resultTypeXml: string, domainXml: string) {
    AsString(e.resultType) == resultTypeXml && AsString(e.domain) == domainXml
  }

  /** The indicator elements of the result type and the domain, in `ID` order. */
  function IndicatorRows(db: Store, domainId: int, typeResultId: int): (r: seq<IndicatorElement>)
    ensures forall e :: e in r <==>
      e in db.indicators && MatchesXml(e, XmlId(db, typeResultId, Results), XmlId(db, domainId, Domains))
  {
    var resultTypeXml := XmlId(db, typeResultId, Results);
    var domainXml := XmlId(db, domainId, Domains);
    Select(db.indicators, (e: IndicatorElement) => MatchesXml(e, resultTypeXml, domainXml))
  }

  /** The fetch loop of getIndicators over the elements `rows`, each indicator
      getting the value `valueOf` gives its ID. */
  function KeepValued(rows: seq<IndicatorElement>, valueOf: int -> string): seq<Indicator> {
    if rows == [] then []
    else
      var e := rows[|rows| - 1];
      KeepValued(rows[..|rows| - 1], valueOf)
        + (if !Empty(Str(valueOf(e.id))) then [Indicator(e.name, e.detailText, valueOf(e.id))] else [])
  }

  /** What getIndicatorValue gives each indicator ID. */
  function IndicatorLookup(db: Store, regionId: int, year: int): int -> string {
    (id: int) => IndicatorValue(db, regionId, year, id)
  }

  /** getIndicators */
  function Indicators(db: Store, regionId: int, domainId: int, year: int, typeResultId: int): seq<Indicator> {
    KeepValued(IndicatorRows(db, domainId, typeResultId), IndicatorLookup(db, regionId, year))
  }

  // ---------------------------------------------------------------------
  // The result types

  /** The fetch loop of getResultsWithIndicators over the result types
      `rows`, each getting the indicators `dataOf` and the average `headerOf`
      give its ID. */
  function KeepWithIndicators(rows: seq<ResultTypeRow>, dataOf: int -> seq<Indicator>, headerOf: int -> string,
                              getPath: Field -> string): seq<ResultType>
  {
    if rows == [] then []
    else
      var t := rows[|rows| - 1];
      KeepWithIndicators(rows[..|rows| - 1], dataOf, headerOf, getPath)
        + (if dataOf(t.id) != [] then [ResultEntry(t, dataOf, headerOf, getPath)] else [])
  }

  /** The entry of a result type. */
  function ResultEntry(t: ResultTypeRow, dataOf: int -> seq<Indicator>, headerOf: int -> string,
                       getPath: Field -> string): ResultType
  {
    ResultType(t.name, t.description, headerOf(t.id), IndexTables.Icon(t.file, getPath), dataOf(t.id))
  }

  function IndicatorsLookup(db: Store, regionId: int, domainId: int, year: int): int -> seq<Indicator> {
    (id: int) => Indicators(db, regionId, domainId, year, id)
  }

  function ResultValueLookup(db: Store, regionId: int, year: int): int -> string {
    (id: int) => ResultValue(db, regionId, year, id)
  }

  /** getResultsWithIndicators */
  function ResultsWithIndicators(db: Store, regionId: int, domainId: int, year: int, getPath: Field -> string): seq<ResultType> {
    KeepWithIndicators(db.resultTypes, IndicatorsLookup(db, regionId, domainId, year), ResultValueLookup(db, regionId, year), getPath)
  }

  // ---------------------------------------------------------------------
  // One more row

  lemma KeepValuedAt(rows: seq<IndicatorElement>, valueOf: int -> string, i: nat)
    requires i < |rows|
    ensures KeepValued(rows[..i + 1], valueOf) == KeepValued(rows[..i], valueOf)
      + (if !Empty(Str(valueOf(rows[i].id))) then [Indicator(rows[i].name, rows[i].detailText, valueOf(rows[i].id))] else [])
  {
    assert rows[..i + 1][..i] == rows[..i];
  }

  lemma KeepWithIndicatorsAt(rows: seq<ResultTypeRow>, dataOf: int -> seq<Indicator>, headerOf: int -> string,
                             getPath: Field -> string, i: nat)
    requires i < |rows|
    ensures KeepWithIndicators(rows[..i + 1], dataOf, headerOf, getPath) == KeepWithIndicators(rows[..i], dataOf, headerOf, getPath)
      + (if dataOf(rows[i].id) != [] then [ResultEntry(rows[i], dataOf, headerOf, getPath)] else [])
  {
    assert rows[..i + 1][..i] == rows[..i];
  }

  // ---------------------------------------------------------------------
  // The model

  class StatisticalIndexModel {
    const regionId: int
    const domainId: int
    const year: int

    /** getObject */
    constructor (regionId: int, domainId: int, year: int)
      ensures this.regionId == regionId && this.domainId == domainId && this.year == year
    {
      this.regionId := regionId;
      this.domainId := domainId;
      this.year := year;
    }

    /** getIndicators: the indicators of the result type and the domain, in
        `ID` order, that have a non-empty value. */
    method GetIndicators(db: Store, typeResultId: int) returns (indicators: seq<Indicator>)
      ensures indicators == Indicators(db, regionId, domainId, year, typeResultId)
    {
      var rows := IndicatorRows(db, domainId, typeResultId);
      indicators := [];
      var i := 0;
      while i < |rows|
        invariant 0 <= i <= |rows|
        invariant indicators == KeepValued(rows[..i], IndicatorLookup(db, regionId, year))
      {
        var indicatorValue := IndicatorValue(db, regionId, year, rows[i].id);
        KeepValuedAt(rows, IndicatorLookup(db, regionId, year), i);
        if !Empty(Str(indicatorValue)) {
          indicators := indicators + [Indicator(rows[i].name, rows[i].detailText, indicatorValue)];
        }
        i := i + 1;
      }
      assert rows[..i] == rows;
    }

    /** getResultsWithIndicators: the result types in `UF_SORT` order that
        keep at least one indicator. */
    method GetResultsWithIndicators(db: Store, getPath: Field -> string) returns (typeResults: seq<ResultType>)
      ensures typeResults == ResultsWithIndicators(db, regionId, domainId, year, getPath)
    {
      var rows := db.resultTypes;
      ghost var dataOf := IndicatorsLookup(db, regionId, domainId, year);
      ghost var headerOf := ResultValueLookup(db, regionId, year);
      typeResults := [];
      var i := 0;
      while i < |rows|
        invariant 0 <= i <= |rows|
        invariant typeResults == KeepWithIndicators(rows[..i], dataOf, headerOf, getPath)
      {
        var row := rows[i];
        var indicators := GetIndicators(db, row.id);
        KeepWithIndicatorsAt(rows, dataOf, headerOf, getPath, i);
        if indicators != [] {
          typeResults := typeResults + [ResultType(row.name, row.description, ResultValue(db, regionId, year, row.id),
                                                   IndexTables.Icon(row.file, getPath), indicators)];
        }
        i := i + 1;
      }
      assert rows[..i] == rows;
    }

    /** getDomains: one entry per domain of the statistical index, in `UF_SORT` order. */
    method GetDomains(db: Store, getPath: Field -> string) returns (domains: seq<IndexTables.Domain>)
      ensures var rows := IndexTables.DomainsOf(db, IndexTables.IndexId(db, TypeIndexCode));
        && |domains| == |rows|
        && forall i :: 0 <= i < |rows| ==>
             && domains[i].id == rows[i].id && domains[i].name == rows[i].name
             && (Empty(rows[i].file) ==> domains[i].icon == "")
             && (!Empty(rows[i].file) ==> domains[i].icon == getPath(rows[i].file))
    {
      domains := IndexTables.LoadDomains(db, TypeIndexCode, getPath);
    }

    /** getAverageValuesForRegion */
    function GetAverageValuesForRegion(db: Store): (r: string)
      ensures r != "" ==> !Empty(Str(r)) && exists a :: (a in db.regionAverages
        && IndexTables.IsRegionAverage(a, regionId, IndexTables.IndexId(db, TypeIndexCode), year) && a.value == Str(r))
      ensures (forall a :: a in db.regionAverages ==>
        !IndexTables.IsRegionAverage(a, regionId, IndexTables.IndexId(db, TypeIndexCode), year)) ==> r == ""
      ensures (exists a :: (a in db.regionAverages
        && IndexTables.IsRegionAverage(a, regionId, IndexTables.IndexId(db, TypeIndexCode), year))) ==>
        exists a :: (a in db.regionAverages
          && IndexTables.IsRegionAverage(a, regionId, IndexTables.IndexId(db, TypeIndexCode), year) && r == OrEmpty(a.value))
    {
      IndexTables.RegionAverage(db, TypeIndexCode, regionId, year)
    }

    /** getAverageValuesForDomains */
    method GetAverageValuesForDomains(db: Store) returns (values: seq<IndexTables.DomainAverage>)
      ensures var rows := IndexTables.DomainAverageRows(db, TypeIndexCode, regionId, year);
        && |values| == |rows|
        && forall i :: 0 <= i < |rows| ==> values[i].id == rows[i].domain && values[i].value == rows[i].value
    {
      values := IndexTables.LoadDomainAverages(db, TypeIndexCode, regionId, year);
    }
  }

  // ---------------------------------------------------------------------
  // Properties

  /** getIndicators emits an indicator exactly for each element whose value is
      non-empty under PHP `empty()` (so "0" is dropped), as
      `{rowTitle: NAME, text: DETAIL_TEXT, value}`. */
  lemma {:induction false} IndicatorsKeptIff(rows: seq<IndicatorElement>, valueOf: int -> string)
    ensures var r := KeepValued(rows, valueOf);
      && |r| <= |rows|
      && forall x :: x in r <==> exists e :: (e in rows && !Empty(Str(valueOf(e.id)))
           && x == Indicator(e.name, e.detailText, valueOf(e.id)))
  {
    if rows != [] {
      var p := rows[..|rows| - 1];
      var e := rows[|rows| - 1];
      assert rows == p + [e];
      IndicatorsKeptIff(p, valueOf);
      forall x ensures x in KeepValued(rows, valueOf) <==> exists e' :: (e' in rows && !Empty(Str(valueOf(e'.id)))
        && x == Indicator(e'.name, e'.detailText, valueOf(e'.id)))
      {
        if x in KeepValued(rows, valueOf) && x !in KeepValued(p, valueOf) {
          assert e in rows;
        }
        if e' :| e' in rows && !Empty(Str(valueOf(e'.id))) && x == Indicator(e'.name, e'.detailText, valueOf(e'.id)) {
          if e' != e {
            assert e' in p;
          }
        }
      }
    }
  }

  /** Whether an element's value is kept. */
  function Valued(valueOf: int -> string): IndicatorElement -> bool {
    (e: IndicatorElement) => !Empty(Str(valueOf(e.id)))
  }

  /** An element shaped as its indicator. */
  function AsIndicator(valueOf: int -> string): IndicatorElement -> Indicator {
    (e: IndicatorElement) => Indicator(e.name, e.detailText, valueOf(e.id))
  }

  /** The kept indicators stand in the order of their elements: filtering the
      elements on a non-empty value and then shaping them gives the same list. */
  lemma {:induction false} IndicatorsInRowOrder(rows: seq<IndicatorElement>, valueOf: int -> string)
    ensures KeepValued(rows, valueOf) == MapSeq(Select(rows, Valued(valueOf)), AsIndicator(valueOf))
  {
    if rows != [] {
      var p := rows[..|rows| - 1];
      var e := rows[|rows| - 1];
      assert rows == p + [e];
      IndicatorsInRowOrder(p, valueOf);
      SelectSnoc(p, e, Valued(valueOf));
      var s := Select(p, Valued(valueOf));
      if Valued(valueOf)(e) {
        MapSeqSnoc(s, e, AsIndicator(valueOf));
      }
    }
  }

  /** getResultsWithIndicators emits a result type exactly when it keeps at
      least one indicator, with its name, description, average, icon and
      exactly those indicators. */
  lemma {:induction false} ResultTypesKeptIff(rows: seq<ResultTypeRow>, dataOf: int -> seq<Indicator>, headerOf: int -> string,
                                              getPath: Field -> string)
    ensures var r := KeepWithIndicators(rows, dataOf, headerOf, getPath);
      && |r| <= |rows|
      && forall x :: x in r <==> exists t :: (t in rows && dataOf(t.id) != [] && x == ResultEntry(t, dataOf, headerOf, getPath))
  {
    if rows != [] {
      var p := rows[..|rows| - 1];
      var t := rows[|rows| - 1];
      assert rows == p + [t];
      ResultTypesKeptIff(p, dataOf, headerOf, getPath);
      forall x ensures x in KeepWithIndicators(rows, dataOf, headerOf, getPath)
        <==> exists t' :: (t' in rows && dataOf(t'.id) != [] && x == ResultEntry(t', dataOf, headerOf, getPath))
      {
        if x in KeepWithIndicators(rows, dataOf, headerOf, getPath) && x !in KeepWithIndicators(p, dataOf, headerOf, getPath) {
          assert t in rows;
        }
        if t' :| t' in rows && dataOf(t'.id) != [] && x == ResultEntry(t', dataOf, headerOf, getPath) {
          if t' != t {
            assert t' in p;
          }
        }
      }
    }
  }

  /** Whether a result type is kept. */
  function HasIndicators(dataOf: int -> seq<Indicator>): ResultTypeRow -> bool {
    (t: ResultTypeRow) => dataOf(t.id) != []
  }

  /** A result type shaped as its entry. */
  function AsEntry(dataOf: int -> seq<Indicator>, headerOf: int -> string, getPath: Field -> string): ResultTypeRow -> ResultType {
    (t: ResultTypeRow) => ResultEntry(t, dataOf, headerOf, getPath)
  }

  /** The emitted result types stand in `UF_SORT` order: filtering the types
      on having indicators and then shaping them gives the same list. */
  lemma {:induction false} ResultTypesInRowOrder(rows: seq<ResultTypeRow>, dataOf: int -> seq<Indicator>, headerOf: int -> string,
                                                 getPath: Field -> string)
    ensures KeepWithIndicators(rows, dataOf, headerOf, getPath)
      == MapSeq(Select(rows, HasIndicators(dataOf)), AsEntry(dataOf, headerOf, getPath))
  {
    if rows != [] {
      var p := rows[..|rows| - 1];
      var t := rows[|rows| - 1];
      var f := AsEntry(dataOf, headerOf, getPath);
      assert rows == p + [t];
      ResultTypesInRowOrder(p, dataOf, headerOf, getPath);
      SelectSnoc(p, t, HasIndicators(dataOf));
      var s := Select(p, HasIndicators(dataOf));
      if HasIndicators(dataOf)(t) {
        MapSeqSnoc(s, t, f);
      }
    }
  }

  /** Every emitted result type comes from a type row: its title and notes
      are the row's name and description, `headerAside` is the type's average
      for the region and year (or ''), `icon` the file's path (or ''), and
      `data` the type's non-empty list of indicators. */
  lemma ResultTypeFields(db: Store, regionId: int, domainId: int, year: int, getPath: Field -> string, x: ResultType)
    requires x in ResultsWithIndicators(db, regionId, domainId, year, getPath)
    ensures exists t :: (t in db.resultTypes
      && x.title == t.name && x.notes == t.description
      && x.headerAside == ResultValue(db, regionId, year, t.id)
      && x.icon == (if Empty(t.file) then "" else getPath(t.file))
      && x.data == Indicators(db, regionId, domainId, year, t.id) && x.data != [])
  {
    ResultTypesKeptIff(db.resultTypes, IndicatorsLookup(db, regionId, domainId, year), ResultValueLookup(db, regionId, year), getPath);
  }

  /** Indicators are matched on xml ids: when either xml id is missing, only
      elements whose property is empty as well match. */
  lemma IndicatorsMatchOnXmlId(db: Store, domainId: int, typeResultId: int, e: IndicatorElement)
    requires e in IndicatorRows(db, domainId, typeResultId)
    ensures (forall x :: x in XmlItems(db, Results) ==> x.id != typeResultId) ==> AsString(e.resultType) == ""
    ensures (forall x :: x in XmlItems(db, Domains) ==> x.id != domainId) ==> AsString(e.domain) == ""
  {
  }
}
