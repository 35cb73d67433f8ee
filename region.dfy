/** RegionModel: a region found by its code, its name and page link, and the
    yearly averages of both indices for it. */
module Region {
  import opened Php
  import opened EntityStore
  import IndexTables

  /** `['title' => UF_YEAR, 'min', 'max', 'val' => UF_VALUE]` */
  datatype AverageValue = AverageValue(title: int, min: int, max: int, val: Field)

  /** getRegion: the first section of the regions block whose code is
      `regionCode`, or none (`[]`). */
  function FindRegion(db: Store, regionCode: string): (r: Option<RegionSection>)
    ensures r.None? <==> forall s :: s in db.regions ==> AsString(s.code) != regionCode
    ensures r.Some? ==> r.value in db.regions && AsString(r.value.code) == regionCode
  {
    First(db.regions, (s: RegionSection) => AsString(s.code) == regionCode)
  }

  /** getIndexId: the `ID` of the first index row with the code, or null when
      there is none; an `ID` of 0 is returned as it is. */
  function RegionIndexId(db: Store, code: string): (r: Option<int>)
    ensures r.None? <==> forall row :: row in db.indexes ==> row.hlCode != code
    ensures r.Some? ==> exists row :: row in db.indexes && row.hlCode == code && row.id == r.value
  {
    match First(db.indexes, (row: IndexRow) => row.hlCode == code)
    case None => None
    case Some(row) => Some(row.id)
  }

  /** `$this->region['ID']`: null when the region was not found. */
  function RegionId(region: Option<RegionSection>): (r: Option<int>)
    ensures r.None? <==> region.None?
    ensures region.Some? ==> r == Some(region.value.id)
  {
    match region
    case None => None
    case Some(s) => Some(s.id)
  }

  /** The filter of getAverageValuesResultObject: the region and the index,
      every year; a null filter value matches no row, since the rows' id
      columns are never null. */
  predicate IsAverage(a: RegionAverageRow, regionId: Option<int>, index: Option<int>) {
    Matches(a.region, regionId) && Matches(a.index, index)
  }

  /** getAverageValuesResultObject: the region's average rows of the index
      with the code, in table order. */
  function AverageRows(db: Store, region: Option<RegionSection>, indexCode: string): (r: seq<RegionAverageRow>)
    ensures forall a :: a in r <==> a in db.regionAverages && IsAverage(a, RegionId(region), RegionIndexId(db, indexCode))
  {
    var regionId := RegionId(region);
    var index := RegionIndexId(db, indexCode);
    Select(db.regionAverages, (a: RegionAverageRow) => IsAverage(a, regionId, index))
  }

  class RegionModel {
    /** `$this->region`, fixed by the constructor. */
    const region: Option<RegionSection>

    /** `new RegionModel($regionCode)` and byCode */
    constructor (db: Store, regionCode: string)
      ensures region == FindRegion(db, regionCode)
    {
      region := FindRegion(db, regionCode);
    }

    /** getName: the region's name, or '' when it is empty or there is no region. */
    function GetName(): (r: string)
      ensures r == "" <==> region.None? || Empty(region.value.name)
      ensures r != "" ==> region.Some? && region.value.name == Str(r)
    {
      match region
      case None => OrEmpty(Null)
      case Some(s) => OrEmpty(s.name)
    }

    /** getLink: the region's code followed by '/', or '' when the code is
        empty or there is no region. */
    function GetLink(): (r: string)
      ensures r == "" <==> region.None? || Empty(region.value.code)
      ensures r != "" ==> 2 <= |r| && r[|r| - 1] == '/' && region.Some? && region.value.code == Str(r[..|r| - 1])
    {
      match region
      case None => ""
      case Some(s) => if !Empty(s.code) then s.code.s + "/" else ""
    }

    /** The fetch loop shared by the two average getters: one entry per row,
        titled by its year, with the given bounds and the raw value. */
    method LoadAverageValues(db: Store, indexCode: string, min: int, max: int) returns (averageValues: seq<AverageValue>)
      ensures var rows := AverageRows(db, region, indexCode);
        && |averageValues| == |rows|
        && forall i :: 0 <= i < |rows| ==> averageValues[i] == AverageValue(rows[i].year, min, max, rows[i].value)
    {
      var rows := AverageRows(db, region, indexCode);
      averageValues := [];
      var i := 0;
      while i < |rows|
        invariant 0 <= i <= |rows|
        invariant |averageValues| == i
        invariant forall j :: 0 <= j < i ==> averageValues[j] == AverageValue(rows[j].year, min, max, rows[j].value)
      {
        averageValues := averageValues + [AverageValue(rows[i].year, min, max, rows[i].value)];
        i := i + 1;
      }
    }

    /** getSubjectiveIndexAverageValues: the subjective index's averages, on a 0 to 1 scale. */
    method GetSubjectiveIndexAverageValues(db: Store) returns (averageValues: seq<AverageValue>)
      ensures var rows := AverageRows(db, region, "SubjectiveIndex");
        && |averageValues| == |rows|
        && forall i :: 0 <= i < |rows| ==> averageValues[i] == AverageValue(rows[i].year, 0, 1, rows[i].value)
    {
      averageValues := LoadAverageValues(db, "SubjectiveIndex", 0, 1);
    }

    /** getStatisticalIndexAverageValues: the statistical index's averages, on a -1 to 1 scale. */
    method GetStatisticalIndexAverageValues(db: Store) returns (averageValues: seq<AverageValue>)
      ensures var rows := AverageRows(db, region, "StatisticalIndex");
        && |averageValues| == |rows|
        && forall i :: 0 <= i < |rows| ==> averageValues[i] == AverageValue(rows[i].year, -1, 1, rows[i].value)
    {
      averageValues := LoadAverageValues(db, "StatisticalIndex", -1, 1);
    }
  }

  // ---------------------------------------------------------------------
  // Properties

  /** A region code no section carries gives no region: an empty name, an
      empty link and no averages of any index. */
  lemma UnknownRegion(db: Store, regionCode: string, indexCode: string)
    requires forall s :: s in db.regions ==> AsString(s.code) != regionCode
    ensures FindRegion(db, regionCode).None?
    ensures AverageRows(db, FindRegion(db, regionCode), indexCode) == []
  {
  }

  /** An index code no index row carries filters on null and so gives no
      averages, whatever the region. */
  lemma UnknownIndex(db: Store, region: Option<RegionSection>, indexCode: string)
    requires forall row :: row in db.indexes ==> row.hlCode != indexCode
    ensures AverageRows(db, region, indexCode) == []
  {
  }

  /** Wherever the index models find an index, the region model finds the
      same one; the two differ only on a first row whose `ID` is 0. */
  lemma SameIndexAsIndexModels(db: Store, code: string)
    ensures IndexTables.IndexId(db, code).Some? ==> RegionIndexId(db, code) == IndexTables.IndexId(db, code)
    ensures RegionIndexId(db, code).Some? && RegionIndexId(db, code).value != 0 ==> RegionIndexId(db, code) == IndexTables.IndexId(db, code)
  {
  }

  /** The link is the code of the region with '/' added: dropping the last
      character gives back the code. */
  lemma LinkRoundTrip(m: RegionModel)
    requires m.region.Some? && !Empty(m.region.value.code)
    ensures m.GetLink() == AsString(m.region.value.code) + "/"
    ensures Str(m.GetLink()[..|m.GetLink()| - 1]) == m.region.value.code
  {
  }

  /** The averages are the rows of the found region, whatever their year:
      every entry comes from a row of the region and the index. */
  lemma AveragesOfRegion(db: Store, region: Option<RegionSection>, indexCode: string, a: RegionAverageRow)
    requires a in AverageRows(db, region, indexCode)
    ensures region.Some? && a.region == region.value.id
    ensures exists row :: row in db.indexes && row.hlCode == indexCode && row.id == a.index
  {
  }
}
