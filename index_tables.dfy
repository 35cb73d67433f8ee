/** The reads that SubjectiveIndexModel and StatisticalIndexModel share line
    for line, differing only in the `UF_HL_CODE` of their index: the index id,
    the domain list, and the region and domain averages. */
module IndexTables {
  import opened Php
  import opened EntityStore

  /** `['id' => …, 'name' => …, 'icon' => …]` */
  datatype Domain = Domain(id: int, name: Field, icon: string)

  /** `['id' => UF_DOMEN, 'value' => UF_VALUE]` */
  datatype DomainAverage = DomainAverage(id: int, value: Field)

  /** getIndexId: the ID of the first index row (in `UF_SORT` order) with the
      given code, or nothing (`''`) when there is none or its ID is empty. */
  function IndexId(db: Store, code: string): (r: Option<int>)
    ensures r.Some? ==> r.value != 0 && exists row :: row in db.indexes && row.hlCode == code && row.id == r.value
    ensures (forall row :: row in db.indexes ==> row.hlCode != code) ==> r.None?
  {
    match First(db.indexes, (row: IndexRow) => row.hlCode == code)
    case None => None
    case Some(row) => if row.id != 0 then Some(row.id) else None
  }

  /** `(!empty($file)) ? \CFile::GetPath($file) : ''`, with the file-path
      resolver passed in as `getPath`. */
  function Icon(file: Field, getPath: Field -> string): (r: string)
    ensures Empty(file) ==> r == ""
    ensures !Empty(file) ==> r == getPath(file)
  {
    if !Empty(file) then getPath(file) else ""
  }

  /** The domain rows of an index, in `UF_SORT` order. */
  function DomainsOf(db: Store, index: Option<int>): (r: seq<DomainRow>)
    ensures forall d :: d in r <==> d in db.domains && Matches(d.index, index)
  {
    Select(db.domains, (d: DomainRow) => Matches(d.index, index))
  }

  /** getDomains: one entry per domain of the index, in `UF_SORT` order, whose
      icon is the file's path, or '' when the domain has no file. */
  method LoadDomains(db: Store, code: string, getPath: Field -> string) returns (domains: seq<Domain>)
    ensures var rows := DomainsOf(db, IndexId(db, code));
      && |domains| == |rows|
      && forall i :: 0 <= i < |rows| ==>
           && domains[i].id == rows[i].id && domains[i].name == rows[i].name
           && (Empty(rows[i].file) ==> domains[i].icon == "")
           && (!Empty(rows[i].file) ==> domains[i].icon == getPath(rows[i].file))
  {
    var rows := DomainsOf(db, IndexId(db, code));
    domains := [];
    var i := 0;
    while i < |rows|
      invariant 0 <= i <= |rows|
      invariant |domains| == i
      invariant forall j :: 0 <= j < i ==> domains[j] == Domain(rows[j].id, rows[j].name, Icon(rows[j].file, getPath))
    {
      domains := domains + [Domain(rows[i].id, rows[i].name, Icon(rows[i].file, getPath))];
      i := i + 1;
    }
  }

  predicate IsRegionAverage(a: RegionAverageRow, regionId: int, index: Option<int>, year: int) {
    a.region == regionId && Matches(a.index, index) && a.year == year
  }

  /** getAverageValuesForRegion: the value of the first row (in descending
      `ID` order) for the region, the index and the year, or '' when there is
      no such row or its value is empty. */
  function RegionAverage(db: Store, code: string, regionId: int, year: int): (r: string)
    ensures r != "" ==> !Empty(Str(r)) && exists a :: (a in db.regionAverages
      && IsRegionAverage(a, regionId, IndexId(db, code), year) && a.value == Str(r))
    ensures (forall a :: a in db.regionAverages ==> !IsRegionAverage(a, regionId, IndexId(db, code), year)) ==> r == ""
    ensures (exists a :: a in db.regionAverages && IsRegionAverage(a, regionId, IndexId(db, code), year)) ==>
      exists a :: (a in db.regionAverages && IsRegionAverage(a, regionId, IndexId(db, code), year) && r == OrEmpty(a.value))
  {
    var index := IndexId(db, code);
    match First(db.regionAverages, (a: RegionAverageRow) => IsRegionAverage(a, regionId, index, year))
    case None => OrEmpty(Null)
    case Some(a) => OrEmpty(a.value)
  }

  /** With the rows in descending `ID` order, the region average is the value
      of the matching row with the highest ID: the latest row inserted for
      that region, index and year wins. */
  lemma LatestRowWins(db: Store, code: string, regionId: int, year: int, other: RegionAverageRow)
    requires IdsDescending(db.regionAverages)
    requires other in db.regionAverages && IsRegionAverage(other, regionId, IndexId(db, code), year)
    ensures exists best :: (best in db.regionAverages && IsRegionAverage(best, regionId, IndexId(db, code), year)
      && other.id <= best.id && RegionAverage(db, code, regionId, year) == OrEmpty(best.value))
  {
    var index := IndexId(db, code);
    var p := (a: RegionAverageRow) => IsRegionAverage(a, regionId, index, year);
    var j :| 0 <= j < |db.regionAverages| && db.regionAverages[j] == other;
    FirstIsEarliest(db.regionAverages, p, j);
    var i :| 0 <= i <= j && db.regionAverages[i] == First(db.regionAverages, p).value;
    var best := db.regionAverages[i];
    assert other.id <= best.id;
  }

  predicate IsDomainAverage(a: DomainAverageRow, regionId: int, index: Option<int>, year: int) {
    a.region == regionId && Matches(a.index, index) && a.year == year
  }

  /** The domain-average rows for the region, the index and the year, in descending `ID` order. */
  function DomainAverageRows(db: Store, code: string, regionId: int, year: int): (r: seq<DomainAverageRow>)
    ensures forall a :: a in r <==> a in db.domainAverages && IsDomainAverage(a, regionId, IndexId(db, code), year)
  {
    var index := IndexId(db, code);
    Select(db.domainAverages, (a: DomainAverageRow) => IsDomainAverage(a, regionId, index, year))
  }

  /** getAverageValuesForDomains: one `{id: UF_DOMEN, value}` per matching row,
      in row order, with the raw value and no filtering. */
  method LoadDomainAverages(db: Store, code: string, regionId: int, year: int) returns (values: seq<DomainAverage>)
    ensures var rows := DomainAverageRows(db, code, regionId, year);
      && |values| == |rows|
      && forall i :: 0 <= i < |rows| ==> values[i].id == rows[i].domain && values[i].value == rows[i].value
  {
    var rows := DomainAverageRows(db, code, regionId, year);
    values := [];
    var i := 0;
    while i < |rows|
      invariant 0 <= i <= |rows|
      invariant |values| == i
      invariant forall j :: 0 <= j < i ==> values[j] == DomainAverage(rows[j].domain, rows[j].value)
    {
      values := values + [DomainAverage(rows[i].domain, rows[i].value)];
      i := i + 1;
    }
  }
}
