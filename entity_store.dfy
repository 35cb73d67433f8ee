/** The tables the models read. Each table is the sequence of rows the store
    returns for it, in the order of the `order` clause the models query it
    with (a query without an order clause may see the rows in any order, so
    the same sequence serves it too). Only the columns the models select or
    filter on are kept. */
module EntityStore {
  import opened Php

  /** A section of the `questions` information block: a survey question. */
  datatype QuestionSection = QuestionSection(id: int, name: string, domain: int, additional: bool)

  /** An element of the `questions` information block: an answer option,
      filed under its question's section. Rows are in `SORT` order. */
  datatype AnswerElement = AnswerElement(id: int, name: string, question: int)

  /** A row of the `SubjectiveIndex` block: the percentage that chose an
      answer option, for one region and year. */
  datatype AnswerValueRow = AnswerValueRow(region: int, question: int, option: int, year: int, value: Field)

  /** A section of the `regions` information block: a region, or a
      municipality when its parent is a region. Rows are in `SORT` order. */
  datatype RegionSection = RegionSection(id: int, name: Field, code: Field, parent: Option<int>)

  /** A row of the `Indexes` block. Rows are in `UF_SORT` order. */
  datatype IndexRow = IndexRow(id: int, hlCode: string)

  /** A row of the `Domains` block. Rows are in `UF_SORT` order. */
  datatype DomainRow = DomainRow(id: int, name: Field, file: Field, index: int, xmlId: Field)

  /** A row of the `AverageValuesForRegions` block. Rows are in descending `ID` order. */
  datatype RegionAverageRow = RegionAverageRow(id: int, region: int, index: int, year: int, value: Field)

  /** A row of the `AverageDomainValuesForRegions` block. Rows are in descending `ID` order. */
  datatype DomainAverageRow = DomainAverageRow(id: int, region: int, index: int, domain: int, year: int, value: Field)

  /** A row of the `Results` block: a result type. Rows are in `UF_SORT` order. */
  datatype ResultTypeRow = ResultTypeRow(id: int, name: Field, file: Field, description: Field, xmlId: Field)

  /** An element of the `indicators` information block; its two properties
      hold the xml ids of its result type and domain. Rows are in `ID` order. */
  datatype IndicatorElement = IndicatorElement(id: int, name: string, detailText: Field, resultType: Field, domain: Field)

  /** A row of the `StatisticalIndex` block: an indicator's value for one region and year. */
  datatype IndicatorValueRow = IndicatorValueRow(region: int, indicator: int, year: int, value: Field)

  /** A row of the `AverageTypeResultsValuesForRegions` block. */
  datatype ResultTypeAverageRow = ResultTypeAverageRow(resultType: int, region: int, year: int, value: Field)

  datatype Store = Store(
    questions: seq<QuestionSection>,
    answers: seq<AnswerElement>,
    answerValues: seq<AnswerValueRow>,
    regions: seq<RegionSection>,
    indexes: seq<IndexRow>,
    domains: seq<DomainRow>,
    regionAverages: seq<RegionAverageRow>,
    domainAverages: seq<DomainAverageRow>,
    resultTypes: seq<ResultTypeRow>,
    indicators: seq<IndicatorElement>,
    indicatorValues: seq<IndicatorValueRow>,
    resultTypeAverages: seq<ResultTypeAverageRow>)

  /** The rows stand in strictly descending `ID` order, as `'order' => ['ID' => 'DESC']` returns them. */
  predicate IdsDescending(rows: seq<RegionAverageRow>) {
    forall i, j :: 0 <= i < j < |rows| ==> rows[i].id > rows[j].id
  }

  /** An id column filtered on a value. Id columns are never null here, so a
      filter value that the source passes as `''` or `null` when a lookup
      found nothing matches no row. */
  predicate Matches(column: int, filter: Option<int>) {
    filter == Some(column)
  }
}
