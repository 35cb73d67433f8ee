# ahml.api models in Dafny

This project models the three model classes of the `ahml.api` Bitrix module.
They serve the regional index pages.

- `SubjectiveIndexModel` reads the survey questions of a domain. It pivots each question's answer options against the percentages recorded for a region, or for each of the region's municipalities, in a year.
- `StatisticalIndexModel` reads the result types of the statistical index. Each result type gets the indicators of the domain that have a value for the region and year.
- `RegionModel` finds a region by its code. It gives the region's name, its page link and the yearly averages of both indices.

Every table the classes query is an input sequence of rows (`EntityStore.Store`), in the order of the query's `order` clause.
A query's filter is written out as a predicate, and `Fetch()` of one row is the first row that matches.
Every row of the store carries an integer in each id column it is filtered on (`UF_REGION`, `UF_INDEX`), never null.
So a filter value of `''` or `null`, which the code passes when a lookup finds nothing, matches no row; see "## Left out".

The PHP value rules the code relies on are modelled in `Php`:

- `empty()` treats null, `""` and `"0"` as empty.
- Concatenating null gives `""`.
- An associative array (`PArray`) keeps its keys in first-write order.
- Overwriting a key keeps its position.
- `unset` followed by `array_values` re-indexes the remaining values in order.

The loops that build arrays are methods with loop invariants, proved against specification functions.
The properties the code promises are lemmas about those functions.

Modules and files:

- `php.dfy` (`Php`): PHP value semantics and the sequence shapes the fetch loops produce.
- `entity_store.dfy` (`EntityStore`): the row types and the store.
- `index_tables.dfy` (`IndexTables`): the index lookup, the domains and the region and domain averages. Both index models have these word for word; only the index code differs.
- `answer_pivot.dfy` (`AnswerPivot`): the pivot inside `getAnswersWithValues`.
- `subjective_index.dfy` (`SubjectiveIndex`): the subjective index model.
- `statistical_index.dfy` (`StatisticalIndex`): the statistical index model.
- `region.dfy` (`Region`): the region model.

## Model

| member | source | states |
|---|---|---|
| Php.OrEmpty | local/modules/ahml.api/lib/Models/StatisticalIndexModel.php:114 | `(!empty($x)) ? $x : ''` gives `''` exactly when the cell is null, `""` or `"0"`, and otherwise the cell's own non-empty string |
| Php.Percent | local/modules/ahml.api/lib/Models/SubjectiveIndexModel.php:276 | `UF_VALUE . '%'` is the raw stored string, unchanged (null as `""`), followed by one `%` |
| Php.KeyOrder | local/modules/ahml.api/lib/Models/SubjectiveIndexModel.php:263-268 | the iteration order of an array after keys are written in turn holds each written key once and nothing else |
| Php.KeyOrderOfDistinct | local/modules/ahml.api/lib/Models/SubjectiveIndexModel.php:263-268 | keys written once each keep exactly their writing order |
| Php.PArray.Put | local/modules/ahml.api/lib/Models/SubjectiveIndexModel.php:282 | `$a[$k] = $v` keeps an existing key in place and appends a new one, changing only the value under `k` |
| Php.PArray.Unset | local/modules/ahml.api/lib/Models/SubjectiveIndexModel.php:287 | `unset($a[$k])` removes `k` and its value; the other keys keep their order |
| Php.PArray.Values | local/modules/ahml.api/lib/Models/SubjectiveIndexModel.php:290 | `array_values` lists the values re-indexed from 0 in key order |
| Php.WithoutMiddle | local/modules/ahml.api/lib/Models/SubjectiveIndexModel.php:287 | removing the one occurrence of a key from distinct keys joins what stood before and after it |
| Php.First | local/modules/ahml.api/lib/Models/SubjectiveIndexModel.php:387 | `Fetch()` gives no row exactly when no row matches the filter, and otherwise a matching row |
| Php.FirstIsEarliest | local/modules/ahml.api/lib/Models/SubjectiveIndexModel.php:383-387 | the fetched row stands at or before every other matching row |
| IndexTables.IndexId | local/modules/ahml.api/lib/Models/SubjectiveIndexModel.php:333-342 | the index id is that of a row with the code and is never 0; a code no row has gives none |
| IndexTables.Icon | local/modules/ahml.api/lib/Models/SubjectiveIndexModel.php:366 | the icon is `''` when the file cell is empty under `empty()`, and otherwise the path the file resolver gives for it; the same rule is at StatisticalIndexModel.php lines 86 and 241 |
| IndexTables.DomainsOf | local/modules/ahml.api/lib/Models/SubjectiveIndexModel.php:355-359 | the domain rows are exactly those whose `UF_INDEX` is the index id, so none when the index is not found |
| IndexTables.LoadDomains | local/modules/ahml.api/lib/Models/SubjectiveIndexModel.php:353-370 | one `{id, name, icon}` per domain row of the index, in `UF_SORT` order, icon `''` when the domain has no file and the resolved path of the file otherwise |
| IndexTables.RegionAverage | local/modules/ahml.api/lib/Models/SubjectiveIndexModel.php:381-389 | a non-empty result is the value of a row of the region, index and year; with no such row it is `''`; with one, it is the value of such a row, or `''` when that value is empty |
| IndexTables.LatestRowWins | local/modules/ahml.api/lib/Models/SubjectiveIndexModel.php:383-388 | with rows in descending `ID` order, the result is the value (or `''` when empty) of the matching row of that year whose `ID` is at least that of every other matching row |
| IndexTables.DomainAverageRows | local/modules/ahml.api/lib/Models/SubjectiveIndexModel.php:402-410 | the domain-average rows are exactly those of the region, the index and the year |
| IndexTables.LoadDomainAverages | local/modules/ahml.api/lib/Models/SubjectiveIndexModel.php:400-421 | one `{id: UF_DOMEN, value}` per matching row, in descending `ID` order, with the raw value and no filtering |
| AnswerPivot.AnswerOptions | local/modules/ahml.api/lib/Models/SubjectiveIndexModel.php:253-259 | the option rows are exactly the elements of the question's section |
| AnswerPivot.RegionFilter | local/modules/ahml.api/lib/Models/SubjectiveIndexModel.php:314 | the `UF_REGION` filter is never empty: the municipality ids when any are given, otherwise the region itself |
| AnswerPivot.AnswerValueRows | local/modules/ahml.api/lib/Models/SubjectiveIndexModel.php:308-322 | the value rows are exactly those of the listed regions, the question, the fetched options and the year |
| AnswerPivot.FetchOptions | local/modules/ahml.api/lib/Models/SubjectiveIndexModel.php:261-268 | the option loop yields the ids in fetch order and, keyed in first-write order, each id's `{txt}` from the last row with that id |
| AnswerPivot.AttachValues | local/modules/ahml.api/lib/Models/SubjectiveIndexModel.php:281-283 | after the value loop the keys are unchanged and every option holds its text and the value of its last value row, or no `val` |
| AnswerPivot.DropUnvalued | local/modules/ahml.api/lib/Models/SubjectiveIndexModel.php:285-289 | the clean-up leaves exactly the options with a `val`, in their original order, with their entries unchanged |
| AnswerPivot.FlatIsPivot | local/modules/ahml.api/lib/Models/SubjectiveIndexModel.php:290 | after the clean-up, `array_values` is the single-region pivot |
| AnswerPivot.GroupValues | local/modules/ahml.api/lib/Models/SubjectiveIndexModel.php:271-279 | the municipality branch gives the value rows grouped by region, groups in order of first appearance |
| AnswerPivot.ValuedOptions | local/modules/ahml.api/lib/Models/SubjectiveIndexModel.php:285-289 | the kept keys are exactly the given keys that some value row names |
| AnswerPivot.LastValueNone | local/modules/ahml.api/lib/Models/SubjectiveIndexModel.php:281-289 | an option has no `val` exactly when no value row names it, so a stored 0 still counts as present |
| AnswerPivot.LastValueIsLastRow | local/modules/ahml.api/lib/Models/SubjectiveIndexModel.php:281-283 | when several value rows name an option, the last one fetched gives its `val`, as raw value plus `%` |
| AnswerPivot.OptionIdsOf | local/modules/ahml.api/lib/Models/SubjectiveIndexModel.php:263-264 | `$answersId` holds exactly the ids of the fetched options |
| AnswerPivot.RegionAnswersExactly | local/modules/ahml.api/lib/Models/SubjectiveIndexModel.php:261-290 | the region's answers hold each option once, exactly the fetched options that a value row reached, each with its text and last value, never without `val` |
| AnswerPivot.RegionAnswersInSortOrder | local/modules/ahml.api/lib/Models/SubjectiveIndexModel.php:253-290 | with distinct option ids the region's answers equal the options in `SORT` order that received a value, re-indexed |
| AnswerPivot.GroupItemsAreRegionRows | local/modules/ahml.api/lib/Models/SubjectiveIndexModel.php:273-277 | a municipality's group holds one item per value row of that municipality, in row order, without deduplication, as `{title: option text, value: raw + '%'}` |
| AnswerPivot.GroupedKeys | local/modules/ahml.api/lib/Models/SubjectiveIndexModel.php:271-279 | the grouped pivot has a key exactly for each region that some value row names |
| SubjectiveIndex.QuestionsOf | local/modules/ahml.api/lib/Models/SubjectiveIndexModel.php:95-103 | the question sections are exactly those of the domain with the requested "additional" flag |
| SubjectiveIndex.SubjectiveIndexModel.constructor | local/modules/ahml.api/lib/Models/SubjectiveIndexModel.php:29-45 | `getObject` keeps the region id, the domain id and the year it is given |
| SubjectiveIndex.SubjectiveIndexModel.GetAnswersWithValues | local/modules/ahml.api/lib/Models/SubjectiveIndexModel.php:251-294 | the fetch, value, grouping and clean-up loops together give the pivot: grouped by municipality when ids are given, otherwise the region's valued options |
| SubjectiveIndex.SubjectiveIndexModel.GetQuestions | local/modules/ahml.api/lib/Models/SubjectiveIndexModel.php:94-115 | the question loop gives the domain's questions that keep answers, in fetch order, as `{qs, ans}` |
| SubjectiveIndex.QuestionsKeptOnlyWithAnswers | local/modules/ahml.api/lib/Models/SubjectiveIndexModel.php:104-114 | every emitted question has a non-empty answer list and is `{qs: NAME, ans}` of some fetched section, and there are no more questions than sections |
| SubjectiveIndex.QuestionsInFetchOrder | local/modules/ahml.api/lib/Models/SubjectiveIndexModel.php:104-114 | the emitted questions are the answered sections in fetch order, one per section, each shaped as `{qs: NAME, ans}`: filter, then shape |
| SubjectiveIndex.QuestionsWithAnswersKept | local/modules/ahml.api/lib/Models/SubjectiveIndexModel.php:104-114 | every fetched question with a non-empty answer list is emitted, which with the row above gives "kept if and only if answered" |
| SubjectiveIndex.MunicipalityRows | local/modules/ahml.api/lib/Models/SubjectiveIndexModel.php:169-175 | the municipality rows are exactly the sections whose parent is the region |
| SubjectiveIndex.SubjectiveIndexModel.GetMunicipalities | local/modules/ahml.api/lib/Models/SubjectiveIndexModel.php:166-185 | the fetch loop gives the child sections of the region, keyed by id in `SORT` order, each as `{title}` |
| SubjectiveIndex.MunicipalitiesKeyedById | local/modules/ahml.api/lib/Models/SubjectiveIndexModel.php:177-184 | with distinct section ids the keys are the child sections' ids in `SORT` order and each holds its own `{title: NAME}` |
| SubjectiveIndex.ListMunicipalities | local/modules/ahml.api/lib/Models/SubjectiveIndexModel.php:144-149 | every municipality appears once, in order, with its title and its own group as `items` |
| SubjectiveIndex.MunicipalityItems | local/modules/ahml.api/lib/Models/SubjectiveIndexModel.php:145 | a municipality's `items` is null exactly when no value row belongs to it, and otherwise is its group |
| SubjectiveIndex.SubjectiveIndexModel.GetQuestionsForMunicipalities | local/modules/ahml.api/lib/Models/SubjectiveIndexModel.php:127-155 | the question loop gives the domain's questions whose pivot is non-empty, each listing every municipality |
| SubjectiveIndex.MunicipalityQuestionsOnlyWithAnswers | local/modules/ahml.api/lib/Models/SubjectiveIndexModel.php:141-151 | every emitted question has a non-empty pivot and lists every municipality once, in order, with that question's own items |
| SubjectiveIndex.MunicipalityQuestionsInFetchOrder | local/modules/ahml.api/lib/Models/SubjectiveIndexModel.php:141-151 | the emitted questions are the sections with a non-empty pivot in fetch order, one per section, each with every municipality and its items: filter, then shape |
| SubjectiveIndex.MunicipalityQuestionsWithAnswersKept | local/modules/ahml.api/lib/Models/SubjectiveIndexModel.php:141-151 | every question with a non-empty pivot is emitted |
| SubjectiveIndex.NoMunicipalitiesFallBack | local/modules/ahml.api/lib/Models/SubjectiveIndexModel.php:142-150 | without municipalities a question is kept, with empty `data`, exactly when the region itself has answers |
| SubjectiveIndex.SubjectiveIndexModel.GetMainQuestions | local/modules/ahml.api/lib/Models/SubjectiveIndexModel.php:222-224 | the main questions are the questions with the flag unset |
| SubjectiveIndex.SubjectiveIndexModel.GetAdditionalQuestions | local/modules/ahml.api/lib/Models/SubjectiveIndexModel.php:235-237 | the additional questions are the questions with the flag set |
| SubjectiveIndex.SubjectiveIndexModel.GetMainQuestionsForMunicipalities | local/modules/ahml.api/lib/Models/SubjectiveIndexModel.php:196-198 | the same for the municipality view, flag unset |
| SubjectiveIndex.SubjectiveIndexModel.GetAdditionalQuestionsForMunicipalities | local/modules/ahml.api/lib/Models/SubjectiveIndexModel.php:209-211 | the same for the municipality view, flag set |
| SubjectiveIndex.SubjectiveIndexModel.GetDomains | local/modules/ahml.api/lib/Models/SubjectiveIndexModel.php:353-370 | the domains of the subjective index as `IndexTables.LoadDomains` gives them |
| SubjectiveIndex.SubjectiveIndexModel.GetAverageValuesForRegion | local/modules/ahml.api/lib/Models/SubjectiveIndexModel.php:381-389 | the region's subjective average for the year, or `''` when there is no row |
| SubjectiveIndex.SubjectiveIndexModel.GetAverageValuesForDomains | local/modules/ahml.api/lib/Models/SubjectiveIndexModel.php:400-421 | one `{id, value}` per domain-average row of the subjective index, in row order |
| StatisticalIndex.StatisticalIndexModel.constructor | local/modules/ahml.api/lib/Models/StatisticalIndexModel.php:27-43 | `getObject` keeps the region id, the domain id and the year it is given |
| StatisticalIndex.XmlId | local/modules/ahml.api/lib/Models/StatisticalIndexModel.php:128-135 | a non-empty xml id belongs to a row with the item's `ID`; with no such row the result is `''`; with one, it is the xml id of such a row, or `''` when that is empty |
| StatisticalIndex.IndicatorValue | local/modules/ahml.api/lib/Models/StatisticalIndexModel.php:147-158 | a non-empty value comes from a row of the region, indicator and year; with no such row it is `''`; with one, it is the value of such a row, or `''` when that value is empty |
| StatisticalIndex.ResultValue | local/modules/ahml.api/lib/Models/StatisticalIndexModel.php:104-115 | a non-empty value comes from a row of the result type, year and region; with no such row it is `''`; with one, it is the value of such a row, or `''` when that value is empty |
| StatisticalIndex.IndicatorRows | local/modules/ahml.api/lib/Models/StatisticalIndexModel.php:171-184 | the indicator elements are exactly those whose result-type and domain properties equal the two xml ids |
| StatisticalIndex.IndicatorsMatchOnXmlId | local/modules/ahml.api/lib/Models/StatisticalIndexModel.php:176-177 | when the result type or the domain has no row, only elements whose property is empty match |
| StatisticalIndex.StatisticalIndexModel.GetIndicators | local/modules/ahml.api/lib/Models/StatisticalIndexModel.php:170-197 | the element loop keeps the indicators with a non-empty value |
| StatisticalIndex.IndicatorsKeptIff | local/modules/ahml.api/lib/Models/StatisticalIndexModel.php:185-194 | an indicator is emitted, as `{rowTitle, text, value}`, exactly for an element whose value is non-empty under `empty()`, so `"0"` and `''` are dropped |
| StatisticalIndex.IndicatorsInRowOrder | local/modules/ahml.api/lib/Models/StatisticalIndexModel.php:172-194 | the kept indicators stand in the elements' `ID` order: filter, then shape |
| StatisticalIndex.StatisticalIndexModel.GetResultsWithIndicators | local/modules/ahml.api/lib/Models/StatisticalIndexModel.php:72-92 | the result-type loop keeps the types with at least one indicator |
| StatisticalIndex.ResultTypesKeptIff | local/modules/ahml.api/lib/Models/StatisticalIndexModel.php:79-90 | a result type is emitted exactly when its indicator list is non-empty |
| StatisticalIndex.ResultTypesInRowOrder | local/modules/ahml.api/lib/Models/StatisticalIndexModel.php:74-90 | the emitted result types stand in `UF_SORT` order: filter, then shape |
| StatisticalIndex.ResultTypeFields | local/modules/ahml.api/lib/Models/StatisticalIndexModel.php:82-88 | an emitted type carries its row's name and description, its average (or `''`) as `headerAside`, its icon (or `''`) and exactly its non-empty indicator list |
| StatisticalIndex.StatisticalIndexModel.GetDomains | local/modules/ahml.api/lib/Models/StatisticalIndexModel.php:228-245 | the domains of the statistical index as `IndexTables.LoadDomains` gives them |
| StatisticalIndex.StatisticalIndexModel.GetAverageValuesForRegion | local/modules/ahml.api/lib/Models/StatisticalIndexModel.php:256-264 | the region's statistical average for the year, or `''` when there is no row |
| StatisticalIndex.StatisticalIndexModel.GetAverageValuesForDomains | local/modules/ahml.api/lib/Models/StatisticalIndexModel.php:275-296 | one `{id, value}` per domain-average row of the statistical index, in row order |
| Region.FindRegion | local/modules/ahml.api/lib/Models/RegionModel.php:94-105 | the region is a section with the code, and there is none exactly when no section has that code |
| Region.RegionIndexId | local/modules/ahml.api/lib/Models/RegionModel.php:117-127 | the id is that of an index row with the code, and null exactly when no row has it |
| Region.AverageRows | local/modules/ahml.api/lib/Models/RegionModel.php:140-149 | the averages are exactly the rows of the region and of the index with the code, for every year |
| Region.RegionModel.constructor | local/modules/ahml.api/lib/Models/RegionModel.php:28-44 | `__construct` and `byCode` look the region up by its code once, with `getRegion` |
| Region.RegionId | local/modules/ahml.api/lib/Models/RegionModel.php:145 | `$this->region['ID']` is null exactly when there is no region, and otherwise the region's `ID` |
| Region.RegionModel.GetName | local/modules/ahml.api/lib/Models/RegionModel.php:156-158 | the name is `''` exactly when there is no region or its name is empty, and otherwise the stored name |
| Region.RegionModel.GetLink | local/modules/ahml.api/lib/Models/RegionModel.php:165-167 | the link is `''` exactly when there is no region or its code is empty, and otherwise the code followed by `/` |
| Region.LinkRoundTrip | local/modules/ahml.api/lib/Models/RegionModel.php:165-167 | dropping the trailing `/` from a link gives back the region's code |
| Region.RegionModel.LoadAverageValues | local/modules/ahml.api/lib/Models/RegionModel.php:180-189 | one `{title: year, min, max, val}` per average row, in fetch order, with the raw value |
| Region.RegionModel.GetSubjectiveIndexAverageValues | local/modules/ahml.api/lib/Models/RegionModel.php:178-191 | the subjective averages map one to one onto the rows, with `min = 0` and `max = 1` |
| Region.RegionModel.GetStatisticalIndexAverageValues | local/modules/ahml.api/lib/Models/RegionModel.php:202-215 | the statistical averages map one to one onto the rows, with `min = -1` and `max = 1` |
| Region.UnknownRegion | local/modules/ahml.api/lib/Models/RegionModel.php:94-105 | an unknown region code gives no region record and no averages, rather than an error (average rows always carry a region id) |
| Region.UnknownIndex | local/modules/ahml.api/lib/Models/RegionModel.php:117-149 | an index code no row has filters on null and gives no averages (average rows always carry an index id) |
| Region.SameIndexAsIndexModels | local/modules/ahml.api/lib/Models/RegionModel.php:117-127 | where the index models find an index the region model finds the same one; they differ only on a first row whose `ID` is 0 |
| Region.AveragesOfRegion | local/modules/ahml.api/lib/Models/RegionModel.php:140-149 | every average row belongs to the found region and to an index row with the requested code |

## Left out

- Table resolution is not modelled: `getHighLoadBlockClass`, `getIblockId`, `Loader::includeModule`, `HighloadBlockTable::compileEntity` and the `CIBlockElement::GetList` and `getList` calls. Each query is a given row sequence of the store, filtered as its `filter` clause states.
- The row order of a query without an `order` clause is not specified by the store. The model uses the table's order.
- `\CFile::GetPath` is a parameter `getPath`, an uninterpreted file-path resolver.
- The by-reference `foreach` at local/modules/ahml.api/lib/Models/SubjectiveIndexModel.php:144-149 is not modelled. It leaves the last municipality as a shared reference, and `array_values` copies that reference, so a later question can overwrite the last `items` of an earlier one. The model gives each question its own snapshot of `items`.
- SubjectiveIndex.ListMunicipalities: states the per-question snapshot, not the reference sharing described above.
- The controllers, the routes and the module installer are not part of this model. This includes parameter binding and response headers. `getQuestionsAction` answers both `main` and `sub` with `getMainQuestions()` (local/modules/ahml.api/lib/Controllers/SubjectiveIndexController.php:67-68); that line is not modelled.
- Bitrix exceptions are not modelled. These are store failures that have no logic of their own in these classes.
- Numeric cells (ids, years) are integers. The conversion between the store's strings and PHP integers is not modelled.
- Null id columns are not modelled. Every row carries an integer `UF_REGION` and `UF_INDEX`, so a `''` or null filter value matches no row. Bitrix's ORM would run a null filter as `IS NULL`, which would select rows whose column is null.
- Region.UnknownRegion: holds only for stores whose average rows all carry a region id, by the assumption above.
- Region.UnknownIndex: holds only for stores whose average rows all carry an index id, by the assumption above.
- A CIBlock property filter on `''` is modelled as equality with the property read as a string, so an element without the property matches it.
- An unknown region code gives an empty record, not a not-found error.
- The region's averages keep the table order and are not sorted by year.
- A municipality with no value rows gets a null `items`, which is what `$answers[$id]` gives, not an empty list.
