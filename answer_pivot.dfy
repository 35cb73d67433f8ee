/** The pivot inside SubjectiveIndexModel::getAnswersWithValues: the answer
    options of a question merged with the percentages recorded for them,
    either for the region itself or grouped by municipality. */
module AnswerPivot {
  import opened Php
  import opened EntityStore

  /** An answer option as the pivot holds it: `['txt' => NAME]`, plus
      `'val'` once a value row has reached it. */
  datatype Answer = Answer(txt: string, val: Option<string>)

  /** `['title' => option text, 'value' => UF_VALUE . '%']` */
  datatype MunicipalityAnswer = MunicipalityAnswer(title: string, value: string)

  /** What getAnswersWithValues returns: the answers of the region itself,
      re-indexed, or the value rows grouped under their municipality's id. */
  datatype Answers =
    | Flat(list: seq<Answer>)
    | ByRegion(groups: PArray<int, seq<MunicipalityAnswer>>)

  // ---------------------------------------------------------------------
  // The queries

  /** The answer options filed under the question, in `SORT` order. */
  function AnswerOptions(db: Store, questionId: int): (r: seq<AnswerElement>)
    ensures forall a :: a in r <==> a in db.answers && a.question == questionId
  {
    Select(db.answers, (a: AnswerElement) => a.question == questionId)
  }

  /** `$answersId`: the option ids in fetch order. */
  function OptionIds(rows: seq<AnswerElement>): seq<int> {
    MapSeq(rows, OptionId)
  }

  function OptionId(a: AnswerElement): int {
    a.id
  }

  /** `UF_REGION` filter: the municipality ids when there are any, else the region itself. */
  function RegionFilter(regionId: int, municipalityIds: seq<int>): (r: seq<int>)
    ensures r != []
    ensures municipalityIds != [] ==> r == municipalityIds
    ensures municipalityIds == [] ==> r == [regionId]
  {
    if |municipalityIds| > 0 then municipalityIds else [regionId]
  }

  predicate IsAnswerValue(v: AnswerValueRow, regions: seq<int>, questionId: int, options: seq<int>, year: int) {
    v.region in regions && v.question == questionId && v.option in options && v.year == year
  }

  /** getAnswerValue: the value rows of the question for those regions,
      options and year, in table order. */
  function AnswerValueRows(db: Store, regions: seq<int>, questionId: int, options: seq<int>, year: int)
    : (r: seq<AnswerValueRow>)
    ensures forall v :: v in r <==> v in db.answerValues && IsAnswerValue(v, regions, questionId, options, year)
  {
    Select(db.answerValues, (v: AnswerValueRow) => IsAnswerValue(v, regions, questionId, options, year))
  }

  // ---------------------------------------------------------------------
  // The pivot, stated on the fetched rows

  /** The text under option `k` after the fetch loop: the name of the last row with that id. */
  function LastName(rows: seq<AnswerElement>, k: int): string {
    LastWrite(rows, OptionId, OptionText, k, "")
  }

  function OptionText(a: AnswerElement): string {
    a.name
  }

  /** `'val'` under option `k` after the value loop: the last value row of
      that option, as raw value . '%', or unset. */
  function LastValue(values: seq<AnswerValueRow>, k: int): Option<string> {
    LastWrite(values, ValueOption, PercentValue, k, None)
  }

  function ValueOption(v: AnswerValueRow): int {
    v.option
  }

  function PercentValue(v: AnswerValueRow): Option<string> {
    Some(Percent(v.value))
  }

  /** The options among `keys` that some value row reached, in the order of `keys`. */
  function ValuedOptions(keys: seq<int>, values: seq<AnswerValueRow>): (r: seq<int>)
    ensures forall k :: k in r <==> k in keys && LastValue(values, k).Some?
  {
    if keys == [] then []
    else
      var p := keys[..|keys| - 1];
      var k := keys[|keys| - 1];
      assert forall x :: x in keys <==> x in p || x == k by {
        assert keys == p + [k];
      }
      ValuedOptions(p, values) + (if LastValue(values, k).Some? then [k] else [])
  }

  /** Keeping some of distinct keys leaves them distinct. */
  lemma {:induction false} ValuedOptionsDistinct(keys: seq<int>, values: seq<AnswerValueRow>)
    requires Distinct(keys)
    ensures Distinct(ValuedOptions(keys, values))
  {
    if keys != [] {
      var p := keys[..|keys| - 1];
      assert Distinct(p);
      assert keys[|keys| - 1] !in p;
      ValuedOptionsDistinct(p, values);
    }
  }

  /** The answer under each of `keys`, in order. */
  function AnswersFor(rows: seq<AnswerElement>, values: seq<AnswerValueRow>, keys: seq<int>): seq<Answer> {
    MapSeq(keys, AnswerUnder(rows, values))
  }

  /** The answer under option `k`: its text and its last value. */
  function AnswerUnder(rows: seq<AnswerElement>, values: seq<AnswerValueRow>): int -> Answer {
    (k: int) => Answer(LastName(rows, k), LastValue(values, k))
  }

  /** The answers of the region itself: every option a value row reached,
      once, in fetch order, with its text and its last value. */
  function FlatPivot(rows: seq<AnswerElement>, values: seq<AnswerValueRow>): seq<Answer> {
    AnswersFor(rows, values, ValuedOptions(KeyOrder(OptionIds(rows)), values))
  }

  /** The group of region `k`: one item per value row of that region, in row order. */
  function GroupItems(rows: seq<AnswerElement>, values: seq<AnswerValueRow>, k: int): seq<MunicipalityAnswer> {
    if values == [] then []
    else
      var v := values[|values| - 1];
      GroupItems(rows, values[..|values| - 1], k)
        + (if v.region == k then [MunicipalityAnswer(LastName(rows, v.option), Percent(v.value))] else [])
  }

  /** The `UF_REGION` of each value row, in row order. */
  function ValueRegions(values: seq<AnswerValueRow>): seq<int> {
    MapSeq(values, ValueRegion)
  }

  function ValueRegion(v: AnswerValueRow): int {
    v.region
  }

  /** The value rows grouped by region, groups in order of first appearance. */
  function GroupedPivot(rows: seq<AnswerElement>, values: seq<AnswerValueRow>): (r: PArray<int, seq<MunicipalityAnswer>>)
    ensures r.Valid()
  {
    PArray(KeyOrder(ValueRegions(values)), map k | k in ValueRegions(values) :: GroupItems(rows, values, k))
  }

  /** getAnswersWithValues for the region itself. */
  function RegionAnswers(db: Store, regionId: int, year: int, questionId: int): seq<Answer> {
    var rows := AnswerOptions(db, questionId);
    FlatPivot(rows, AnswerValueRows(db, [regionId], questionId, OptionIds(rows), year))
  }

  /** The value rows of the question for the municipalities. */
  function MunicipalityValueRows(db: Store, year: int, questionId: int, municipalityIds: seq<int>): seq<AnswerValueRow> {
    AnswerValueRows(db, municipalityIds, questionId, OptionIds(AnswerOptions(db, questionId)), year)
  }

  /** getAnswersWithValues: grouped by municipality when municipality ids are given, else flat. */
  function AnswersWithValues(db: Store, regionId: int, year: int, questionId: int, municipalityIds: seq<int>): Answers {
    if |municipalityIds| > 0 then
      ByRegion(GroupedPivot(AnswerOptions(db, questionId), MunicipalityValueRows(db, year, questionId, municipalityIds)))
    else
      Flat(RegionAnswers(db, regionId, year, questionId))
  }

  /** PHP `empty()` on the returned array. */
  predicate NoAnswers(a: Answers) {
    match a
    case Flat(list) => list == []
    case ByRegion(groups) => groups.keys == []
  }

  // ---------------------------------------------------------------------
  // One more row

  lemma OptionIdsSnoc(rows: seq<AnswerElement>, x: AnswerElement)
    ensures OptionIds(rows + [x]) == OptionIds(rows) + [x.id]
  {
    MapSeqSnoc(rows, x, OptionId);
  }

  lemma LastNameSnoc(rows: seq<AnswerElement>, x: AnswerElement, k: int)
    ensures LastName(rows + [x], k) == if x.id == k then x.name else LastName(rows, k)
  {
    LastWriteSnoc(rows, x, OptionId, OptionText, k, "");
  }

  lemma LastValueSnoc(values: seq<AnswerValueRow>, v: AnswerValueRow, k: int)
    ensures LastValue(values + [v], k) == if v.option == k then Some(Percent(v.value)) else LastValue(values, k)
  {
    LastWriteSnoc(values, v, ValueOption, PercentValue, k, None);
  }

  lemma ValuedOptionsSnoc(keys: seq<int>, k: int, values: seq<AnswerValueRow>)
    ensures ValuedOptions(keys + [k], values) == ValuedOptions(keys, values) + (if LastValue(values, k).Some? then [k] else [])
  {
    assert (keys + [k])[..|keys|] == keys;
  }

  lemma ValueRegionsSnoc(values: seq<AnswerValueRow>, v: AnswerValueRow)
    ensures ValueRegions(values + [v]) == ValueRegions(values) + [v.region]
  {
    MapSeqSnoc(values, v, ValueRegion);
  }

  lemma GroupItemsSnoc(rows: seq<AnswerElement>, values: seq<AnswerValueRow>, v: AnswerValueRow, k: int)
    ensures GroupItems(rows, values + [v], k) == GroupItems(rows, values, k)
      + (if v.region == k then [MunicipalityAnswer(LastName(rows, v.option), Percent(v.value))] else [])
  {
    assert (values + [v])[..|values|] == values;
  }

  // ---------------------------------------------------------------------
  // The fetch loop

  /** `answers` and `answersId` as the fetch loop leaves them after `rows`. */
  ghost predicate Fetched(rows: seq<AnswerElement>, answers: PArray<int, Answer>, answersId: seq<int>) {
    && answersId == OptionIds(rows)
    && answers.Valid()
    && answers.keys == KeyOrder(answersId)
    && (forall k :: k in answers.vals ==> answers.vals[k] == Answer(LastName(rows, k), None))
  }

  lemma FetchStep(rows: seq<AnswerElement>, x: AnswerElement, answers: PArray<int, Answer>, answersId: seq<int>)
    requires Fetched(rows, answers, answersId)
    ensures Fetched(rows + [x], answers.Put(x.id, Answer(x.name, None)), answersId + [x.id])
  {
    var next := answers.Put(x.id, Answer(x.name, None));
    OptionIdsSnoc(rows, x);
    PutKeyOrder(answers, answersId, x.id, Answer(x.name, None));
    assert forall k :: k in next.vals ==> next.vals[k] == Answer(LastName(rows + [x], k), None) by {
      forall k | k in next.vals
        ensures next.vals[k] == Answer(LastName(rows + [x], k), None)
      {
        LastNameSnoc(rows, x, k);
      }
    }
  }

  lemma FetchAt(rows: seq<AnswerElement>, i: nat, answers: PArray<int, Answer>, answersId: seq<int>)
    requires i < |rows| && Fetched(rows[..i], answers, answersId)
    ensures Fetched(rows[..i + 1], answers.Put(rows[i].id, Answer(rows[i].name, None)), answersId + [rows[i].id])
  {
    assert rows[..i + 1] == rows[..i] + [rows[i]];
    FetchStep(rows[..i], rows[i], answers, answersId);
  }

  /** The fetch loop: one `['txt' => NAME]` per option id, ids in fetch order. */
  method FetchOptions(rows: seq<AnswerElement>) returns (answers: PArray<int, Answer>, answersId: seq<int>)
    ensures answersId == OptionIds(rows)
    ensures answers.Valid() && answers.keys == KeyOrder(answersId)
    ensures forall k :: k in answers.vals ==> answers.vals[k] == Answer(LastName(rows, k), None)
  {
    answers := NewArray();
    answersId := [];
    var i := 0;
    while i < |rows|
      invariant 0 <= i <= |rows|
      invariant Fetched(rows[..i], answers, answersId)
    {
      FetchAt(rows, i, answers, answersId);
      answersId := answersId + [rows[i].id];
      answers := answers.Put(rows[i].id, Answer(rows[i].name, None));
      i := i + 1;
    }
    assert rows[..i] == rows;
  }

  // ---------------------------------------------------------------------
  // The municipality branch

  /** A region no value row names has an empty group. */
  lemma {:induction false} GroupItemsAbsent(rows: seq<AnswerElement>, values: seq<AnswerValueRow>, k: int)
    requires k !in ValueRegions(values)
    ensures GroupItems(rows, values, k) == []
  {
    if values != [] {
      var p := values[..|values| - 1];
      assert ValueRegions(p) == ValueRegions(values)[..|p|];
      GroupItemsAbsent(rows, p, k);
    }
  }

  /** The group a region holds after one more value row. */
  lemma GroupStepVals(rows: seq<AnswerElement>, values: seq<AnswerValueRow>, v: AnswerValueRow, k: int)
    requires k in ValueRegions(values) || k == v.region
    ensures GroupItems(rows, values + [v], k) == (if k in ValueRegions(values) then GroupItems(rows, values, k) else [])
      + (if v.region == k then [MunicipalityAnswer(LastName(rows, v.option), Percent(v.value))] else [])
  {
    GroupItemsSnoc(rows, values, v, k);
    if k !in ValueRegions(values) {
      GroupItemsAbsent(rows, values, k);
    }
  }

  /** A map `m'` that agrees with `m` except for `item` appended under `x`
      is `m` with that one group replaced. */
  lemma AppendToGroup(m: map<int, seq<MunicipalityAnswer>>, m': map<int, seq<MunicipalityAnswer>>, x: int, item: MunicipalityAnswer)
    requires forall k :: k in m' <==> k in m || k == x
    requires forall k :: k in m' ==> m'[k] == (if k in m then m[k] else []) + (if k == x then [item] else [])
    ensures m' == m[x := (if x in m then m[x] else []) + [item]]
  {
    var put := m[x := (if x in m then m[x] else []) + [item]];
    assert m'.Keys == put.Keys by {
      assert forall k :: k in put.Keys <==> k in m || k == x;
      assert forall k :: k in m'.Keys <==> k in m || k == x;
    }
    forall k | k in m'
      ensures m'[k] == put[k]
    {
      if k != x {
        assert m[k] + [] == m[k];
      }
    }
  }

  /** The groups after one more value row: the row's item appended to its region's group. */
  lemma GroupStepMap(rows: seq<AnswerElement>, values: seq<AnswerValueRow>, v: AnswerValueRow)
    ensures var g := GroupedPivot(rows, values).vals;
      var group := if v.region in g then g[v.region] else [];
      GroupedPivot(rows, values + [v]).vals == g[v.region := group + [MunicipalityAnswer(LastName(rows, v.option), Percent(v.value))]]
  {
    var m := GroupedPivot(rows, values).vals;
    var m' := GroupedPivot(rows, values + [v]).vals;
    ValueRegionsSnoc(values, v);
    assert forall k :: k in m' <==> k in m || k == v.region by {
      assert forall k :: k in ValueRegions(values) + [v.region] <==> k in ValueRegions(values) || k == v.region;
    }
    forall k | k in m'
      ensures m'[k] == (if k in m then m[k] else []) + (if k == v.region then [MunicipalityAnswer(LastName(rows, v.option), Percent(v.value))] else [])
    {
      GroupStepVals(rows, values, v, k);
    }
    AppendToGroup(m, m', v.region, MunicipalityAnswer(LastName(rows, v.option), Percent(v.value)));
  }

  /** `$newArAnswers[UF_REGION][] = item` for one more value row. */
  lemma GroupStep(rows: seq<AnswerElement>, values: seq<AnswerValueRow>, v: AnswerValueRow)
    ensures var g := GroupedPivot(rows, values);
      var group := if v.region in g.vals then g.vals[v.region] else [];
      GroupedPivot(rows, values + [v]) == g.Put(v.region, group + [MunicipalityAnswer(LastName(rows, v.option), Percent(v.value))])
  {
    var g := GroupedPivot(rows, values);
    var group := if v.region in g.vals then g.vals[v.region] else [];
    ValueRegionsSnoc(values, v);
    PutKeyOrder(g, ValueRegions(values), v.region, group + [MunicipalityAnswer(LastName(rows, v.option), Percent(v.value))]);
    GroupStepMap(rows, values, v);
  }

  lemma GroupAt(rows: seq<AnswerElement>, values: seq<AnswerValueRow>, j: nat, groups: PArray<int, seq<MunicipalityAnswer>>,
                item: MunicipalityAnswer)
    requires j < |values| && groups == GroupedPivot(rows, values[..j])
    requires item == MunicipalityAnswer(LastName(rows, values[j].option), Percent(values[j].value))
    ensures var group := if values[j].region in groups.vals then groups.vals[values[j].region] else [];
      groups.Put(values[j].region, group + [item]) == GroupedPivot(rows, values[..j + 1])
  {
    assert values[..j + 1] == values[..j] + [values[j]];
    GroupStep(rows, values[..j], values[j]);
  }

  /** The municipality branch: every value row appended to its region's group. */
  method GroupValues(rows: seq<AnswerElement>, answers: PArray<int, Answer>, values: seq<AnswerValueRow>)
    returns (groups: PArray<int, seq<MunicipalityAnswer>>)
    requires forall k :: k in answers.vals ==> answers.vals[k].txt == LastName(rows, k)
    requires forall v :: v in values ==> v.option in answers.vals
    ensures groups == GroupedPivot(rows, values)
  {
    groups := NewArray();
    var j := 0;
    while j < |values|
      invariant 0 <= j <= |values|
      invariant groups == GroupedPivot(rows, values[..j])
    {
      var v := values[j];
      assert v.option in answers.vals by {
        assert v in values;
      }
      var item := MunicipalityAnswer(answers.vals[v.option].txt, Percent(v.value));
      var group := if v.region in groups.vals then groups.vals[v.region] else [];
      GroupAt(rows, values, j, groups, item);
      groups := groups.Put(v.region, group + [item]);
      j := j + 1;
    }
    assert values[..j] == values;
  }

  // ---------------------------------------------------------------------
  // The region branch

  /** Every option holds its text and the value its last row in `values` gave it. */
  ghost predicate Attached(rows: seq<AnswerElement>, values: seq<AnswerValueRow>, out: PArray<int, Answer>) {
    && out.Valid()
    && (forall k :: k in out.vals ==> out.vals[k] == Answer(LastName(rows, k), LastValue(values, k)))
  }

  /** `$answers[UF_ANSWER]['val'] = UF_VALUE . '%'` for value row `j`. */
  lemma AttachAt(rows: seq<AnswerElement>, values: seq<AnswerValueRow>, j: nat, out: PArray<int, Answer>)
    requires j < |values| && Attached(rows, values[..j], out) && values[j].option in out.vals
    ensures var v := values[j];
      Attached(rows, values[..j + 1], out.Put(v.option, out.vals[v.option].(val := Some(Percent(v.value)))))
  {
    var v := values[j];
    var next := out.Put(v.option, out.vals[v.option].(val := Some(Percent(v.value))));
    assert values[..j + 1] == values[..j] + [v];
    forall k | k in next.vals
      ensures next.vals[k] == Answer(LastName(rows, k), LastValue(values[..j + 1], k))
    {
      LastValueSnoc(values[..j], v, k);
    }
  }

  /** The region branch's value loop: `'val'` set on the option of every value row. */
  method AttachValues(rows: seq<AnswerElement>, answers: PArray<int, Answer>, values: seq<AnswerValueRow>)
    returns (out: PArray<int, Answer>)
    requires answers.Valid()
    requires forall k :: k in answers.vals ==> answers.vals[k] == Answer(LastName(rows, k), None)
    requires forall v :: v in values ==> v.option in answers.vals
    ensures out.Valid() && out.keys == answers.keys
    ensures forall k :: k in out.vals ==> out.vals[k] == Answer(LastName(rows, k), LastValue(values, k))
  {
    out := answers;
    var j := 0;
    while j < |values|
      invariant 0 <= j <= |values|
      invariant out.keys == answers.keys && Attached(rows, values[..j], out)
    {
      assert values[j].option in out.vals by {
        assert values[j] in values;
      }
      AttachAt(rows, values, j, out);
      out := out.Put(values[j].option, out.vals[values[j].option].(val := Some(Percent(values[j].value))));
      j := j + 1;
    }
    assert values[..j] == values;
  }

  /** The first `n` keys are cleaned up, the rest still to do. */
  ghost predicate Dropping(answers: PArray<int, Answer>, values: seq<AnswerValueRow>, n: nat, out: PArray<int, Answer>)
    requires n <= |answers.keys|
  {
    && out.Valid()
    && out.keys == ValuedOptions(answers.keys[..n], values) + answers.keys[n..]
    && (forall k :: k in out.vals ==> k in answers.vals && out.vals[k] == answers.vals[k])
  }

  lemma SplitAt(keys: seq<int>, n: nat)
    requires Distinct(keys) && n < |keys|
    ensures keys[n] !in keys[..n] && keys[n] !in keys[n + 1..]
    ensures keys[..n + 1] == keys[..n] + [keys[n]] && keys[n..] == [keys[n]] + keys[n + 1..]
  {
  }

  /** One step of the clean-up, on the key order: with the keys `done`
      cleaned up and `[k] + rest` still to do, unsetting `k`, which has no
      value, leaves `done + [k]` cleaned up. */
  lemma DropStep(done: seq<int>, k: int, rest: seq<int>, values: seq<AnswerValueRow>)
    requires k !in done && k !in rest && LastValue(values, k).None?
    ensures Without(ValuedOptions(done, values) + ([k] + rest), k) == ValuedOptions(done + [k], values) + rest
  {
    var kept := ValuedOptions(done, values);
    assert ValuedOptions(done + [k], values) == kept by {
      ValuedOptionsSnoc(done, k, values);
    }
    assert kept + ([k] + rest) == kept + [k] + rest;
    WithoutMiddle(kept, k, rest);
  }

  /** Keeping `k`, which has a value, leaves `done + [k]` cleaned up. */
  lemma KeepStep(done: seq<int>, k: int, rest: seq<int>, values: seq<AnswerValueRow>)
    requires LastValue(values, k).Some?
    ensures ValuedOptions(done, values) + ([k] + rest) == ValuedOptions(done + [k], values) + rest
  {
    var kept := ValuedOptions(done, values);
    assert ValuedOptions(done + [k], values) == kept + [k] by {
      ValuedOptionsSnoc(done, k, values);
    }
    assert kept + ([k] + rest) == kept + [k] + rest;
  }

  /** `if (!isset($answer['val'])) unset($answers[$key])` for key `n`. */
  lemma DropAt(answers: PArray<int, Answer>, values: seq<AnswerValueRow>, n: nat, out: PArray<int, Answer>)
    requires answers.Valid() && n < |answers.keys|
    requires forall k :: k in answers.vals ==> answers.vals[k].val == LastValue(values, k)
    requires Dropping(answers, values, n, out)
    ensures var k := answers.keys[n];
      Dropping(answers, values, n + 1, if answers.vals[k].val.None? then out.Unset(k) else out)
  {
    var keys := answers.keys;
    assert keys[n] in keys;
    SplitAt(keys, n);
    if LastValue(values, keys[n]).None? {
      DropStep(keys[..n], keys[n], keys[n + 1..], values);
    } else {
      KeepStep(keys[..n], keys[n], keys[n + 1..], values);
    }
  }

  lemma DroppingStart(answers: PArray<int, Answer>, values: seq<AnswerValueRow>)
    requires answers.Valid()
    ensures Dropping(answers, values, 0, answers)
  {
    assert answers.keys[..0] == [] && answers.keys[0..] == answers.keys;
  }

  lemma DroppingDone(answers: PArray<int, Answer>, values: seq<AnswerValueRow>, out: PArray<int, Answer>)
    requires Dropping(answers, values, |answers.keys|, out)
    ensures out.Valid() && out.keys == ValuedOptions(answers.keys, values)
    ensures forall k :: k in out.vals ==> k in answers.vals && out.vals[k] == answers.vals[k]
  {
    assert answers.keys[..|answers.keys|] == answers.keys;
    assert answers.keys[|answers.keys|..] == [];
  }

  /** The region branch's clean-up: every option without `'val'` unset, the rest in order. */
  method DropUnvalued(answers: PArray<int, Answer>, values: seq<AnswerValueRow>) returns (out: PArray<int, Answer>)
    requires answers.Valid()
    requires forall k :: k in answers.vals ==> answers.vals[k].val == LastValue(values, k)
    ensures out.Valid() && out.keys == ValuedOptions(answers.keys, values)
    ensures forall k :: k in out.vals ==> k in answers.vals && out.vals[k] == answers.vals[k]
  {
    out := answers;
    var n := 0;
    DroppingStart(answers, values);
    while n < |answers.keys|
      invariant 0 <= n <= |answers.keys|
      invariant Dropping(answers, values, n, out)
    {
      var k := answers.keys[n];
      DropAt(answers, values, n, out);
      if answers.vals[k].val.None? {
        out := out.Unset(k);
      }
      n := n + 1;
    }
    DroppingDone(answers, values, out);
  }

  /** After the clean-up, `array_values` gives the flat pivot. */
  lemma FlatIsPivot(rows: seq<AnswerElement>, values: seq<AnswerValueRow>, answers: PArray<int, Answer>)
    requires answers.Valid() && answers.keys == ValuedOptions(KeyOrder(OptionIds(rows)), values)
    requires forall k :: k in answers.vals ==> answers.vals[k] == Answer(LastName(rows, k), LastValue(values, k))
    ensures answers.Values() == FlatPivot(rows, values)
  {
  }

  // ---------------------------------------------------------------------
  // Properties

  /** An option has no `'val'` exactly when no value row names it. */
  lemma {:induction false} LastValueNone(values: seq<AnswerValueRow>, k: int)
    ensures LastValue(values, k).None? <==> forall v :: v in values ==> v.option != k
  {
    if values != [] {
      var p := values[..|values| - 1];
      LastValueNone(p, k);
      assert values == p + [values[|values| - 1]];
    }
  }

  /** When several value rows name an option, the last one fetched gives its
      `'val'`: its raw value followed by `%` (so a stored 0 reads "0%"). */
  lemma {:induction false} LastValueIsLastRow(values: seq<AnswerValueRow>, k: int, j: nat)
    requires j < |values| && values[j].option == k
    requires forall j' :: j < j' < |values| ==> values[j'].option != k
    ensures LastValue(values, k) == Some(Percent(values[j].value))
  {
    var n := |values| - 1;
    if j < n {
      assert values[..n][j] == values[j];
      LastValueIsLastRow(values[..n], k, j);
    }
  }

  lemma OptionIdsOf(rows: seq<AnswerElement>)
    ensures forall k :: k in OptionIds(rows) <==> exists a :: a in rows && a.id == k
  {
    var ids := OptionIds(rows);
    forall k ensures k in ids <==> exists a :: a in rows && a.id == k {
      if k in ids {
        var i :| 0 <= i < |ids| && ids[i] == k;
        assert rows[i] in rows;
      }
      if a :| a in rows && a.id == k {
        var i :| 0 <= i < |rows| && rows[i] == a;
        assert ids[i] == k;
      }
    }
  }

  /** The answers of the region: each option id at most once, exactly the
      options some value row reached, each with the text of its row and the
      value of its last value row. */
  lemma RegionAnswersExactly(rows: seq<AnswerElement>, values: seq<AnswerValueRow>)
    ensures var keys := ValuedOptions(KeyOrder(OptionIds(rows)), values);
      var r := FlatPivot(rows, values);
      && Distinct(keys) && |r| == |keys|
      && (forall k :: k in keys <==> (exists a :: a in rows && a.id == k) && (exists v :: v in values && v.option == k))
      && (forall i :: 0 <= i < |r| ==> r[i].txt == LastName(rows, keys[i]) && r[i].val == LastValue(values, keys[i]) && r[i].val.Some?)
  {
    var keys := ValuedOptions(KeyOrder(OptionIds(rows)), values);
    ValuedOptionsDistinct(KeyOrder(OptionIds(rows)), values);
    OptionIdsOf(rows);
    forall i | 0 <= i < |keys| ensures LastValue(values, keys[i]).Some? {
      assert keys[i] in keys;
    }
    forall k ensures LastValue(values, k).Some? <==> exists v :: v in values && v.option == k {
      LastValueNone(values, k);
    }
  }

  /** The reference the region pivot is measured against: the options in
      `SORT` order that received a value, each with its own name and its last value. */
  function SortOrderAnswers(rows: seq<AnswerElement>, values: seq<AnswerValueRow>): seq<Answer> {
    if rows == [] then []
    else
      var a := rows[|rows| - 1];
      SortOrderAnswers(rows[..|rows| - 1], values)
        + (if LastValue(values, a.id).Some? then [Answer(a.name, LastValue(values, a.id))] else [])
  }

  /** Appending an option row leaves the answers under the other ids as they were. */
  lemma AnswersForOtherKeys(p: seq<AnswerElement>, x: AnswerElement, values: seq<AnswerValueRow>, keys: seq<int>)
    requires x.id !in keys
    ensures AnswersFor(p + [x], values, keys) == AnswersFor(p, values, keys)
  {
    forall i | 0 <= i < |keys|
      ensures AnswersFor(p + [x], values, keys)[i] == AnswersFor(p, values, keys)[i]
    {
      LastNameSnoc(p, x, keys[i]);
    }
  }

  /** With distinct option ids (they are element IDs), the region's answers
      are the options with a value, in `SORT` order, re-indexed. */
  lemma {:induction false} RegionAnswersInSortOrder(rows: seq<AnswerElement>, values: seq<AnswerValueRow>)
    requires Distinct(OptionIds(rows))
    ensures FlatPivot(rows, values) == SortOrderAnswers(rows, values)
  {
    if rows != [] {
      var p := rows[..|rows| - 1];
      var x := rows[|rows| - 1];
      assert rows == p + [x];
      var ids := OptionIds(p);
      OptionIdsSnoc(p, x);
      DistinctSnoc(ids, x.id);
      RegionAnswersInSortOrder(p, values);
      KeyOrderOfDistinct(OptionIds(rows));
      KeyOrderOfDistinct(ids);
      var vp := ValuedOptions(ids, values);
      ValuedOptionsSnoc(ids, x.id, values);
      assert x.id !in vp;
      AnswersForOtherKeys(p, x, values, vp);
      LastNameSnoc(p, x, x.id);
      if LastValue(values, x.id).Some? {
        assert (vp + [x.id])[..|vp|] == vp;
      }
    }
  }

  /** The value rows of one region, in row order. */
  function RegionValueRows(values: seq<AnswerValueRow>, k: int): (r: seq<AnswerValueRow>)
    ensures forall v :: v in r <==> v in values && v.region == k
  {
    Select(values, (v: AnswerValueRow) => v.region == k)
  }

  /** A municipality's group holds one item per value row of that municipality,
      in row order and with no deduplication, each with its option's text and
      its raw value followed by `%`. */
  lemma {:induction false} GroupItemsAreRegionRows(rows: seq<AnswerElement>, values: seq<AnswerValueRow>, k: int)
    ensures var g := GroupItems(rows, values, k);
      var own := RegionValueRows(values, k);
      && |g| == |own|
      && forall i :: 0 <= i < |g| ==> g[i] == MunicipalityAnswer(LastName(rows, own[i].option), Percent(own[i].value))
  {
    if values != [] {
      var p := values[..|values| - 1];
      var v := values[|values| - 1];
      assert values == p + [v];
      GroupItemsAreRegionRows(rows, p, k);
      SelectSnoc(p, v, (v: AnswerValueRow) => v.region == k);
    }
  }

  /** The grouped pivot has a key exactly for each region some value row names. */
  lemma GroupedKeys(rows: seq<AnswerElement>, values: seq<AnswerValueRow>)
    ensures forall k :: k in GroupedPivot(rows, values).vals <==> exists v :: v in values && v.region == k
  {
    var vr := ValueRegions(values);
    forall k ensures k in vr <==> exists v :: v in values && v.region == k {
      if k in vr {
        var i :| 0 <= i < |vr| && vr[i] == k;
        assert values[i] in values;
      }
      if v :| v in values && v.region == k {
        var i :| 0 <= i < |values| && values[i] == v;
        assert vr[i] == k;
      }
    }
  }
}
