/** SubjectiveIndexModel: survey questions of a domain with their answer
    options and the percentages recorded for a region (or for each of its
    municipalities) in a year. */
module SubjectiveIndex {
  import opened Php
  import opened EntityStore
  import opened AnswerPivot
  import IndexTables

  /** The `UF_HL_CODE` of the subjective index, also the name of its value block. */
  const TypeIndexCode := "SubjectiveIndex"

  /** `['qs' => NAME, 'ans' => answers]` */
  datatype Question = Question(qs: string, ans: seq<Answer>)

  /** `['title' => NAME]` */
  datatype Municipality = Municipality(title: Field)

  /** `['title' => NAME, 'items' => $answers[$id]]`; `items` is null when the
      municipality has no value row. */
  datatype MunicipalityData = MunicipalityData(title: Field, items: Option<seq<MunicipalityAnswer>>)

  /** `['title' => NAME, 'data' => municipalities]` */
  datatype MunicipalityQuestion = MunicipalityQuestion(title: string, data: seq<MunicipalityData>)

  // ---------------------------------------------------------------------
  // The queries

  /** The question sections of the domain with the given "additional" flag. */
  function QuestionsOf(db: Store, domainId: int, additional: bool): (r: seq<QuestionSection>)
    ensures forall q :: q in r <==> q in db.questions && q.domain == domainId && q.additional == additional
  {
    Select(db.questions, (q: QuestionSection) => q.domain == domainId && q.additional == additional)
  }

  // ---------------------------------------------------------------------
  // Questions and municipalities

  /** The loop of getQuestions over the question sections `qs`, each
      question getting the answer list `answersOf` gives it. */
  function KeepAnswered(qs: seq<QuestionSection>, answersOf: QuestionSection -> seq<Answer>): seq<Question> {
    if qs == [] then []
    else
      var q := qs[|qs| - 1];
      KeepAnswered(qs[..|qs| - 1], answersOf) + (if answersOf(q) == [] then [] else [Question(q.name, answersOf(q))])
  }

  /** What getAnswersWithValues gives each question for the region itself. */
  function RegionLookup(db: Store, regionId: int, year: int): QuestionSection -> seq<Answer> {
    (q: QuestionSection) => RegionAnswers(db, regionId, year, q.id)
  }

  /** getQuestions over the fetched question sections. */
  function QuestionsFrom(db: Store, regionId: int, year: int, qs: seq<QuestionSection>): seq<Question> {
    KeepAnswered(qs, RegionLookup(db, regionId, year))
  }

  /** The child sections of the region, in `SORT` order. */
  function MunicipalityRows(db: Store, regionId: int): (r: seq<RegionSection>)
    ensures forall s :: s in r <==> s in db.regions && s.parent == Some(regionId)
  {
    Select(db.regions, (s: RegionSection) => s.parent == Some(regionId))
  }

  /** The `ID` of each section, in fetch order. */
  function SectionIds(rows: seq<RegionSection>): seq<int> {
    MapSeq(rows, SectionId)
  }

  function SectionId(s: RegionSection): int {
    s.id
  }

  /** The name the last section with id `k` wrote. */
  function LastTitle(rows: seq<RegionSection>, k: int): Field {
    LastWrite(rows, SectionId, SectionName, k, Null)
  }

  function SectionName(s: RegionSection): Field {
    s.name
  }

  /** getMunicipalities: the child sections keyed by id, in `SORT` order. */
  function Municipalities(db: Store, regionId: int): (r: PArray<int, Municipality>)
    ensures r.Valid()
  {
    var rows := MunicipalityRows(db, regionId);
    PArray(KeyOrder(SectionIds(rows)), map k | k in SectionIds(rows) :: Municipality(LastTitle(rows, k)))
  }

  /** `$answers[$id]`: the municipality's group, or null. A flat answer list
      is consulted only when there are no municipalities, so never. */
  function ItemsFor(answers: Answers, id: int): Option<seq<MunicipalityAnswer>> {
    match answers
    case ByRegion(groups) => groups.Get(id)
    case Flat(_) => None
  }

  /** The municipalities, in order, each carrying its items for one question. */
  function AttachItems(municipalities: PArray<int, Municipality>, answers: Answers): (r: seq<MunicipalityData>)
    requires municipalities.Valid()
    ensures |r| == |municipalities.keys|
    ensures forall i :: 0 <= i < |r| ==>
      r[i] == MunicipalityData(municipalities.vals[municipalities.keys[i]].title, ItemsFor(answers, municipalities.keys[i]))
  {
    seq(|municipalities.keys|, i requires 0 <= i < |municipalities.keys| =>
      MunicipalityData(municipalities.vals[municipalities.keys[i]].title, ItemsFor(answers, municipalities.keys[i])))
  }

  /** The loop of getQuestionsForMunicipalities over the question sections
      `qs`, each question getting the pivot `answersOf` gives it. */
  function KeepWithPivot(municipalities: PArray<int, Municipality>, qs: seq<QuestionSection>,
                         answersOf: QuestionSection -> Answers): seq<MunicipalityQuestion>
    requires municipalities.Valid()
  {
    if qs == [] then []
    else
      var q := qs[|qs| - 1];
      KeepWithPivot(municipalities, qs[..|qs| - 1], answersOf)
        + (if NoAnswers(answersOf(q)) then [] else [MunicipalityQuestion(q.name, AttachItems(municipalities, answersOf(q)))])
  }

  /** getQuestionsForMunicipalities over the fetched question sections. */
  function MunicipalityQuestionsFrom(db: Store, regionId: int, year: int, municipalities: PArray<int, Municipality>,
                                     qs: seq<QuestionSection>): seq<MunicipalityQuestion>
    requires municipalities.Valid()
  {
    KeepWithPivot(municipalities, qs, MunicipalityLookup(db, regionId, year, municipalities.keys))
  }

  /** What getAnswersWithValues gives each question for the municipalities. */
  function MunicipalityLookup(db: Store, regionId: int, year: int, municipalityIds: seq<int>): QuestionSection -> Answers {
    (q: QuestionSection) => AnswersWithValues(db, regionId, year, q.id, municipalityIds)
  }

  // ---------------------------------------------------------------------
  // The loops of the model

  lemma KeepAnsweredAt(qs: seq<QuestionSection>, answersOf: QuestionSection -> seq<Answer>, i: nat)
    requires i < |qs|
    ensures KeepAnswered(qs[..i + 1], answersOf)
      == KeepAnswered(qs[..i], answersOf) + (if answersOf(qs[i]) == [] then [] else [Question(qs[i].name, answersOf(qs[i]))])
  {
    assert qs[..i + 1][..i] == qs[..i];
  }

  lemma KeepWithPivotAt(municipalities: PArray<int, Municipality>, qs: seq<QuestionSection>,
                        answersOf: QuestionSection -> Answers, i: nat)
    requires municipalities.Valid() && i < |qs|
    ensures KeepWithPivot(municipalities, qs[..i + 1], answersOf)
      == KeepWithPivot(municipalities, qs[..i], answersOf)
         + (if NoAnswers(answersOf(qs[i])) then [] else [MunicipalityQuestion(qs[i].name, AttachItems(municipalities, answersOf(qs[i])))])
  {
    assert qs[..i + 1][..i] == qs[..i];
  }

  lemma SectionIdsSnoc(rows: seq<RegionSection>, x: RegionSection)
    ensures SectionIds(rows + [x]) == SectionIds(rows) + [x.id]
  {
    MapSeqSnoc(rows, x, SectionId);
  }

  lemma LastTitleSnoc(rows: seq<RegionSection>, x: RegionSection, k: int)
    ensures LastTitle(rows + [x], k) == if x.id == k then x.name else LastTitle(rows, k)
  {
    LastWriteSnoc(rows, x, SectionId, SectionName, k, Null);
  }

  /** `r` holds the sections `rows` keyed by id. */
  ghost predicate Collected(rows: seq<RegionSection>, r: PArray<int, Municipality>) {
    && r.Valid()
    && r.keys == KeyOrder(SectionIds(rows))
    && (forall k :: k in r.vals ==> r.vals[k] == Municipality(LastTitle(rows, k)))
  }

  /** `$municipalities[ID] = ['title' => NAME]` for one more section. */
  lemma CollectStep(rows: seq<RegionSection>, x: RegionSection, r: PArray<int, Municipality>)
    requires Collected(rows, r)
    ensures Collected(rows + [x], r.Put(x.id, Municipality(x.name)))
  {
    var next := r.Put(x.id, Municipality(x.name));
    SectionIdsSnoc(rows, x);
    PutKeyOrder(r, SectionIds(rows), x.id, Municipality(x.name));
    assert forall k :: k in next.vals ==> next.vals[k] == Municipality(LastTitle(rows + [x], k)) by {
      forall k | k in next.vals
        ensures next.vals[k] == Municipality(LastTitle(rows + [x], k))
      {
        LastTitleSnoc(rows, x, k);
      }
    }
  }

  lemma CollectAt(rows: seq<RegionSection>, i: nat, r: PArray<int, Municipality>)
    requires i < |rows| && Collected(rows[..i], r)
    ensures Collected(rows[..i + 1], r.Put(rows[i].id, Municipality(rows[i].name)))
  {
    assert rows[..i + 1] == rows[..i] + [rows[i]];
    CollectStep(rows[..i], rows[i], r);
  }

  lemma CollectStart(rows: seq<RegionSection>)
    ensures Collected(rows[..0], NewArray())
  {
    assert rows[..0] == [];
  }

  lemma CollectedIsSpec(db: Store, regionId: int, r: PArray<int, Municipality>)
    requires Collected(MunicipalityRows(db, regionId)[..|MunicipalityRows(db, regionId)|], r)
    ensures r == Municipalities(db, regionId)
  {
    var rows := MunicipalityRows(db, regionId);
    assert rows[..|rows|] == rows;
    assert r.vals == map k | k in SectionIds(rows) :: Municipality(LastTitle(rows, k));
  }

  /** The inner loop of getQuestionsForMunicipalities: each municipality's
      `items` set to its group, then the list re-indexed. */
  method ListMunicipalities(municipalities: PArray<int, Municipality>, answers: Answers) returns (data: seq<MunicipalityData>)
    requires municipalities.Valid()
    ensures data == AttachItems(municipalities, answers)
  {
    data := [];
    var n := 0;
    while n < |municipalities.keys|
      invariant 0 <= n <= |municipalities.keys|
      invariant |data| == n
      invariant forall m :: 0 <= m < n ==> data[m] == MunicipalityData(
        municipalities.vals[municipalities.keys[m]].title, ItemsFor(answers, municipalities.keys[m]))
    {
      var id := municipalities.keys[n];
      data := data + [MunicipalityData(municipalities.vals[id].title, ItemsFor(answers, id))];
      n := n + 1;
    }
  }

  // ---------------------------------------------------------------------
  // The model

  class SubjectiveIndexModel {
    const regionId: int
    const domainId: int
    const year: int

    /** getObject */
    constructor (regionId: int, domainId: int, year: int)
      ensures this.regionId == regionId && this.domainId == domainId && this.year == year
    {
      this.regionId := regionId;
      this.domainId := domainId;
      this.year := year;
    }

    /** getAnswersWithValues: the options of the question in `SORT` order
        merged with their value rows, then either grouped by municipality or
        cut down to the options that have a value. */
    method GetAnswersWithValues(db: Store, questionId: int, municipalityIds: seq<int>) returns (r: Answers)
      ensures r == AnswersWithValues(db, regionId, year, questionId, municipalityIds)
    {
      var rows := AnswerOptions(db, questionId);
      var answers, answersId := FetchOptions(rows);
      var values := AnswerValueRows(db, RegionFilter(regionId, municipalityIds), questionId, answersId, year);
      assert forall v :: v in values ==> v.option in answers.vals;
      if |municipalityIds| > 0 {
        var groups := GroupValues(rows, answers, values);
        r := ByRegion(groups);
      } else {
        answers := AttachValues(rows, answers, values);
        answers := DropUnvalued(answers, values);
        r := Flat(answers.Values());
        FlatIsPivot(rows, values, answers);
      }
    }

    /** getQuestions: the questions of the domain that keep at least one answer. */
    method GetQuestions(db: Store, additional: bool) returns (r: seq<Question>)
      ensures r == QuestionsFrom(db, regionId, year, QuestionsOf(db, domainId, additional))
    {
      var qs := QuestionsOf(db, domainId, additional);
      r := [];
      var i := 0;
      while i < |qs|
        invariant 0 <= i <= |qs|
        invariant r == QuestionsFrom(db, regionId, year, qs[..i])
      {
        var answers := GetAnswersWithValues(db, qs[i].id, []);
        KeepAnsweredAt(qs, RegionLookup(db, regionId, year), i);
        if !NoAnswers(answers) {
          r := r + [Question(qs[i].name, answers.list)];
        }
        i := i + 1;
      }
      assert qs[..i] == qs;
    }

    /** getMunicipalities: the child sections of the region keyed by id, in `SORT` order. */
    method GetMunicipalities(db: Store) returns (r: PArray<int, Municipality>)
      ensures r == Municipalities(db, regionId)
    {
      var rows := MunicipalityRows(db, regionId);
      r := NewArray();
      CollectStart(rows);
      var i := 0;
      while i < |rows|
        invariant 0 <= i <= |rows|
        invariant Collected(rows[..i], r)
      {
        CollectAt(rows, i, r);
        r := r.Put(rows[i].id, Municipality(rows[i].name));
        i := i + 1;
      }
      CollectedIsSpec(db, regionId, r);
    }

    /** getQuestionsForMunicipalities: the questions of the domain that have a
        value row in some municipality, each listing every municipality. */
    method GetQuestionsForMunicipalities(db: Store, additional: bool) returns (r: seq<MunicipalityQuestion>)
      ensures r == MunicipalityQuestionsFrom(db, regionId, year, Municipalities(db, regionId), QuestionsOf(db, domainId, additional))
    {
      var qs := QuestionsOf(db, domainId, additional);
      var municipalities := GetMunicipalities(db);
      r := [];
      var i := 0;
      while i < |qs|
        invariant 0 <= i <= |qs|
        invariant r == MunicipalityQuestionsFrom(db, regionId, year, municipalities, qs[..i])
      {
        var answers := GetAnswersWithValues(db, qs[i].id, municipalities.keys);
        KeepWithPivotAt(municipalities, qs, MunicipalityLookup(db, regionId, year, municipalities.keys), i);
        if !NoAnswers(answers) {
          var data := ListMunicipalities(municipalities, answers);
          r := r + [MunicipalityQuestion(qs[i].name, data)];
        }
        i := i + 1;
      }
      assert qs[..i] == qs;
    }

    method GetMainQuestions(db: Store) returns (r: seq<Question>)
      ensures r == QuestionsFrom(db, regionId, year, QuestionsOf(db, domainId, false))
    {
      r := GetQuestions(db, false);
    }

    method GetAdditionalQuestions(db: Store) returns (r: seq<Question>)
      ensures r == QuestionsFrom(db, regionId, year, QuestionsOf(db, domainId, true))
    {
      r := GetQuestions(db, true);
    }

    method GetMainQuestionsForMunicipalities(db: Store) returns (r: seq<MunicipalityQuestion>)
      ensures r == MunicipalityQuestionsFrom(db, regionId, year, Municipalities(db, regionId), QuestionsOf(db, domainId, false))
    {
      r := GetQuestionsForMunicipalities(db, false);
    }

    method GetAdditionalQuestionsForMunicipalities(db: Store) returns (r: seq<MunicipalityQuestion>)
      ensures r == MunicipalityQuestionsFrom(db, regionId, year, Municipalities(db, regionId), QuestionsOf(db, domainId, true))
    {
      r := GetQuestionsForMunicipalities(db, true);
    }

    /** getDomains: one entry per domain of the subjective index, in `UF_SORT` order. */
    method GetDomains(db: Store, getPath: Field -> string) returns (domains: seq<IndexTables.Domain>)
      ensures var rows := IndexTables.DomainsOf(db, IndexTables.IndexId(db, TypeIndexCode));
        && |domains| == |rows|
        && forall i :: 0 <= i < |rows| ==>
             && domains[i].id == rows[i].id && domains[i].name == rows[i].name
             && (Empty(rows[i].file) ==> domains[i].icon == "")
             && (!Empty(rows[i].file) ==> domains[i].icon == getPath(rows[i].file))
    {
      domains := IndexTables.LoadDomains(db, TypeIndexCode, getPath);
    }

    /** getAverageValuesForRegion */
    function GetAverageValuesForRegion(db: Store): (r: string)
      ensures r != "" ==> !Empty(Str(r)) && exists a :: (a in db.regionAverages
        && IndexTables.IsRegionAverage(a, regionId, IndexTables.IndexId(db, TypeIndexCode), year) && a.value == Str(r))
      ensures (forall a :: a in db.regionAverages ==>
        !IndexTables.IsRegionAverage(a, regionId, IndexTables.IndexId(db, TypeIndexCode), year)) ==> r == ""
      ensures (exists a :: (a in db.regionAverages
        && IndexTables.IsRegionAverage(a, regionId, IndexTables.IndexId(db, TypeIndexCode), year))) ==>
        exists a :: (a in db.regionAverages
          && IndexTables.IsRegionAverage(a, regionId, IndexTables.IndexId(db, TypeIndexCode), year) && r == OrEmpty(a.value))
    {
      IndexTables.RegionAverage(db, TypeIndexCode, regionId, year)
    }

    /** getAverageValuesForDomains */
    method GetAverageValuesForDomains(db: Store) returns (values: seq<IndexTables.DomainAverage>)
      ensures var rows := IndexTables.DomainAverageRows(db, TypeIndexCode, regionId, year);
        && |values| == |rows|
        && forall i :: 0 <= i < |rows| ==> values[i].id == rows[i].domain && values[i].value == rows[i].value
    {
      values := IndexTables.LoadDomainAverages(db, TypeIndexCode, regionId, year);
    }
  }

  // ---------------------------------------------------------------------
  // Properties

  /** In the municipality branch, a municipality's `items` is null exactly
      when it has no value row; otherwise it is its group. */
  lemma MunicipalityItems(db: Store, regionId: int, year: int, questionId: int, municipalityIds: seq<int>, id: int)
    requires |municipalityIds| > 0
    ensures var values := MunicipalityValueRows(db, year, questionId, municipalityIds);
      var items := ItemsFor(AnswersWithValues(db, regionId, year, questionId, municipalityIds), id);
      && (items.None? <==> forall v :: v in values ==> v.region != id)
      && (items.Some? ==> items.value == GroupItems(AnswerOptions(db, questionId), values, id))
  {
    GroupedKeys(AnswerOptions(db, questionId), MunicipalityValueRows(db, year, questionId, municipalityIds));
  }

  /** getQuestions emits only questions with a non-empty answer list, as
      `{qs: NAME, ans: answers}`, and no more questions than sections. */
  lemma {:induction false} QuestionsKeptOnlyWithAnswers(qs: seq<QuestionSection>, answersOf: QuestionSection -> seq<Answer>)
    ensures var r := KeepAnswered(qs, answersOf);
      && |r| <= |qs|
      && (forall x :: x in r ==> x.ans != [] && exists q :: q in qs && x == Question(q.name, answersOf(q)))
  {
    if qs != [] {
      var p := qs[..|qs| - 1];
      var q := qs[|qs| - 1];
      assert qs == p + [q];
      QuestionsKeptOnlyWithAnswers(p, answersOf);
      forall x | x in KeepAnswered(qs, answersOf)
        ensures x.ans != [] && exists q' :: q' in qs && x == Question(q'.name, answersOf(q'))
      {
        if x in KeepAnswered(p, answersOf) {
          var q' :| q' in p && x == Question(q'.name, answersOf(q'));
          assert q' in qs;
        } else {
          assert q in qs;
        }
      }
    }
  }

  /** Whether a question section has answers. */
  function Answered(answersOf: QuestionSection -> seq<Answer>): QuestionSection -> bool {
    (q: QuestionSection) => answersOf(q) != []
  }

  /** A question section shaped as its question. */
  function AsQuestion(answersOf: QuestionSection -> seq<Answer>): QuestionSection -> Question {
    (q: QuestionSection) => Question(q.name, answersOf(q))
  }

  /** The kept questions stand in the order of their sections, one per
      answered section: filtering the sections on a non-empty answer list and
      then shaping them gives the same list. */
  lemma {:induction false} QuestionsInFetchOrder(qs: seq<QuestionSection>, answersOf: QuestionSection -> seq<Answer>)
    ensures KeepAnswered(qs, answersOf) == MapSeq(Select(qs, Answered(answersOf)), AsQuestion(answersOf))
  {
    if qs != [] {
      var p := qs[..|qs| - 1];
      var q := qs[|qs| - 1];
      assert qs == p + [q];
      QuestionsInFetchOrder(p, answersOf);
      SelectSnoc(p, q, Answered(answersOf));
      if Answered(answersOf)(q) {
        MapSeqSnoc(Select(p, Answered(answersOf)), q, AsQuestion(answersOf));
      }
    }
  }

  /** getQuestions emits every question whose answer list is non-empty. */
  lemma {:induction false} QuestionsWithAnswersKept(qs: seq<QuestionSection>, answersOf: QuestionSection -> seq<Answer>, q: QuestionSection)
    requires q in qs && answersOf(q) != []
    ensures Question(q.name, answersOf(q)) in KeepAnswered(qs, answersOf)
  {
    var p := qs[..|qs| - 1];
    var last := qs[|qs| - 1];
    assert qs == p + [last];
    if q != last {
      assert q in p;
      QuestionsWithAnswersKept(p, answersOf, q);
    }
  }

  /** getQuestionsForMunicipalities emits only questions whose pivot is
      non-empty, each listing every municipality once, in order, with that
      question's own items. */
  lemma {:induction false} MunicipalityQuestionsOnlyWithAnswers(municipalities: PArray<int, Municipality>,
                                                                qs: seq<QuestionSection>, answersOf: QuestionSection -> Answers)
    requires municipalities.Valid()
    ensures var r := KeepWithPivot(municipalities, qs, answersOf);
      && |r| <= |qs|
      && (forall x :: x in r ==> exists q :: (q in qs && !NoAnswers(answersOf(q))
            && x == MunicipalityQuestion(q.name, AttachItems(municipalities, answersOf(q)))))
  {
    if qs != [] {
      var p := qs[..|qs| - 1];
      var q := qs[|qs| - 1];
      assert qs == p + [q];
      MunicipalityQuestionsOnlyWithAnswers(municipalities, p, answersOf);
      forall x | x in KeepWithPivot(municipalities, qs, answersOf)
        ensures exists q' :: (q' in qs && !NoAnswers(answersOf(q'))
          && x == MunicipalityQuestion(q'.name, AttachItems(municipalities, answersOf(q'))))
      {
        if x in KeepWithPivot(municipalities, p, answersOf) {
          var q' :| (q' in p && !NoAnswers(answersOf(q'))
            && x == MunicipalityQuestion(q'.name, AttachItems(municipalities, answersOf(q'))));
          assert q' in qs;
        } else {
          assert q in qs;
        }
      }
    }
  }

  /** Whether a question section has a non-empty pivot. */
  function HasPivot(answersOf: QuestionSection -> Answers): QuestionSection -> bool {
    (q: QuestionSection) => !NoAnswers(answersOf(q))
  }

  /** A question section shaped as its question for the municipalities. */
  function AsMunicipalityQuestion(municipalities: PArray<int, Municipality>, answersOf: QuestionSection -> Answers):
    QuestionSection -> MunicipalityQuestion
    requires municipalities.Valid()
  {
    (q: QuestionSection) => MunicipalityQuestion(q.name, AttachItems(municipalities, answersOf(q)))
  }

  /** The questions for the municipalities stand in the order of their
      sections, one per section with a non-empty pivot. */
  lemma {:induction false} MunicipalityQuestionsInFetchOrder(municipalities: PArray<int, Municipality>,
                                                             qs: seq<QuestionSection>, answersOf: QuestionSection -> Answers)
    requires municipalities.Valid()
    ensures KeepWithPivot(municipalities, qs, answersOf)
      == MapSeq(Select(qs, HasPivot(answersOf)), AsMunicipalityQuestion(municipalities, answersOf))
  {
    if qs != [] {
      var p := qs[..|qs| - 1];
      var q := qs[|qs| - 1];
      assert qs == p + [q];
      MunicipalityQuestionsInFetchOrder(municipalities, p, answersOf);
      SelectSnoc(p, q, HasPivot(answersOf));
      if HasPivot(answersOf)(q) {
        MapSeqSnoc(Select(p, HasPivot(answersOf)), q, AsMunicipalityQuestion(municipalities, answersOf));
      }
    }
  }

  /** getQuestionsForMunicipalities emits every question whose pivot is non-empty. */
  lemma {:induction false} MunicipalityQuestionsWithAnswersKept(municipalities: PArray<int, Municipality>,
                                                                qs: seq<QuestionSection>, answersOf: QuestionSection -> Answers,
                                                                q: QuestionSection)
    requires municipalities.Valid()
    requires q in qs && !NoAnswers(answersOf(q))
    ensures MunicipalityQuestion(q.name, AttachItems(municipalities, answersOf(q))) in KeepWithPivot(municipalities, qs, answersOf)
  {
    var p := qs[..|qs| - 1];
    var last := qs[|qs| - 1];
    assert qs == p + [last];
    if q != last {
      assert q in p;
      MunicipalityQuestionsWithAnswersKept(municipalities, p, answersOf, q);
    }
  }

  /** A region without municipalities falls back to its own values: a
      question is kept, with empty `data`, exactly when the region has answers. */
  lemma NoMunicipalitiesFallBack(db: Store, regionId: int, year: int,
                                 municipalities: PArray<int, Municipality>, qs: seq<QuestionSection>)
    requires municipalities.Valid() && municipalities.keys == []
    ensures var r := MunicipalityQuestionsFrom(db, regionId, year, municipalities, qs);
      && (forall x :: x in r ==> x.data == [] && exists q :: q in qs && x.title == q.name && RegionAnswers(db, regionId, year, q.id) != [])
      && (forall q :: q in qs && RegionAnswers(db, regionId, year, q.id) != [] ==> MunicipalityQuestion(q.name, []) in r)
  {
    var answersOf := MunicipalityLookup(db, regionId, year, municipalities.keys);
    MunicipalityQuestionsOnlyWithAnswers(municipalities, qs, answersOf);
    forall q | q in qs && RegionAnswers(db, regionId, year, q.id) != []
      ensures MunicipalityQuestion(q.name, []) in MunicipalityQuestionsFrom(db, regionId, year, municipalities, qs)
    {
      MunicipalityQuestionsWithAnswersKept(municipalities, qs, answersOf, q);
    }
  }

  lemma {:induction false} LastTitleOfDistinct(rows: seq<RegionSection>, i: nat)
    requires Distinct(SectionIds(rows)) && i < |rows|
    ensures LastTitle(rows, rows[i].id) == rows[i].name
  {
    var n := |rows| - 1;
    if i < n {
      assert rows[n].id != rows[i].id by {
        assert SectionIds(rows)[i] == rows[i].id && SectionIds(rows)[n] == rows[n].id;
      }
      assert SectionIds(rows[..n]) == SectionIds(rows)[..n];
      LastTitleOfDistinct(rows[..n], i);
    }
  }

  /** getMunicipalities: with section IDs distinct, the keys are the child
      sections' IDs in `SORT` order, each holding `{title: NAME}`. */
  lemma MunicipalitiesKeyedById(db: Store, regionId: int)
    requires Distinct(SectionIds(MunicipalityRows(db, regionId)))
    ensures var rows := MunicipalityRows(db, regionId);
      var m := Municipalities(db, regionId);
      && m.keys == SectionIds(rows)
      && forall i :: 0 <= i < |rows| ==> m.vals[rows[i].id] == Municipality(rows[i].name)
  {
    var rows := MunicipalityRows(db, regionId);
    KeyOrderOfDistinct(SectionIds(rows));
    forall i | 0 <= i < |rows| ensures Municipalities(db, regionId).vals[rows[i].id] == Municipality(rows[i].name) {
      assert SectionIds(rows)[i] == rows[i].id;
      LastTitleOfDistinct(rows, i);
    }
  }
}
