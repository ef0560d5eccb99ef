/** The records of a student worksheet (src/scripts/models/student_worksheet.py):
    the fixed output columns, the per-response input row, the Response /
    Assessment / Student / Domain hierarchy, the `responses` validator that
    numbers questions, and the Session whose `populate_domains` fills its
    domain map in place. */
module StudentWorksheet {
  import opened Wrappers
  import opened Sequences
  import opened Text

  // ---------------------------------------------------------------------
  // Output columns
  // ---------------------------------------------------------------------

  /** The members of the `OutputColums` enum. */
  datatype Column =
    | SessionId | TestDate | StudentGuid | Subject | AssessmentGuid
    | CalculatedRawScore | ScaledScoreBasedOnCalculated
    | QuestionDomain | DomainRawScore | TotalTimeSpentOnTest
    | TimeSpentOnItem | ResponseValue | ResponseRawScore

  /** The enum in iteration (declaration) order. */
  function Columns(): seq<Column> {
    [SessionId, TestDate, StudentGuid, Subject, AssessmentGuid,
     CalculatedRawScore, ScaledScoreBasedOnCalculated,
     QuestionDomain, DomainRawScore, TotalTimeSpentOnTest,
     TimeSpentOnItem, ResponseValue, ResponseRawScore]
  }

  /** The string value of each enum member. */
  function ColumnValue(c: Column): string {
    match c
    case SessionId => "session_id"
    case TestDate => "test_date"
    case StudentGuid => "student_guid"
    case Subject => "subject"
    case AssessmentGuid => "assessment_guid"
    case CalculatedRawScore => "calculated_raw_score"
    case ScaledScoreBasedOnCalculated => "scaled_score_based_on_calculated"
    case QuestionDomain => "question_domain"
    case DomainRawScore => "domain_raw_score"
    case TotalTimeSpentOnTest => "total_time_spent_on_test"
    case TimeSpentOnItem => "time_spent_on_item"
    case ResponseValue => "response_value"
    case ResponseRawScore => "response_raw_score"
  }

  /** The five columns that expand into a numbered group of cells. */
  predicate IsRepeated(c: Column) {
    c.QuestionDomain? || c.DomainRawScore? || c.TimeSpentOnItem? || c.ResponseValue? || c.ResponseRawScore?
  }

  /** Every enum member is listed. */
  lemma ColumnsListed()
    ensures |Columns()| == 13 && forall c: Column :: c in Columns()
  {
    forall c: Column ensures c in Columns() {
      match c
      case SessionId => assert Columns()[0] == c;
      case TestDate => assert Columns()[1] == c;
      case StudentGuid => assert Columns()[2] == c;
      case Subject => assert Columns()[3] == c;
      case AssessmentGuid => assert Columns()[4] == c;
      case CalculatedRawScore => assert Columns()[5] == c;
      case ScaledScoreBasedOnCalculated => assert Columns()[6] == c;
      case QuestionDomain => assert Columns()[7] == c;
      case DomainRawScore => assert Columns()[8] == c;
      case TotalTimeSpentOnTest => assert Columns()[9] == c;
      case TimeSpentOnItem => assert Columns()[10] == c;
      case ResponseValue => assert Columns()[11] == c;
      case ResponseRawScore => assert Columns()[12] == c;
    }
  }

  /** No two members share a value. */
  lemma ColumnValuesDistinct()
    ensures forall i, j :: 0 <= i < j < |Columns()| ==> ColumnValue(Columns()[i]) != ColumnValue(Columns()[j])
  {
    var vs := seq(|Columns()|, i requires 0 <= i < |Columns()| => ColumnValue(Columns()[i]));
    assert vs == ["session_id", "test_date", "student_guid", "subject", "assessment_guid",
                  "calculated_raw_score", "scaled_score_based_on_calculated", "question_domain",
                  "domain_raw_score", "total_time_spent_on_test", "time_spent_on_item",
                  "response_value", "response_raw_score"];
    assert Distinct(vs);
  }

  /** The repeated members sit at positions 7, 8, 10, 11 and 12; the scalar
      ones are, in order, the eight below. */
  lemma ColumnsRepeated()
    ensures forall i :: 0 <= i < |Columns()| ==> (IsRepeated(Columns()[i]) <==> i in {7, 8, 10, 11, 12})
    ensures [Columns()[0], Columns()[1], Columns()[2], Columns()[3], Columns()[4], Columns()[5], Columns()[6], Columns()[9]]
         == [SessionId, TestDate, StudentGuid, Subject, AssessmentGuid,
             CalculatedRawScore, ScaledScoreBasedOnCalculated, TotalTimeSpentOnTest]
  {
  }

  /** The enum has 13 members, each listed once, with 13 distinct values (a
      Python enum would silently alias a repeated value), and its scalar
      members are, in order, the eight below. */
  lemma ColumnsEnumerated()
    ensures |Columns()| == 13 && Distinct(Columns())
    ensures forall c: Column :: c in Columns()
    ensures forall i, j :: 0 <= i < j < |Columns()| ==> ColumnValue(Columns()[i]) != ColumnValue(Columns()[j])
    ensures forall i :: 0 <= i < |Columns()| ==> (IsRepeated(Columns()[i]) <==> i in {7, 8, 10, 11, 12})
    ensures [Columns()[0], Columns()[1], Columns()[2], Columns()[3], Columns()[4], Columns()[5], Columns()[6], Columns()[9]]
         == [SessionId, TestDate, StudentGuid, Subject, AssessmentGuid,
             CalculatedRawScore, ScaledScoreBasedOnCalculated, TotalTimeSpentOnTest]
  {
    ColumnsListed();
    ColumnValuesDistinct();
    ColumnsRepeated();
  }

  // ---------------------------------------------------------------------
  // Records
  // ---------------------------------------------------------------------

  /** One typed input row (`ResponseIn`). */
  datatype ResponseIn = ResponseIn(
    studentGuid: string,
    subject: string,
    sessionId: string,
    responseId: string,
    questionId: string,
    itemReferenceId: string,
    assessmentGuid: string,
    testDate: string,
    formName: string,
    totalTimeSpentOnTest: int,
    numberOfItems: int,
    numberOfOperationalItems: int,
    attempted: bool,
    isOperationalQuestion: bool,
    questionType: string,
    timeSpentOnItem: int,
    responseValue: int,
    responseRawScore: int,
    responseMaxScore: int,
    calculatedRawScore: int,
    calculatedOperationalScore: int,
    maxOperationalScore: int,
    scaledScoreBasedOnCalculated: int,
    questionDomain: string,
    domainRawScore: int,
    domainMaxScore: int,
    dtScoreUpdated: string,
    dtSaved: string)

  /** `Response`: an input row plus its 1-based question counter. */
  datatype Response = Response(record: ResponseIn, questionCounter: int)

  /** One student's attempt at one assessment. */
  datatype Assessment = Assessment(
    assessmentGuid: string,
    subject: string,
    testDate: string,
    totalTimeSpentOnTest: int,
    calculatedRawScore: int,
    scaledScoreBasedOnCalculated: int,
    responses: seq<Response>)

  datatype Student = Student(studentGuid: string, assessments: seq<Assessment>)

  datatype DomainStudent = DomainStudent(studentGuid: string, domainRawScore: int, domainMaxScore: int)

  /** A domain of one session; `domainStudents` is keyed by student guid. */
  datatype Domain = Domain(questionDomain: string, domainStudents: map<string, DomainStudent>)

  // ---------------------------------------------------------------------
  // Header labels of the numbered column groups
  // ---------------------------------------------------------------------

  function QuestionDomainHeader(counter: int): string {
    "Question Domain " + IntToString(counter) + " Name"
  }

  function QuestionDomainRawScoreHeader(counter: int): string {
    "Question Domain " + IntToString(counter) + " Raw Score"
  }

  function TimeSpentOnItemHeader(counter: int): string {
    "Time Spent on Question " + IntToString(counter)
  }

  function ResponseValueHeader(counter: int): string {
    "Response Value for Question " + IntToString(counter)
  }

  function ResponseRawScoreHeader(counter: int): string {
    "Response Raw Score for Question " + IntToString(counter)
  }

  /** Within one group, different counters give different labels. */
  lemma HeaderLabelsInjective(a: int, b: int)
    requires QuestionDomainHeader(a) == QuestionDomainHeader(b)
          || QuestionDomainRawScoreHeader(a) == QuestionDomainRawScoreHeader(b)
          || TimeSpentOnItemHeader(a) == TimeSpentOnItemHeader(b)
          || ResponseValueHeader(a) == ResponseValueHeader(b)
          || ResponseRawScoreHeader(a) == ResponseRawScoreHeader(b)
    ensures a == b
  {
    var sa, sb := IntToString(a), IntToString(b);
    assert QuestionDomainHeader(a) == QuestionDomainHeader(b) ==> sa == sb by {
      var x, y := QuestionDomainHeader(a), QuestionDomainHeader(b);
      assert x[16..|x| - 5] == sa && y[16..|y| - 5] == sb;
    }
    assert QuestionDomainRawScoreHeader(a) == QuestionDomainRawScoreHeader(b) ==> sa == sb by {
      var x, y := QuestionDomainRawScoreHeader(a), QuestionDomainRawScoreHeader(b);
      assert x[16..|x| - 10] == sa && y[16..|y| - 10] == sb;
    }
    assert TimeSpentOnItemHeader(a) == TimeSpentOnItemHeader(b) ==> sa == sb by {
      var x, y := TimeSpentOnItemHeader(a), TimeSpentOnItemHeader(b);
      assert x[23..] == sa && y[23..] == sb;
    }
    assert ResponseValueHeader(a) == ResponseValueHeader(b) ==> sa == sb by {
      var x, y := ResponseValueHeader(a), ResponseValueHeader(b);
      assert x[28..] == sa && y[28..] == sb;
    }
    assert ResponseRawScoreHeader(a) == ResponseRawScoreHeader(b) ==> sa == sb by {
      var x, y := ResponseRawScoreHeader(a), ResponseRawScoreHeader(b);
      assert x[32..] == sa && y[32..] == sb;
    }
    IntToStringInjective(a, b);
  }

  // ---------------------------------------------------------------------
  // The `responses` validator of Assessment
  // ---------------------------------------------------------------------

  /** What the validator may be handed: a list whose elements are raw rows,
      already-numbered responses or anything else, or a value that is not a
      list at all. */
  datatype RawResponse = Incoming(record: ResponseIn) | Counted(response: Response) | Foreign
  datatype RawResponses = ListValue(items: seq<RawResponse>) | NotAList

  const WrongTypeErrorMessage: string := "responses must be a list of `ResponseIn`"

  /** The response the validator keeps for element `item` at 0-based index i. */
  function Validated(item: RawResponse, i: nat): Response
    requires !item.Foreign?
  {
    match item
    case Counted(r) => r
    case Incoming(rec) => Response(rec, i + 1)
  }

  /** `Assessment.parse_raw_responses`. */
  method ParseRawResponses(v: RawResponses) returns (res: Result<seq<Response>, string>)
    ensures res.Failure? <==> v.NotAList? || exists i :: 0 <= i < |v.items| && v.items[i].Foreign?
    ensures res.Failure? ==> res.error == WrongTypeErrorMessage
    ensures res.Success? ==> v.ListValue? && |res.value| == |v.items|
    ensures res.Success? ==> forall i :: 0 <= i < |v.items| ==> res.value[i] == Validated(v.items[i], i)
  {
    if v.NotAList? {
      return Failure(WrongTypeErrorMessage);
    }
    var responses: seq<Response> := [];
    var i := 0;
    while i < |v.items|
      invariant 0 <= i <= |v.items| && |responses| == i
      invariant forall k :: 0 <= k < i ==> !v.items[k].Foreign? && responses[k] == Validated(v.items[k], k)
    {
      var raw := v.items[i];
      if raw.Counted? {
        responses := responses + [raw.response];
        i := i + 1;
        continue;
      } else if raw.Foreign? {
        return Failure(WrongTypeErrorMessage);
      }
      responses := responses + [Response(raw.record, i + 1)];  // counters start at 1
      i := i + 1;
    }
    return Success(responses);
  }

  // ---------------------------------------------------------------------
  // Session.populate_domains
  // ---------------------------------------------------------------------

  /** One iteration of the innermost loop: a student and one of its responses. */
  datatype Visit = Visit(studentGuid: string, response: Response)

  function DomainOf(v: Visit): string {
    v.response.record.questionDomain
  }

  function ResponseVisits(g: string, responses: seq<Response>): seq<Visit> {
    if responses == [] then []
    else ResponseVisits(g, responses[..|responses| - 1]) + [Visit(g, responses[|responses| - 1])]
  }

  function AssessmentVisits(g: string, assessments: seq<Assessment>): seq<Visit> {
    if assessments == [] then []
    else AssessmentVisits(g, assessments[..|assessments| - 1]) + ResponseVisits(g, assessments[|assessments| - 1].responses)
  }

  /** Every response of every assessment of every student, in (student,
      assessment, response) order: the order populate_domains scans. */
  function Visits(students: seq<Student>): seq<Visit> {
    if students == [] then []
    else
      var last := students[|students| - 1];
      Visits(students[..|students| - 1]) + AssessmentVisits(last.studentGuid, last.assessments)
  }

  /** A session's `domains` dict: keys in insertion order plus the map. */
  datatype DomainState = DomainState(order: seq<string>, domains: map<string, Domain>)

  const NoDomains := DomainState([], map[])

  /** What any Python dict satisfies: each key listed once, and the listed
      keys are the keys of the map. */
  predicate IsDict(st: DomainState) {
    && Distinct(st.order)
    && (forall i :: 0 <= i < |st.order| ==> st.order[i] in st.domains)
    && (forall d :: d in st.domains ==> d in st.order)
  }

  /** A dict whose every Domain and DomainStudent is filed under its own
      name. */
  predicate WellFormed(st: DomainState) {
    && IsDict(st)
    && (forall d :: d in st.domains ==> st.domains[d].questionDomain == d)
    && (forall d, g :: d in st.domains && g in st.domains[d].domainStudents ==>
          st.domains[d].domainStudents[g].studentGuid == g)
  }

  /** The (domain, student) entry exists. */
  predicate HasEntry(st: DomainState, d: string, g: string) {
    d in st.domains && g in st.domains[d].domainStudents
  }

  /** The body of the innermost loop of populate_domains. */
  function Record(st: DomainState, v: Visit): DomainState {
    var name, g := DomainOf(v), v.studentGuid;
    var st1 := if name in st.domains then st
               else DomainState(st.order + [name], st.domains[name := Domain(name, map[])]);
    var domain := st1.domains[name];
    if g in domain.domainStudents then st1
    else
      var entry := DomainStudent(g, v.response.record.domainRawScore, v.response.record.domainMaxScore);
      st1.(domains := st1.domains[name := domain.(domainStudents := domain.domainStudents[g := entry])])
  }

  /** The state after scanning `vs` from `st`. */
  function Populate(st: DomainState, vs: seq<Visit>): DomainState {
    if vs == [] then st else Record(Populate(st, vs[..|vs| - 1]), vs[|vs| - 1])
  }

  function DomainNames(vs: seq<Visit>): seq<string> {
    if vs == [] then [] else DomainNames(vs[..|vs| - 1]) + [DomainOf(vs[|vs| - 1])]
  }

  predicate Touches(v: Visit, d: string, g: string) {
    DomainOf(v) == d && v.studentGuid == g
  }

  /** One scan step: the domain is registered if new, the (domain, student)
      entry is created if new, and nothing else changes. */
  lemma RecordKeys(st: DomainState, v: Visit)
    ensures Record(st, v).domains.Keys == st.domains.Keys + {DomainOf(v)}
  {
  }

  lemma RecordEntry(st: DomainState, v: Visit, d: string, g: string)
    ensures HasEntry(Record(st, v), d, g) <==> HasEntry(st, d, g) || Touches(v, d, g)
  {
  }

  lemma RecordNew(st: DomainState, v: Visit)
    requires !HasEntry(st, DomainOf(v), v.studentGuid)
    ensures HasEntry(Record(st, v), DomainOf(v), v.studentGuid)
    ensures Record(st, v).domains[DomainOf(v)].domainStudents[v.studentGuid]
         == DomainStudent(v.studentGuid, v.response.record.domainRawScore, v.response.record.domainMaxScore)
  {
  }

  lemma RecordWellFormed(st: DomainState, v: Visit)
    requires WellFormed(st)
    ensures WellFormed(Record(st, v))
  {
    var r := Record(st, v);
    assert IsDict(r) by {
      RecordKeys(st, v);
      RecordOrder(st, v);
    }
    forall d | d in r.domains
      ensures r.domains[d].questionDomain == d
    {
      if d != DomainOf(v) {
        assert r.domains[d] == st.domains[d];
      }
    }
    forall d, g | HasEntry(r, d, g)
      ensures r.domains[d].domainStudents[g].studentGuid == g
    {
      RecordEntry(st, v, d, g);
      if HasEntry(st, d, g) {
        RecordKeep(st, v, d, g);
      } else {
        RecordNew(st, v);
      }
    }
  }

  lemma RecordKeep(st: DomainState, v: Visit, d: string, g: string)
    requires HasEntry(st, d, g)
    ensures HasEntry(Record(st, v), d, g)
    ensures Record(st, v).domains[d].domainStudents[g] == st.domains[d].domainStudents[g]
  {
  }

  lemma {:induction false} PopulateWellFormed(st: DomainState, vs: seq<Visit>)
    requires WellFormed(st)
    ensures WellFormed(Populate(st, vs))
  {
    if vs != [] {
      PopulateWellFormed(st, vs[..|vs| - 1]);
      RecordWellFormed(Populate(st, vs[..|vs| - 1]), vs[|vs| - 1]);
    }
  }

  lemma RecordOrder(st: DomainState, v: Visit)
    ensures Record(st, v).order == if DomainOf(v) in st.domains then st.order else st.order + [DomainOf(v)]
  {
  }

  /** In a well-formed state whose keys are the first-seen names, a name is
      a key exactly when it was seen. */
  lemma KnownIffSeen(st: DomainState, names: seq<string>, name: string)
    requires WellFormed(st) && st.order == FirstSeen(names)
    ensures name in st.domains <==> name in names
  {
    if name in names {
      var i :| 0 <= i < |names| && names[i] == name;
    }
  }

  lemma DomainNamesSnoc(order: seq<string>, vs: seq<Visit>)
    requires vs != []
    ensures order + DomainNames(vs) == (order + DomainNames(vs[..|vs| - 1])) + [DomainOf(vs[|vs| - 1])]
  {
    var names, name := DomainNames(vs[..|vs| - 1]), DomainOf(vs[|vs| - 1]);
    assert DomainNames(vs) == names + [name];
    AppendAssoc(order, names, [name]);
  }

  lemma PopulateOrderStep(st: DomainState, vs: seq<Visit>)
    requires WellFormed(st) && vs != []
    requires Populate(st, vs[..|vs| - 1]).order == FirstSeen(st.order + DomainNames(vs[..|vs| - 1]))
    ensures Populate(st, vs).order == FirstSeen(st.order + DomainNames(vs))
  {
    var p, v := vs[..|vs| - 1], vs[|vs| - 1];
    var name := DomainOf(v);
    var before := Populate(st, p);
    var names := st.order + DomainNames(p);
    RecordOrder(before, v);
    assert name in before.domains <==> name in names by {
      PopulateWellFormed(st, p);
      KnownIffSeen(before, names, name);
    }
    DomainNamesSnoc(st.order, vs);
    FirstSeenSnoc(names, name);
  }

  /** Domain keys come out in first-seen order of the scanned domain names,
      after the keys already present. */
  lemma {:induction false} PopulateOrder(st: DomainState, vs: seq<Visit>)
    requires WellFormed(st)
    ensures Populate(st, vs).order == FirstSeen(st.order + DomainNames(vs))
  {
    if vs == [] {
      assert st.order + DomainNames(vs) == st.order;
      FirstSeenOfDistinct(st.order);
    } else {
      PopulateOrder(st, vs[..|vs| - 1]);
      PopulateOrderStep(st, vs);
    }
  }

  /** A (domain, student) entry exists afterwards exactly when it existed
      before or some scanned response of that student is in that domain. */
  lemma {:induction false} PopulateEntries(st: DomainState, vs: seq<Visit>, d: string, g: string)
    ensures HasEntry(Populate(st, vs), d, g) <==>
      HasEntry(st, d, g) || exists i :: 0 <= i < |vs| && Touches(vs[i], d, g)
  {
    if vs != [] {
      var p, v := vs[..|vs| - 1], vs[|vs| - 1];
      PopulateEntries(st, p, d, g);
      RecordEntry(Populate(st, p), v, d, g);
      if exists i :: 0 <= i < |p| && Touches(p[i], d, g) {
        var i :| 0 <= i < |p| && Touches(p[i], d, g);
        assert Touches(vs[i], d, g);
      }
      if exists i :: 0 <= i < |vs| && Touches(vs[i], d, g) {
        var i :| 0 <= i < |vs| && Touches(vs[i], d, g);
        if i < |p| {
          assert Touches(p[i], d, g);
        }
      }
    }
  }

  /** A domain key exists afterwards exactly when it existed before or some
      scanned response is in that domain. */
  lemma {:induction false} PopulateKeys(st: DomainState, vs: seq<Visit>, d: string)
    ensures d in Populate(st, vs).domains <==>
      d in st.domains || exists i :: 0 <= i < |vs| && DomainOf(vs[i]) == d
  {
    if vs != [] {
      var p, v := vs[..|vs| - 1], vs[|vs| - 1];
      PopulateKeys(st, p, d);
      RecordKeys(Populate(st, p), v);
      if exists i :: 0 <= i < |p| && DomainOf(p[i]) == d {
        var i :| 0 <= i < |p| && DomainOf(p[i]) == d;
        assert DomainOf(vs[i]) == d;
      }
      if exists i :: 0 <= i < |vs| && DomainOf(vs[i]) == d {
        var i :| 0 <= i < |vs| && DomainOf(vs[i]) == d;
        if i < |p| {
          assert DomainOf(p[i]) == d;
        }
      }
    }
  }

  /** Entries already present are never overwritten. */
  lemma {:induction false} PopulateKeeps(st: DomainState, vs: seq<Visit>, d: string, g: string)
    requires HasEntry(st, d, g)
    ensures HasEntry(Populate(st, vs), d, g)
    ensures Populate(st, vs).domains[d].domainStudents[g] == st.domains[d].domainStudents[g]
  {
    if vs != [] {
      PopulateKeeps(st, vs[..|vs| - 1], d, g);
      RecordKeep(Populate(st, vs[..|vs| - 1]), vs[|vs| - 1], d, g);
    }
  }

  /** A new entry holds the scores of the first scanned response of that
      student in that domain; later responses never replace it. */
  lemma {:induction false} PopulateFirstWins(st: DomainState, vs: seq<Visit>, i: nat)
    requires i < |vs|
    requires !HasEntry(st, DomainOf(vs[i]), vs[i].studentGuid)
    requires forall j :: 0 <= j < i ==> !Touches(vs[j], DomainOf(vs[i]), vs[i].studentGuid)
    ensures HasEntry(Populate(st, vs), DomainOf(vs[i]), vs[i].studentGuid)
    ensures Populate(st, vs).domains[DomainOf(vs[i])].domainStudents[vs[i].studentGuid]
         == DomainStudent(vs[i].studentGuid, vs[i].response.record.domainRawScore, vs[i].response.record.domainMaxScore)
  {
    var d, g := DomainOf(vs[i]), vs[i].studentGuid;
    var p := vs[..|vs| - 1];
    if i < |vs| - 1 {
      PopulateFirstWins(st, p, i);
      PopulateKeeps(Populate(st, p), [vs[|vs| - 1]], d, g);
      assert Populate(Populate(st, p), [vs[|vs| - 1]]) == Populate(st, vs) by {
        assert [vs[|vs| - 1]][..0] == [];
      }
    } else {
      PopulateEntries(st, p, d, g);
      assert forall j :: 0 <= j < |p| ==> p[j] == vs[j];
      RecordNew(Populate(st, p), vs[i]);
    }
  }

  /** Scanning responses whose entries all exist changes nothing. */
  lemma {:induction false} PopulateSaturated(st: DomainState, vs: seq<Visit>)
    requires forall i :: 0 <= i < |vs| ==> HasEntry(st, DomainOf(vs[i]), vs[i].studentGuid)
    ensures Populate(st, vs) == st
  {
    if vs != [] {
      PopulateSaturated(st, vs[..|vs| - 1]);
    }
  }

  /** A second populate_domains over the same students changes nothing. */
  lemma PopulateIdempotent(st: DomainState, vs: seq<Visit>)
    ensures Populate(Populate(st, vs), vs) == Populate(st, vs)
  {
    forall i | 0 <= i < |vs|
      ensures HasEntry(Populate(st, vs), DomainOf(vs[i]), vs[i].studentGuid)
    {
      PopulateEntries(st, vs, DomainOf(vs[i]), vs[i].studentGuid);
    }
    PopulateSaturated(Populate(st, vs), vs);
  }

  // ---------------------------------------------------------------------
  // The scan order
  // ---------------------------------------------------------------------

  lemma ResponseVisitsStep(g: string, responses: seq<Response>, k: nat)
    requires k < |responses|
    ensures ResponseVisits(g, responses[..k + 1]) == ResponseVisits(g, responses[..k]) + [Visit(g, responses[k])]
  {
    assert responses[..k + 1][..k] == responses[..k];
  }

  lemma AssessmentVisitsStep(g: string, assessments: seq<Assessment>, j: nat)
    requires j < |assessments|
    ensures AssessmentVisits(g, assessments[..j + 1])
         == AssessmentVisits(g, assessments[..j]) + ResponseVisits(g, assessments[j].responses)
  {
    assert assessments[..j + 1][..j] == assessments[..j];
  }

  lemma VisitsStep(students: seq<Student>, i: nat)
    requires i < |students|
    ensures Visits(students[..i + 1])
         == Visits(students[..i]) + AssessmentVisits(students[i].studentGuid, students[i].assessments)
  {
    assert students[..i + 1][..i] == students[..i];
  }

  /** Scanning `a + b` is scanning `a`, then `b`. */
  lemma {:induction false} PopulateConcat(st: DomainState, a: seq<Visit>, b: seq<Visit>)
    ensures Populate(st, a + b) == Populate(Populate(st, a), b)
  {
    if b == [] {
      assert a + b == a;
    } else {
      var p, v := b[..|b| - 1], b[|b| - 1];
      assert (a + b)[..|a + b| - 1] == a + p && (a + b)[|a + b| - 1] == v;
      calc {
        Populate(st, a + b);
        Record(Populate(st, a + p), v);
        { PopulateConcat(st, a, p); }
        Record(Populate(Populate(st, a), p), v);
        Populate(Populate(st, a), b);
      }
    }
  }

  lemma {:induction false} ResponseVisitsMember(g: string, responses: seq<Response>, v: Visit)
    ensures v in ResponseVisits(g, responses) <==> v.studentGuid == g && v.response in responses
  {
    if responses != [] {
      var p := responses[..|responses| - 1];
      ResponseVisitsMember(g, p, v);
      assert responses == p + [responses[|responses| - 1]];
    }
  }

  /** A scanned pair comes from one of the assessments. */
  lemma {:induction false} AssessmentVisitsSound(g: string, assessments: seq<Assessment>, v: Visit) returns (k: nat)
    requires v in AssessmentVisits(g, assessments)
    ensures v.studentGuid == g && k < |assessments| && v.response in assessments[k].responses
  {
    var n := |assessments| - 1;
    var p := assessments[..n];
    ResponseVisitsMember(g, assessments[n].responses, v);
    if v in AssessmentVisits(g, p) {
      k := AssessmentVisitsSound(g, p, v);
      assert assessments[k] == p[k];
    } else {
      k := n;
    }
  }

  /** Every response of every assessment is scanned. */
  lemma {:induction false} AssessmentVisitsComplete(g: string, assessments: seq<Assessment>, v: Visit, k: nat)
    requires v.studentGuid == g && k < |assessments| && v.response in assessments[k].responses
    ensures v in AssessmentVisits(g, assessments)
  {
    var n := |assessments| - 1;
    var p := assessments[..n];
    if k < n {
      assert p[k] == assessments[k];
      AssessmentVisitsComplete(g, p, v, k);
    } else {
      ResponseVisitsMember(g, assessments[n].responses, v);
    }
  }

  lemma AssessmentVisitsMember(g: string, assessments: seq<Assessment>, v: Visit)
    ensures v in AssessmentVisits(g, assessments) <==>
      v.studentGuid == g && exists k :: 0 <= k < |assessments| && v.response in assessments[k].responses
  {
    if v in AssessmentVisits(g, assessments) {
      var k := AssessmentVisitsSound(g, assessments, v);
    } else if v.studentGuid == g && exists k :: 0 <= k < |assessments| && v.response in assessments[k].responses {
      var k :| 0 <= k < |assessments| && v.response in assessments[k].responses;
      AssessmentVisitsComplete(g, assessments, v, k);
    }
  }

  /** A scanned pair comes from one student's assessment. */
  lemma {:induction false} VisitsSound(students: seq<Student>, v: Visit) returns (j: nat, k: nat)
    requires v in Visits(students)
    ensures j < |students| && k < |students[j].assessments|
    ensures v.studentGuid == students[j].studentGuid && v.response in students[j].assessments[k].responses
  {
    var n := |students| - 1;
    var p := students[..n];
    if v in Visits(p) {
      j, k := VisitsSound(p, v);
      assert students[j] == p[j];
    } else {
      j := n;
      k := AssessmentVisitsSound(students[n].studentGuid, students[n].assessments, v);
    }
  }

  /** Every response of every student is scanned, paired with that student. */
  lemma {:induction false} VisitsComplete(students: seq<Student>, v: Visit, j: nat, k: nat)
    requires j < |students| && k < |students[j].assessments|
    requires v.studentGuid == students[j].studentGuid && v.response in students[j].assessments[k].responses
    ensures v in Visits(students)
  {
    var n := |students| - 1;
    var p := students[..n];
    if j < n {
      assert p[j] == students[j];
      VisitsComplete(p, v, j, k);
    } else {
      AssessmentVisitsComplete(students[n].studentGuid, students[n].assessments, v, k);
    }
  }

  /** The scan visits exactly the (student, response) pairs of the session. */
  lemma VisitsMember(students: seq<Student>, v: Visit)
    ensures v in Visits(students) <==>
      exists j, k :: 0 <= j < |students| && 0 <= k < |students[j].assessments| &&
        v.studentGuid == students[j].studentGuid && v.response in students[j].assessments[k].responses
  {
    if v in Visits(students) {
      var j, k := VisitsSound(students, v);
    } else if exists j, k :: 0 <= j < |students| && 0 <= k < |students[j].assessments| &&
                             v.studentGuid == students[j].studentGuid &&
                             v.response in students[j].assessments[k].responses {
      var j, k :| 0 <= j < |students| && 0 <= k < |students[j].assessments| &&
        v.studentGuid == students[j].studentGuid && v.response in students[j].assessments[k].responses;
      VisitsComplete(students, v, j, k);
    }
  }

  /** The student has a response in domain d. */
  predicate AnsweredIn(s: Student, d: string) {
    exists k, r :: 0 <= k < |s.assessments| && r in s.assessments[k].responses && r.record.questionDomain == d
  }

  /** A scanned pair's student answered in the pair's domain. */
  lemma VisitAnswered(students: seq<Student>, i: nat) returns (j: nat)
    requires i < |Visits(students)|
    ensures j < |students| && students[j].studentGuid == Visits(students)[i].studentGuid
    ensures AnsweredIn(students[j], DomainOf(Visits(students)[i]))
  {
    var v := Visits(students)[i];
    var k;
    j, k := VisitsSound(students, v);
    assert v.response in students[j].assessments[k].responses;
  }

  /** A student's answer in domain d is scanned. */
  lemma AnswerVisited(students: seq<Student>, j: nat, d: string) returns (i: nat)
    requires j < |students| && AnsweredIn(students[j], d)
    ensures i < |Visits(students)| && Touches(Visits(students)[i], d, students[j].studentGuid)
  {
    var k, r :| 0 <= k < |students[j].assessments| && r in students[j].assessments[k].responses &&
                r.record.questionDomain == d;
    var v := Visit(students[j].studentGuid, r);
    VisitsComplete(students, v, j, k);
    i :| 0 <= i < |Visits(students)| && Visits(students)[i] == v;
  }

  /** The scan visits some response of the session in domain d exactly when
      a student answered in d. */
  lemma VisitsInDomain(students: seq<Student>, d: string)
    ensures (exists i :: 0 <= i < |Visits(students)| && DomainOf(Visits(students)[i]) == d) <==>
      exists j :: 0 <= j < |students| && AnsweredIn(students[j], d)
  {
    var vs := Visits(students);
    if exists i :: 0 <= i < |vs| && DomainOf(vs[i]) == d {
      var i :| 0 <= i < |vs| && DomainOf(vs[i]) == d;
      var j := VisitAnswered(students, i);
    }
    if exists j :: 0 <= j < |students| && AnsweredIn(students[j], d) {
      var j :| 0 <= j < |students| && AnsweredIn(students[j], d);
      var i := AnswerVisited(students, j, d);
    }
  }

  /** The scan visits a response of student g in domain d exactly when
      student g answered in d. */
  lemma VisitsTouching(students: seq<Student>, d: string, g: string)
    ensures (exists i :: 0 <= i < |Visits(students)| && Touches(Visits(students)[i], d, g)) <==>
      exists j :: 0 <= j < |students| && students[j].studentGuid == g && AnsweredIn(students[j], d)
  {
    var vs := Visits(students);
    if exists i :: 0 <= i < |vs| && Touches(vs[i], d, g) {
      var i :| 0 <= i < |vs| && Touches(vs[i], d, g);
      var j := VisitAnswered(students, i);
    }
    if exists j :: 0 <= j < |students| && students[j].studentGuid == g && AnsweredIn(students[j], d) {
      var j :| 0 <= j < |students| && students[j].studentGuid == g && AnsweredIn(students[j], d);
      var i := AnswerVisited(students, j, d);
    }
  }

  /** What populate_domains leaves in a freshly built session: one domain per
      distinct question_domain (the empty string included), and an entry for
      (d, g) exactly when student g answered a question in domain d. */
  lemma SessionDomains(students: seq<Student>, d: string, g: string)
    ensures WellFormed(Populate(NoDomains, Visits(students)))
    ensures d in Populate(NoDomains, Visits(students)).domains <==>
      exists j :: 0 <= j < |students| && AnsweredIn(students[j], d)
    ensures HasEntry(Populate(NoDomains, Visits(students)), d, g) <==>
      exists j :: 0 <= j < |students| && students[j].studentGuid == g && AnsweredIn(students[j], d)
  {
    var vs := Visits(students);
    PopulateWellFormed(NoDomains, vs);
    PopulateKeys(NoDomains, vs, d);
    VisitsInDomain(students, d);
    PopulateEntries(NoDomains, vs, d, g);
    VisitsTouching(students, d, g);
  }

  /** A session: its students, attached once, and the `domains` dict that
      populate_domains fills in place. */
  class Session {
    const sessionId: string
    const students: seq<Student>
    var domainOrder: seq<string>
    var domains: map<string, Domain>

    function State(): DomainState
      reads this
    {
      DomainState(domainOrder, domains)
    }

    constructor (sessionId: string, students: seq<Student>)
      ensures this.sessionId == sessionId && this.students == students
      ensures State() == NoDomains && WellFormed(State())
    {
      this.sessionId := sessionId;
      this.students := students;
      domainOrder := [];
      domains := map[];
    }

    /** The body of the innermost loop of populate_domains: register the
        response's domain if unseen, then the (domain, student) entry if
        unseen, with this response's domain scores. */
    method RecordVisit(g: string, response: Response)
      modifies this
      ensures State() == Record(old(State()), Visit(g, response))
    {
      var name := response.record.questionDomain;
      if name !in domains {
        domains := domains[name := Domain(name, map[])];
        domainOrder := domainOrder + [name];
      }
      if g !in domains[name].domainStudents {
        var entry := DomainStudent(g, response.record.domainRawScore, response.record.domainMaxScore);
        domains := domains[name := domains[name].(domainStudents := domains[name].domainStudents[g := entry])];
      }
    }

    /** The innermost loop of populate_domains: one assessment's responses. */
    method RecordResponses(g: string, responses: seq<Response>)
      modifies this
      ensures State() == Populate(old(State()), ResponseVisits(g, responses))
    {
      ghost var start := State();
      var k := 0;
      while k < |responses|
        invariant 0 <= k <= |responses|
        invariant State() == Populate(start, ResponseVisits(g, responses[..k]))
      {
        RecordVisit(g, responses[k]);
        ResponseVisitsStep(g, responses, k);
        k := k + 1;
      }
      assert responses[..k] == responses;
    }

    /** The middle loop of populate_domains: one student's assessments. */
    method RecordAssessments(g: string, assessments: seq<Assessment>)
      modifies this
      ensures State() == Populate(old(State()), AssessmentVisits(g, assessments))
    {
      ghost var start := State();
      var j := 0;
      while j < |assessments|
        invariant 0 <= j <= |assessments|
        invariant State() == Populate(start, AssessmentVisits(g, assessments[..j]))
      {
        RecordResponses(g, assessments[j].responses);
        AssessmentVisitsStep(g, assessments, j);
        PopulateConcat(start, AssessmentVisits(g, assessments[..j]), ResponseVisits(g, assessments[j].responses));
        j := j + 1;
      }
      assert assessments[..j] == assessments;
    }

    /** `Session.populate_domains`: scans every response in (student,
        assessment, response) order and records each unseen domain and each
        unseen (domain, student) pair. */
    method PopulateDomains()
      modifies this
      ensures State() == Populate(old(State()), Visits(students))
      ensures old(WellFormed(State())) ==> WellFormed(State())
    {
      ghost var start := State();
      var i := 0;
      while i < |students|
        invariant 0 <= i <= |students|
        invariant State() == Populate(start, Visits(students[..i]))
      {
        RecordAssessments(students[i].studentGuid, students[i].assessments);
        VisitsStep(students, i);
        PopulateConcat(start, Visits(students[..i]), AssessmentVisits(students[i].studentGuid, students[i].assessments));
        i := i + 1;
      }
      assert students[..i] == students;
      if old(WellFormed(State())) {
        PopulateWellFormed(start, Visits(students));
      }
    }
  }
}
