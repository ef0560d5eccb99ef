/** src/scripts/flatten_student_worksheet.py: grouping the input rows into
    sessions, and writing the header and the flattened rows. Each method
    follows the loops of the Python function it is named after and is
    proved equal to the specification in Grouping and Layout. */
module FlattenStudentWorksheet {
  import opened Wrappers
  import opened Sequences
  import opened Text
  import opened StudentWorksheet
  import opened Grouping
  import opened Layout

  // ---------------------------------------------------------------------
  // build_sessions
  // ---------------------------------------------------------------------

  /** `Assessment.parse_obj(raw_responses[0].dict() | {"responses": raw_responses})`:
      the scalar fields come from the first row of the group and the
      validator numbers the rows. */
  method BuildAssessment(group: seq<ResponseIn>) returns (a: Assessment)
    requires |group| > 0
    ensures a == AssessmentOf(group)
    ensures Records(a) == group
    ensures forall n :: 0 <= n < |a.responses| ==> a.responses[n].questionCounter == n + 1
  {
    var items := seq(|group|, i requires 0 <= i < |group| => Incoming(group[i]));
    var parsed := ParseRawResponses(ListValue(items));
    var first := group[0];
    a := Assessment(first.assessmentGuid, first.subject, first.testDate, first.totalTimeSpentOnTest,
                    first.calculatedRawScore, first.scaledScoreBasedOnCalculated, parsed.value);
    assert parsed.value == Numbered(group);
    AssessmentOfRecords(group);
  }

  /** The first loop of build_sessions: every row appended to the list at
      `session_data[session_id][student_guid][assessment_guid]`. */
  method GroupRows(rs: seq<ResponseIn>) returns (sessionData: SessionData)
    ensures sessionData == GroupBySession(rs)
  {
    sessionData := EmptyDict();
    GroupBySessionEmpty();
    var i := 0;
    while i < |rs|
      invariant 0 <= i <= |rs|
      invariant sessionData == GroupBySession(rs[..i])
    {
      TakeSnoc(rs, i);
      AppendToSessionsGroups(rs[..i], rs[i]);
      sessionData := AppendToSessions(sessionData, rs[i]);
      i := i + 1;
    }
    assert rs[..i] == rs;
  }

  /** The innermost loop of the second half of build_sessions: one
      Assessment per list in `assessment_data.values()`. */
  method BuildAssessments(ghost rs: seq<ResponseIn>, assessmentData: AssessmentData) returns (assessments: seq<Assessment>)
    requires assessmentData == GroupByAssessment(rs)
    ensures assessments == AssessmentsOf(rs)
  {
    var keys := assessmentData.keys;
    assert AllKeys(rs, ByAssessment, keys);
    assessments := [];
    var k := 0;
    while k < |keys|
      invariant 0 <= k <= |keys|
      invariant AllKeys(rs, ByAssessment, keys[..k])
      invariant assessments == AssessmentsFor(rs, keys[..k])
    {
      var group := assessmentData.entries[keys[k]];
      var a := BuildAssessment(group);
      AssessmentsForStep(rs, keys, k);
      assessments := assessments + [a];
      k := k + 1;
    }
    assert keys[..k] == keys;
  }

  /** The middle loop: one Student per entry of `student_data`. */
  method BuildStudents(ghost rs: seq<ResponseIn>, studentData: StudentData) returns (students: seq<Student>)
    requires studentData == GroupByStudent(rs)
    ensures students == StudentsOf(rs)
  {
    var keys := studentData.keys;
    assert keys == FirstSeen(Keys(rs, ByStudent));
    students := [];
    var j := 0;
    while j < |keys|
      invariant 0 <= j <= |keys|
      invariant students == StudentsFor(rs, keys[..j])
    {
      var g := keys[j];
      GroupByStudentEntry(rs, g);
      var assessments := BuildAssessments(Select(rs, ByStudent, g), studentData.entries[g]);
      StudentsForStep(rs, keys, j);
      students := students + [Student(g, assessments)];
      j := j + 1;
    }
    assert keys[..j] == keys;
  }

  /** A session as build_sessions leaves it: the identity and students of
      `t`, and its domains populated from those students (which makes it
      well formed, by PopulateWellFormed). */
  predicate Built(s: Session, t: SessionTree)
    reads s
  {
    && s.sessionId == t.sessionId && s.students == t.students
    && s.State() == Populate(NoDomains, Visits(t.students))
  }

  /** The students of one session, built from its entry in `session_data`. */
  method BuildSessionTree(ghost rs: seq<ResponseIn>, sessionData: SessionData, sessionId: string) returns (t: SessionTree)
    requires sessionData == GroupBySession(rs) && sessionId in sessionData.keys
    ensures t == SessionTree(sessionId, StudentsOf(Select(rs, BySession, sessionId)))
  {
    GroupBySessionEntry(rs, sessionId);
    var students := BuildStudents(Select(rs, BySession, sessionId), sessionData.entries[sessionId]);
    t := SessionTree(sessionId, students);
  }

  /** `Session(session_id=..., students=...)` followed by
      `session.populate_domains()`. */
  method OpenSession(t: SessionTree) returns (session: Session)
    ensures fresh(session) && Built(session, t)
  {
    session := new Session(t.sessionId, t.students);
    session.PopulateDomains();
  }

  /** The students of every session, in the order of `session_data`. */
  method BuildSessionTrees(ghost rs: seq<ResponseIn>, sessionData: SessionData) returns (trees: seq<SessionTree>)
    requires sessionData == GroupBySession(rs)
    ensures trees == ExpectedSessions(rs)
  {
    var keys := sessionData.keys;
    trees := [];
    var i := 0;
    while i < |keys|
      invariant 0 <= i <= |keys|
      invariant trees == SessionsFor(rs, keys[..i])
    {
      var t := BuildSessionTree(rs, sessionData, keys[i]);
      SessionsForStep(rs, keys, i);
      trees := trees + [t];
      i := i + 1;
    }
    assert keys[..i] == keys;
  }

  /** One new, populated Session per tree. */
  method OpenSessions(trees: seq<SessionTree>) returns (sessions: seq<Session>)
    ensures |sessions| == |trees|
    ensures forall i :: 0 <= i < |sessions| ==> fresh(sessions[i]) && Built(sessions[i], trees[i])
  {
    sessions := [];
    var i := 0;
    while i < |trees|
      invariant 0 <= i <= |trees| && |sessions| == i
      invariant forall k :: 0 <= k < i ==> fresh(sessions[k]) && Built(sessions[k], trees[k])
    {
      var session := OpenSession(trees[i]);
      sessions := sessions + [session];
      i := i + 1;
    }
  }

  /** `build_sessions`: one new Session per distinct session_id in
      first-seen order, holding the students and assessments of the
      grouping, with its domains populated. */
  method BuildSessions(rs: seq<ResponseIn>) returns (sessions: seq<Session>)
    ensures |sessions| == |ExpectedSessions(rs)|
    ensures forall i :: 0 <= i < |sessions| ==> fresh(sessions[i]) && Built(sessions[i], ExpectedSessions(rs)[i])
  {
    var sessionData := GroupRows(rs);
    var trees := BuildSessionTrees(rs, sessionData);
    sessions := OpenSessions(trees);
  }

  // ---------------------------------------------------------------------
  // build_header_row
  // ---------------------------------------------------------------------

  lemma GroupsPrefix<T>(groups: seq<seq<T>>, i: nat)
    requires i < |groups|
    ensures Concat(groups[..i + 1]) == Concat(groups[..i]) + groups[i]
  {
    assert groups[..i + 1] == groups[..i] + [groups[i]];
    ConcatSnoc(groups[..i], groups[i]);
  }

  /** `build_header_row`: the header cells of every column in
      `OutputColums` order. */
  method BuildHeaderRow(maxDomains: int, maxQuestions: int) returns (row: seq<string>)
    ensures row == HeaderRow(maxDomains, maxQuestions)
    ensures maxDomains >= 0 && maxQuestions >= 0 ==> |row| == 8 + 2 * maxDomains + 3 * maxQuestions
  {
    var columns := Columns();
    var d, q := RangeLen(maxDomains), RangeLen(maxQuestions);
    row := [];
    var i := 0;
    while i < |columns|
      invariant 0 <= i <= |columns|
      invariant row == Concat(HeaderGroups(maxDomains, maxQuestions)[..i])
    {
      var column := columns[i];
      if column.QuestionDomain? {
        row := row + seq(d, k requires 0 <= k < d => QuestionDomainHeader(k + 1));
      } else if column.DomainRawScore? {
        row := row + seq(d, k requires 0 <= k < d => QuestionDomainRawScoreHeader(k + 1));
      } else if column.TimeSpentOnItem? {
        row := row + seq(q, k requires 0 <= k < q => TimeSpentOnItemHeader(k + 1));
      } else if column.ResponseValue? {
        row := row + seq(q, k requires 0 <= k < q => ResponseValueHeader(k + 1));
      } else if column.ResponseRawScore? {
        row := row + seq(q, k requires 0 <= k < q => ResponseRawScoreHeader(k + 1));
      } else {
        row := row + [ColumnValue(column)];
      }
      GroupsPrefix(HeaderGroups(maxDomains, maxQuestions), i);
      i := i + 1;
    }
    assert HeaderGroups(maxDomains, maxQuestions)[..i] == HeaderGroups(maxDomains, maxQuestions);
    HeaderLayout(maxDomains, maxQuestions);
  }

  // ---------------------------------------------------------------------
  // pad_row
  // ---------------------------------------------------------------------

  /** `pad_row`: None cells up to `max` when `actual` falls short of it. */
  method PadRow(row: seq<Cell>, actual: int, max: int) returns (padded: seq<Cell>)
    ensures padded == row + Padding(actual, max)
    ensures actual >= max ==> padded == row
    ensures |padded| == |row| + (if actual < max then max - actual else 0)
    ensures padded[..|row|] == row && forall i :: |row| <= i < |padded| ==> padded[i] == None
  {
    if actual >= max {
      return row;
    }
    padded := row + seq(max - actual, _ => None);
  }

  // ---------------------------------------------------------------------
  // build_rows_from_session
  // ---------------------------------------------------------------------

  /** `for domain in domains: row.append(domain.question_domain)` */
  method AppendNames(row: seq<Cell>, domains: seq<Domain>) returns (r: seq<Cell>)
    ensures r == row + NameCells(domains)
  {
    r := row;
    var k := 0;
    while k < |domains|
      invariant 0 <= k <= |domains|
      invariant r == row + NameCells(domains)[..k]
    {
      AppendAssoc(row, NameCells(domains)[..k], [Some(domains[k].questionDomain)]);
      assert NameCells(domains)[..k + 1] == NameCells(domains)[..k] + [Some(domains[k].questionDomain)];
      r := r + [Some(domains[k].questionDomain)];
      k := k + 1;
    }
    assert NameCells(domains)[..k] == NameCells(domains);
  }

  /** The raw-score loop: `domain.domain_students.get(student_guid)`, and a
      cell only when that entry exists. */
  method AppendScores(row: seq<Cell>, domains: seq<Domain>, g: string) returns (r: seq<Cell>)
    ensures r == row + ScoreCells(domains, g)
  {
    r := row;
    var k := 0;
    while k < |domains|
      invariant 0 <= k <= |domains|
      invariant r == row + ScoreCells(domains[..k], g)
    {
      var domain := domains[k];
      var domainStudent := if g in domain.domainStudents then Some(domain.domainStudents[g]) else None;
      assert domains[..k + 1][..k] == domains[..k];
      if domainStudent.Some? {
        var cell := Some(IntToString(domainStudent.value.domainRawScore));
        AppendAssoc(row, ScoreCells(domains[..k], g), [cell]);
        r := r + [cell];
      }
      k := k + 1;
    }
    assert domains[..k] == domains;
  }

  /** `for response in assessment.responses[:max_question_count]:
      row.append(str(<field>))`, the field named by the column. */
  method AppendResponses(row: seq<Cell>, responses: seq<Response>, c: Column, maxQuestions: int) returns (r: seq<Cell>)
    requires IsResponseColumn(c)
    ensures r == row + ResponseCells(responses, c, maxQuestions)
  {
    var shown := responses[..SliceLen(|responses|, maxQuestions)];
    ghost var cells := ResponseCells(responses, c, maxQuestions);
    r := row;
    var k := 0;
    while k < |shown|
      invariant 0 <= k <= |shown|
      invariant r == row + cells[..k]
    {
      var cell := Some(IntToString(ResponseField(shown[k], c)));
      AppendAssoc(row, cells[..k], [cell]);
      assert cells[..k + 1] == cells[..k] + [cell];
      r := r + [cell];
      k := k + 1;
    }
    assert cells[..k] == cells;
  }

  /** The column loop of build_rows_from_session for one (student,
      assessment) pair: each column's cells, padded where the source pads. */
  method BuildRow(sessionId: string, student: Student, a: Assessment,
                  domains: seq<Domain>, maxDomains: int, maxQuestions: int) returns (row: seq<Cell>)
    ensures row == ProjectRow(sessionId, student, a, domains, maxDomains, maxQuestions)
  {
    var columns := Columns();
    ghost var groups := RowGroups(sessionId, student, a, domains, maxDomains, maxQuestions);
    row := [];
    var i := 0;
    while i < |columns|
      invariant 0 <= i <= |columns|
      invariant row == Concat(groups[..i])
    {
      var column := columns[i];
      ghost var before := row;
      if column.SessionId? {
        row := row + [Some(sessionId)];
      } else if column.StudentGuid? {
        row := row + [Some(student.studentGuid)];
      } else if column.QuestionDomain? {
        row := AppendNames(row, domains);
        row := PadRow(row, |domains|, maxDomains);
        AppendAssoc(before, NameCells(domains), Padding(|domains|, maxDomains));
      } else if column.DomainRawScore? {
        row := AppendScores(row, domains, student.studentGuid);
        row := PadRow(row, |domains|, maxDomains);
        AppendAssoc(before, ScoreCells(domains, student.studentGuid), Padding(|domains|, maxDomains));
      } else if IsResponseColumn(column) {
        row := AppendResponses(row, a.responses, column, maxQuestions);
        row := PadRow(row, |a.responses|, maxQuestions);
        AppendAssoc(before, ResponseCells(a.responses, column, maxQuestions), Padding(|a.responses|, maxQuestions));
      } else {
        row := row + [Some(AssessmentAttribute(a, column))];
      }
      assert row == before + groups[i];
      GroupsPrefix(groups, i);
      i := i + 1;
    }
    assert groups[..i] == groups;
  }

  lemma SessionRowsPrefix(sessionId: string, students: seq<Student>, domains: seq<Domain>,
                          maxDomains: int, maxQuestions: int, i: nat)
    requires i < |students|
    ensures SessionRows(sessionId, students[..i + 1], domains, maxDomains, maxQuestions)
         == SessionRows(sessionId, students[..i], domains, maxDomains, maxQuestions)
          + StudentRows(sessionId, students[i], domains, maxDomains, maxQuestions)
  {
    assert students[..i + 1][..i] == students[..i];
  }

  /** `build_rows_from_session`: the session's domains sorted by name, then
      one row per assessment of each student, in order. */
  method BuildRowsFromSession(session: Session, maxDomains: int, maxQuestions: int) returns (rows: seq<seq<Cell>>)
    requires IsDict(session.State())
    ensures rows == SessionRows(session.sessionId, session.students, SortByName(DomainList(session.State())),
                                maxDomains, maxQuestions)
    ensures |rows| == StudentTotal(session.students)
  {
    var domains := SortByName(DomainList(session.State()));
    var sessionId, students := session.sessionId, session.students;
    rows := [];
    var i := 0;
    while i < |students|
      invariant 0 <= i <= |students|
      invariant rows == SessionRows(sessionId, students[..i], domains, maxDomains, maxQuestions)
    {
      var student := students[i];
      ghost var done := rows;
      ghost var own := StudentRows(sessionId, student, domains, maxDomains, maxQuestions);
      var j := 0;
      while j < |student.assessments|
        invariant 0 <= j <= |student.assessments|
        invariant rows == done + own[..j]
      {
        var row := BuildRow(sessionId, student, student.assessments[j], domains, maxDomains, maxQuestions);
        AppendAssoc(done, own[..j], [row]);
        assert own[..j + 1] == own[..j] + [row];
        rows := rows + [row];
        j := j + 1;
      }
      assert own[..j] == own;
      SessionRowsPrefix(sessionId, students, domains, maxDomains, maxQuestions, i);
      i := i + 1;
    }
    assert students[..i] == students;
    SessionRowsCount(sessionId, students, domains, maxDomains, maxQuestions);
  }

  // ---------------------------------------------------------------------
  // build_flattened_csv and main, without the file
  // ---------------------------------------------------------------------

  /** The identity and students of each session. */
  function Trees(sessions: seq<Session>): seq<SessionTree> {
    seq(|sessions|, i requires 0 <= i < |sessions| => SessionTree(sessions[i].sessionId, sessions[i].students))
  }

  /** Every session's domain map is a dict. */
  predicate AllDicts(sessions: seq<Session>)
    reads sessions
  {
    forall i :: 0 <= i < |sessions| ==> IsDict(sessions[i].State())
  }

  /** The rows written for `sessions` as they stand: each session's rows
      over its current domains sorted by name, session after session. */
  function CsvRows(sessions: seq<Session>, maxDomains: int, maxQuestions: int): seq<seq<Cell>>
    requires AllDicts(sessions)
    reads sessions
  {
    if sessions == [] then []
    else
      var last := sessions[|sessions| - 1];
      CsvRows(sessions[..|sessions| - 1], maxDomains, maxQuestions)
        + SessionRows(last.sessionId, last.students, SortByName(DomainList(last.State())), maxDomains, maxQuestions)
  }

  lemma CsvRowsPrefix(sessions: seq<Session>, maxDomains: int, maxQuestions: int, i: nat)
    requires AllDicts(sessions) && i < |sessions|
    ensures AllDicts(sessions[..i]) && AllDicts(sessions[..i + 1])
    ensures CsvRows(sessions[..i + 1], maxDomains, maxQuestions)
         == CsvRows(sessions[..i], maxDomains, maxQuestions)
          + SessionRows(sessions[i].sessionId, sessions[i].students, SortByName(DomainList(sessions[i].State())),
                        maxDomains, maxQuestions)
  {
    assert sessions[..i + 1][..i] == sessions[..i];
  }

  /** For sessions whose domains were populated from their own students,
      as build_sessions leaves them, the rows are the worksheet rows of
      their trees, one per assessment. */
  lemma {:induction false} CsvRowsOfBuilt(sessions: seq<Session>, maxDomains: int, maxQuestions: int)
    requires forall i :: 0 <= i < |sessions| ==>
      sessions[i].State() == Populate(NoDomains, Visits(sessions[i].students))
    ensures AllDicts(sessions)
    ensures CsvRows(sessions, maxDomains, maxQuestions) == WorksheetRows(Trees(sessions), maxDomains, maxQuestions)
    ensures |CsvRows(sessions, maxDomains, maxQuestions)| == SessionTotal(Trees(sessions))
  {
    forall i | 0 <= i < |sessions|
      ensures IsDict(sessions[i].State())
    {
      PopulateWellFormed(NoDomains, Visits(sessions[i].students));
    }
    if sessions != [] {
      var n := |sessions| - 1;
      CsvRowsOfBuilt(sessions[..n], maxDomains, maxQuestions);
      assert Trees(sessions[..n]) == Trees(sessions)[..n];
    }
    WorksheetRowsCount(Trees(sessions), maxDomains, maxQuestions);
  }

  /** The loop of `build_flattened_csv`: the rows of every session,
      session after session. */
  method SessionsRows(sessions: seq<Session>, maxDomains: int, maxQuestions: int) returns (rows: seq<seq<Cell>>)
    requires AllDicts(sessions)
    ensures rows == CsvRows(sessions, maxDomains, maxQuestions)
  {
    rows := [];
    var i := 0;
    while i < |sessions|
      invariant 0 <= i <= |sessions|
      invariant AllDicts(sessions[..i])
      invariant rows == CsvRows(sessions[..i], maxDomains, maxQuestions)
    {
      var sessionRows := BuildRowsFromSession(sessions[i], maxDomains, maxQuestions);
      CsvRowsPrefix(sessions, maxDomains, maxQuestions, i);
      rows := rows + sessionRows;
      i := i + 1;
    }
    assert sessions[..i] == sessions;
  }

  /** `build_flattened_csv` without the file: the header row handed to the
      CSV writer, then the rows of every session. */
  method FlattenedCsv(sessions: seq<Session>, maxDomains: int, maxQuestions: int)
    returns (header: seq<string>, rows: seq<seq<Cell>>)
    requires AllDicts(sessions)
    ensures header == HeaderRow(maxDomains, maxQuestions)
    ensures rows == CsvRows(sessions, maxDomains, maxQuestions)
  {
    header := BuildHeaderRow(maxDomains, maxQuestions);
    rows := SessionsRows(sessions, maxDomains, maxQuestions);
  }

  /** `main` after parsing and before writing: the header, and one row per
      distinct (session_id, student_guid, assessment_guid) of the input, in
      the order of the expected hierarchy. */
  method Flatten(rs: seq<ResponseIn>, maxDomains: int, maxQuestions: int)
    returns (header: seq<string>, rows: seq<seq<Cell>>)
    ensures header == HeaderRow(maxDomains, maxQuestions)
    ensures rows == WorksheetRows(ExpectedSessions(rs), maxDomains, maxQuestions)
    ensures |rows| == |set r | r in rs :: (r.sessionId, r.studentGuid, r.assessmentGuid)|
  {
    var sessions := BuildSessions(rs);
    CsvRowsOfBuilt(sessions, maxDomains, maxQuestions);
    header, rows := FlattenedCsv(sessions, maxDomains, maxQuestions);
    assert Trees(sessions) == ExpectedSessions(rs);
    AssessmentCount(rs);
  }
}
