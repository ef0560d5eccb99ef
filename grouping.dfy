/** The group-by behind `build_sessions`
    (src/scripts/flatten_student_worksheet.py): the nested insertion-ordered
    dicts it fills, the hierarchy it is meant to produce stated independently
    (distinct keys in first-seen order, records filtered by key), and the
    laws relating the two. */
module Grouping {
  import opened Sequences
  import opened StudentWorksheet

  // ---------------------------------------------------------------------
  // Keys and filters
  // ---------------------------------------------------------------------

  /** The three identifiers the records are grouped by, outermost first. */
  datatype Level = BySession | ByStudent | ByAssessment

  function KeyOf(r: ResponseIn, l: Level): string {
    match l
    case BySession => r.sessionId
    case ByStudent => r.studentGuid
    case ByAssessment => r.assessmentGuid
  }

  /** The key of every record, in input order (repeats kept). */
  function Keys(rs: seq<ResponseIn>, l: Level): seq<string> {
    if rs == [] then [] else Keys(rs[..|rs| - 1], l) + [KeyOf(rs[|rs| - 1], l)]
  }

  /** The records with key k, in input order. */
  function Select(rs: seq<ResponseIn>, l: Level, k: string): (r: seq<ResponseIn>)
    ensures forall i :: 0 <= i < |r| ==> KeyOf(r[i], l) == k
    ensures |r| > 0 <==> k in Keys(rs, l)
    ensures |r| <= |rs|
  {
    if rs == [] then []
    else
      var last := rs[|rs| - 1];
      Select(rs[..|rs| - 1], l, k) + (if KeyOf(last, l) == k then [last] else [])
  }

  lemma KeysSnoc(rs: seq<ResponseIn>, r: ResponseIn, l: Level)
    ensures Keys(rs + [r], l) == Keys(rs, l) + [KeyOf(r, l)]
  {
    assert (rs + [r])[..|rs|] == rs;
  }

  lemma SelectSnoc(rs: seq<ResponseIn>, r: ResponseIn, l: Level, k: string)
    ensures Select(rs + [r], l, k) == Select(rs, l, k) + (if KeyOf(r, l) == k then [r] else [])
  {
    assert (rs + [r])[..|rs|] == rs;
  }

  lemma {:induction false} KeysMember(rs: seq<ResponseIn>, l: Level, k: string)
    ensures k in Keys(rs, l) <==> exists x :: x in rs && KeyOf(x, l) == k
  {
    if rs != [] {
      var p, r := rs[..|rs| - 1], rs[|rs| - 1];
      KeysMember(p, l, k);
      assert rs == p + [r];
    }
  }

  lemma {:induction false} SelectMember(rs: seq<ResponseIn>, l: Level, k: string, x: ResponseIn)
    ensures x in Select(rs, l, k) <==> x in rs && KeyOf(x, l) == k
  {
    if rs != [] {
      var p, r := rs[..|rs| - 1], rs[|rs| - 1];
      SelectMember(p, l, k, x);
      assert rs == p + [r];
    }
  }

  // ---------------------------------------------------------------------
  // The nested insertion-ordered dicts
  // ---------------------------------------------------------------------

  /** An insertion-ordered dict with string keys. */
  datatype ODict<V> = ODict(keys: seq<string>, entries: map<string, V>)

  function EmptyDict<V>(): ODict<V> {
    ODict([], map[])
  }

  /** `d[k]` of a defaultdict whose factory makes `default`. */
  function Get<V>(d: ODict<V>, k: string, default: V): V {
    if k in d.entries then d.entries[k] else default
  }

  /** `d[k] = v`: a new key goes to the end, an old key keeps its place. */
  function Put<V>(d: ODict<V>, k: string, v: V): ODict<V> {
    ODict(if k in d.entries then d.keys else d.keys + [k], d.entries[k := v])
  }

  type AssessmentData = ODict<seq<ResponseIn>>
  type StudentData = ODict<AssessmentData>
  type SessionData = ODict<StudentData>

  /** `assessment_data[r.assessment_guid].append(r)` */
  function AppendToAssessments(d: AssessmentData, r: ResponseIn): AssessmentData {
    Put(d, r.assessmentGuid, Get(d, r.assessmentGuid, []) + [r])
  }

  /** `student_data[r.student_guid][r.assessment_guid].append(r)` */
  function AppendToStudents(d: StudentData, r: ResponseIn): StudentData {
    Put(d, r.studentGuid, AppendToAssessments(Get(d, r.studentGuid, EmptyDict()), r))
  }

  /** `session_data[r.session_id][r.student_guid][r.assessment_guid].append(r)` */
  function AppendToSessions(d: SessionData, r: ResponseIn): SessionData {
    Put(d, r.sessionId, AppendToStudents(Get(d, r.sessionId, EmptyDict()), r))
  }

  /** The dict of one student's records keyed by assessment: keys in
      first-seen order, each key holding its records in input order. */
  function GroupByAssessment(rs: seq<ResponseIn>): AssessmentData {
    ODict(FirstSeen(Keys(rs, ByAssessment)),
          map a | a in Keys(rs, ByAssessment) :: Select(rs, ByAssessment, a))
  }

  function GroupByStudent(rs: seq<ResponseIn>): StudentData {
    ODict(FirstSeen(Keys(rs, ByStudent)),
          map g | g in Keys(rs, ByStudent) :: GroupByAssessment(Select(rs, ByStudent, g)))
  }

  function GroupBySession(rs: seq<ResponseIn>): SessionData {
    ODict(FirstSeen(Keys(rs, BySession)),
          map s | s in Keys(rs, BySession) :: GroupByStudent(Select(rs, BySession, s)))
  }

  lemma SelectAbsent(rs: seq<ResponseIn>, l: Level, k: string)
    requires k !in Keys(rs, l)
    ensures Select(rs, l, k) == []
  {
  }

  lemma GroupByAssessmentEmpty()
    ensures GroupByAssessment([]) == EmptyDict()
  {
    assert Keys([], ByAssessment) == [];
  }

  lemma GroupByStudentEmpty()
    ensures GroupByStudent([]) == EmptyDict()
  {
    assert Keys([], ByStudent) == [];
  }

  lemma GroupBySessionEmpty()
    ensures GroupBySession([]) == EmptyDict()
  {
    assert Keys([], BySession) == [];
  }

  /** A new key goes to the end of the key list, as in the grouping of the
      longer input. */
  lemma PutKeys<V>(d: ODict<V>, rs: seq<ResponseIn>, r: ResponseIn, l: Level, v: V)
    requires d.keys == FirstSeen(Keys(rs, l))
    requires d.entries.Keys == set k | k in Keys(rs, l)
    ensures Put(d, KeyOf(r, l), v).keys == FirstSeen(Keys(rs + [r], l))
    ensures Put(d, KeyOf(r, l), v).entries.Keys == set k | k in Keys(rs + [r], l)
  {
    var ks, k := Keys(rs, l), KeyOf(r, l);
    KeysSnoc(rs, r, l);
    assert Put(d, k, v).keys == FirstSeen(ks + [k]) by {
      FirstSeenSnoc(ks, k);
      assert k in d.entries <==> k in ks;
    }
    assert Put(d, k, v).entries.Keys == set y | y in ks + [k] by {
      MembersSnoc(ks, k);
    }
  }

  /** The members of a sequence with one more element. */
  lemma MembersSnoc<T>(xs: seq<T>, x: T)
    ensures (set y | y in xs + [x]) == (set y | y in xs) + {x}
  {
  }

  lemma GroupByAssessmentDomain(rs: seq<ResponseIn>)
    ensures GroupByAssessment(rs).entries.Keys == set k | k in Keys(rs, ByAssessment)
  {
  }

  lemma GroupByStudentDomain(rs: seq<ResponseIn>)
    ensures GroupByStudent(rs).entries.Keys == set k | k in Keys(rs, ByStudent)
  {
  }

  lemma GroupBySessionDomain(rs: seq<ResponseIn>)
    ensures GroupBySession(rs).entries.Keys == set k | k in Keys(rs, BySession)
  {
  }

  lemma GroupBySessionEntry(rs: seq<ResponseIn>, x: string)
    requires x in Keys(rs, BySession)
    ensures x in GroupBySession(rs).entries
    ensures GroupBySession(rs).entries[x] == GroupByStudent(Select(rs, BySession, x))
  {
  }

  lemma GroupByStudentEntry(rs: seq<ResponseIn>, x: string)
    requires x in Keys(rs, ByStudent)
    ensures x in GroupByStudent(rs).entries
    ensures GroupByStudent(rs).entries[x] == GroupByAssessment(Select(rs, ByStudent, x))
  {
  }

  /** Two maps with the same keys that agree at every key are equal. */
  lemma MapsAgree<V>(m1: map<string, V>, m2: map<string, V>, k0: string)
    requires m1.Keys == m2.Keys && k0 in m1 && m1[k0] == m2[k0]
    requires forall x | x in m1 && x != k0 :: m1[x] == m2[x]
    ensures m1 == m2
  {
  }

  /** After one append, each assessment key holds its records so far. */
  lemma AppendToAssessmentsAt(rs: seq<ResponseIn>, r: ResponseIn, x: string)
    requires x in Keys(rs + [r], ByAssessment)
    ensures x in AppendToAssessments(GroupByAssessment(rs), r).entries
    ensures AppendToAssessments(GroupByAssessment(rs), r).entries[x] == Select(rs + [r], ByAssessment, x)
  {
    var d := GroupByAssessment(rs);
    KeysSnoc(rs, r, ByAssessment);
    SelectSnoc(rs, r, ByAssessment, x);
    if x == r.assessmentGuid && x !in d.entries {
      SelectAbsent(rs, ByAssessment, x);
    }
  }

  /** One append keeps the assessment dict equal to the grouping of the
      records seen so far. */
  lemma AppendToAssessmentsGroups(rs: seq<ResponseIn>, r: ResponseIn)
    ensures AppendToAssessments(GroupByAssessment(rs), r) == GroupByAssessment(rs + [r])
  {
    var a := r.assessmentGuid;
    var d := GroupByAssessment(rs);
    var lhs, rhs := AppendToAssessments(d, r), GroupByAssessment(rs + [r]);
    assert lhs.keys == rhs.keys && lhs.entries.Keys == rhs.entries.Keys by {
      GroupByAssessmentDomain(rs);
      GroupByAssessmentDomain(rs + [r]);
      PutKeys(d, rs, r, ByAssessment, Get(d, a, []) + [r]);
    }
    assert forall x | x in lhs.entries :: lhs.entries[x] == rhs.entries[x] by {
      forall x | x in lhs.entries
        ensures lhs.entries[x] == rhs.entries[x]
      {
        AppendToAssessmentsAt(rs, r, x);
      }
    }
    MapsAgree(lhs.entries, rhs.entries, a);
  }

  /** The student the record belongs to gets the record appended to its
      assessment dict. */
  lemma AppendToStudentsEntry(rs: seq<ResponseIn>, r: ResponseIn)
    ensures AppendToStudents(GroupByStudent(rs), r).entries[r.studentGuid] ==
      GroupByAssessment(Select(rs + [r], ByStudent, r.studentGuid))
  {
    var g := r.studentGuid;
    var d := GroupByStudent(rs);
    SelectSnoc(rs, r, ByStudent, g);
    if g !in d.entries {
      SelectAbsent(rs, ByStudent, g);
      GroupByAssessmentEmpty();
    }
    assert Get(d, g, EmptyDict()) == GroupByAssessment(Select(rs, ByStudent, g));
    AppendToAssessmentsGroups(Select(rs, ByStudent, g), r);
  }

  /** Other keys keep their value. */
  lemma AppendToStudentsOther(rs: seq<ResponseIn>, r: ResponseIn, x: string)
    requires x in GroupByStudent(rs).entries && x != r.studentGuid
    ensures x in GroupByStudent(rs + [r]).entries
    ensures AppendToStudents(GroupByStudent(rs), r).entries[x] == GroupByStudent(rs + [r]).entries[x]
  {
    var d := GroupByStudent(rs);
    GroupByStudentDomain(rs);
    KeysSnoc(rs, r, ByStudent);
    GroupByStudentEntry(rs, x);
    GroupByStudentEntry(rs + [r], x);
    SelectSnoc(rs, r, ByStudent, x);
    assert Select(rs + [r], ByStudent, x) == Select(rs, ByStudent, x);
    assert AppendToStudents(d, r).entries[x] == d.entries[x];
  }

  lemma AppendToStudentsEntries(rs: seq<ResponseIn>, r: ResponseIn)
    ensures AppendToStudents(GroupByStudent(rs), r).entries == GroupByStudent(rs + [r]).entries
  {
    var g := r.studentGuid;
    var d := GroupByStudent(rs);
    var lhs, rhs := AppendToStudents(d, r), GroupByStudent(rs + [r]);
    assert lhs.entries.Keys == rhs.entries.Keys by {
      GroupByStudentDomain(rs);
      GroupByStudentDomain(rs + [r]);
      PutKeys(d, rs, r, ByStudent, lhs.entries[g]);
    }
    assert g in rhs.entries && lhs.entries[g] == rhs.entries[g] by {
      AppendToStudentsEntry(rs, r);
      KeysSnoc(rs, r, ByStudent);
      GroupByStudentEntry(rs + [r], g);
    }
    assert forall x | x in lhs.entries && x != g :: lhs.entries[x] == rhs.entries[x] by {
      forall x | x in lhs.entries && x != g
        ensures lhs.entries[x] == rhs.entries[x]
      {
        AppendToStudentsOther(rs, r, x);
      }
    }
    MapsAgree(lhs.entries, rhs.entries, g);
  }

  lemma AppendToStudentsGroups(rs: seq<ResponseIn>, r: ResponseIn)
    ensures AppendToStudents(GroupByStudent(rs), r) == GroupByStudent(rs + [r])
  {
    var d := GroupByStudent(rs);
    GroupByStudentDomain(rs);
    PutKeys(d, rs, r, ByStudent, AppendToAssessments(Get(d, r.studentGuid, EmptyDict()), r));
    AppendToStudentsEntries(rs, r);
  }

  lemma AppendToSessionsEntry(rs: seq<ResponseIn>, r: ResponseIn)
    ensures AppendToSessions(GroupBySession(rs), r).entries[r.sessionId] ==
      GroupByStudent(Select(rs + [r], BySession, r.sessionId))
  {
    var s := r.sessionId;
    var d := GroupBySession(rs);
    SelectSnoc(rs, r, BySession, s);
    if s !in d.entries {
      SelectAbsent(rs, BySession, s);
      GroupByStudentEmpty();
    }
    assert Get(d, s, EmptyDict()) == GroupByStudent(Select(rs, BySession, s));
    AppendToStudentsGroups(Select(rs, BySession, s), r);
  }

  /** Other keys keep their value. */
  lemma AppendToSessionsOther(rs: seq<ResponseIn>, r: ResponseIn, x: string)
    requires x in GroupBySession(rs).entries && x != r.sessionId
    ensures x in GroupBySession(rs + [r]).entries
    ensures AppendToSessions(GroupBySession(rs), r).entries[x] == GroupBySession(rs + [r]).entries[x]
  {
    var d := GroupBySession(rs);
    GroupBySessionDomain(rs);
    KeysSnoc(rs, r, BySession);
    GroupBySessionEntry(rs, x);
    GroupBySessionEntry(rs + [r], x);
    SelectSnoc(rs, r, BySession, x);
    assert Select(rs + [r], BySession, x) == Select(rs, BySession, x);
    assert AppendToSessions(d, r).entries[x] == d.entries[x];
  }

  lemma AppendToSessionsEntries(rs: seq<ResponseIn>, r: ResponseIn)
    ensures AppendToSessions(GroupBySession(rs), r).entries == GroupBySession(rs + [r]).entries
  {
    var s := r.sessionId;
    var d := GroupBySession(rs);
    var lhs, rhs := AppendToSessions(d, r), GroupBySession(rs + [r]);
    assert lhs.entries.Keys == rhs.entries.Keys by {
      GroupBySessionDomain(rs);
      GroupBySessionDomain(rs + [r]);
      PutKeys(d, rs, r, BySession, lhs.entries[s]);
    }
    assert s in rhs.entries && lhs.entries[s] == rhs.entries[s] by {
      AppendToSessionsEntry(rs, r);
      KeysSnoc(rs, r, BySession);
      GroupBySessionEntry(rs + [r], s);
    }
    assert forall x | x in lhs.entries && x != s :: lhs.entries[x] == rhs.entries[x] by {
      forall x | x in lhs.entries && x != s
        ensures lhs.entries[x] == rhs.entries[x]
      {
        AppendToSessionsOther(rs, r, x);
      }
    }
    MapsAgree(lhs.entries, rhs.entries, s);
  }

  lemma AppendToSessionsGroups(rs: seq<ResponseIn>, r: ResponseIn)
    ensures AppendToSessions(GroupBySession(rs), r) == GroupBySession(rs + [r])
  {
    var d := GroupBySession(rs);
    GroupBySessionDomain(rs);
    PutKeys(d, rs, r, BySession, AppendToStudents(Get(d, r.sessionId, EmptyDict()), r));
    AppendToSessionsEntries(rs, r);
  }

  // ---------------------------------------------------------------------
  // The hierarchy build_sessions produces
  // ---------------------------------------------------------------------

  /** The responses of one group, numbered 1, 2, ... in order. */
  function Numbered(group: seq<ResponseIn>): seq<Response> {
    seq(|group|, i requires 0 <= i < |group| => Response(group[i], i + 1))
  }

  /** The Assessment built from one group: scalar fields from its first
      record, every record a numbered response. */
  function AssessmentOf(group: seq<ResponseIn>): Assessment
    requires |group| > 0
  {
    var first := group[0];
    Assessment(first.assessmentGuid, first.subject, first.testDate, first.totalTimeSpentOnTest,
               first.calculatedRawScore, first.scaledScoreBasedOnCalculated, Numbered(group))
  }

  /** The input records an assessment was built from. */
  function Records(a: Assessment): seq<ResponseIn> {
    seq(|a.responses|, n requires 0 <= n < |a.responses| => a.responses[n].record)
  }

  lemma AssessmentOfRecords(group: seq<ResponseIn>)
    requires |group| > 0
    ensures Records(AssessmentOf(group)) == group
    ensures forall n :: 0 <= n < |group| ==> AssessmentOf(group).responses[n].questionCounter == n + 1
  {
  }

  predicate AllKeys(rs: seq<ResponseIn>, l: Level, ks: seq<string>) {
    forall i :: 0 <= i < |ks| ==> ks[i] in Keys(rs, l)
  }

  /** One assessment per key of `ks`, built from the records with that key. */
  function AssessmentsFor(rs: seq<ResponseIn>, ks: seq<string>): (r: seq<Assessment>)
    requires AllKeys(rs, ByAssessment, ks)
    ensures |r| == |ks|
    ensures forall n :: 0 <= n < |ks| ==> r[n].assessmentGuid == ks[n]
  {
    if ks == [] then []
    else AssessmentsFor(rs, ks[..|ks| - 1]) + [AssessmentOf(Select(rs, ByAssessment, ks[|ks| - 1]))]
  }

  lemma AssessmentsForStep(rs: seq<ResponseIn>, ks: seq<string>, n: nat)
    requires AllKeys(rs, ByAssessment, ks) && n < |ks|
    ensures AllKeys(rs, ByAssessment, ks[..n]) && AllKeys(rs, ByAssessment, ks[..n + 1])
    ensures AssessmentsFor(rs, ks[..n + 1])
         == AssessmentsFor(rs, ks[..n]) + [AssessmentOf(Select(rs, ByAssessment, ks[n]))]
  {
    assert ks[..n + 1][..n] == ks[..n];
  }

  /** One assessment per distinct assessment_guid, in first-seen order. */
  function AssessmentsOf(rs: seq<ResponseIn>): seq<Assessment> {
    AssessmentsFor(rs, FirstSeen(Keys(rs, ByAssessment)))
  }

  function StudentsFor(rs: seq<ResponseIn>, ks: seq<string>): (r: seq<Student>)
    ensures |r| == |ks|
    ensures forall n :: 0 <= n < |ks| ==> r[n].studentGuid == ks[n]
  {
    if ks == [] then []
    else
      var g := ks[|ks| - 1];
      StudentsFor(rs, ks[..|ks| - 1]) + [Student(g, AssessmentsOf(Select(rs, ByStudent, g)))]
  }

  lemma StudentsForStep(rs: seq<ResponseIn>, ks: seq<string>, n: nat)
    requires n < |ks|
    ensures StudentsFor(rs, ks[..n + 1])
         == StudentsFor(rs, ks[..n]) + [Student(ks[n], AssessmentsOf(Select(rs, ByStudent, ks[n])))]
  {
    assert ks[..n + 1][..n] == ks[..n];
  }

  /** One student per distinct student_guid, in first-seen order. */
  function StudentsOf(rs: seq<ResponseIn>): seq<Student> {
    StudentsFor(rs, FirstSeen(Keys(rs, ByStudent)))
  }

  /** A session's identity and students, before its domains are populated. */
  datatype SessionTree = SessionTree(sessionId: string, students: seq<Student>)

  function SessionsFor(rs: seq<ResponseIn>, ks: seq<string>): (r: seq<SessionTree>)
    ensures |r| == |ks|
    ensures forall n :: 0 <= n < |ks| ==> r[n].sessionId == ks[n]
  {
    if ks == [] then []
    else
      var s := ks[|ks| - 1];
      SessionsFor(rs, ks[..|ks| - 1]) + [SessionTree(s, StudentsOf(Select(rs, BySession, s)))]
  }

  lemma SessionsForStep(rs: seq<ResponseIn>, ks: seq<string>, n: nat)
    requires n < |ks|
    ensures SessionsFor(rs, ks[..n + 1])
         == SessionsFor(rs, ks[..n]) + [SessionTree(ks[n], StudentsOf(Select(rs, BySession, ks[n])))]
  {
    assert ks[..n + 1][..n] == ks[..n];
  }

  /** One session per distinct session_id, in first-seen order. */
  function ExpectedSessions(rs: seq<ResponseIn>): seq<SessionTree> {
    SessionsFor(rs, FirstSeen(Keys(rs, BySession)))
  }

  lemma {:induction false} AssessmentsForAt(rs: seq<ResponseIn>, ks: seq<string>, n: nat)
    requires AllKeys(rs, ByAssessment, ks) && n < |ks|
    ensures AssessmentsFor(rs, ks)[n] == AssessmentOf(Select(rs, ByAssessment, ks[n]))
  {
    if n < |ks| - 1 {
      AssessmentsForAt(rs, ks[..|ks| - 1], n);
    }
  }

  lemma {:induction false} StudentsForAt(rs: seq<ResponseIn>, ks: seq<string>, n: nat)
    requires n < |ks|
    ensures StudentsFor(rs, ks)[n].assessments == AssessmentsOf(Select(rs, ByStudent, ks[n]))
  {
    if n < |ks| - 1 {
      StudentsForAt(rs, ks[..|ks| - 1], n);
    }
  }

  lemma {:induction false} SessionsForAt(rs: seq<ResponseIn>, ks: seq<string>, n: nat)
    requires n < |ks|
    ensures SessionsFor(rs, ks)[n].students == StudentsOf(Select(rs, BySession, ks[n]))
  {
    if n < |ks| - 1 {
      SessionsForAt(rs, ks[..|ks| - 1], n);
    }
  }

  /** The k-th assessment is built from the records of the k-th distinct
      assessment_guid. */
  lemma AssessmentAt(rs: seq<ResponseIn>, k: nat)
    requires k < |AssessmentsOf(rs)|
    ensures var a := FirstSeen(Keys(rs, ByAssessment))[k];
      AssessmentsOf(rs)[k] == AssessmentOf(Select(rs, ByAssessment, a))
  {
    AssessmentsForAt(rs, FirstSeen(Keys(rs, ByAssessment)), k);
  }

  lemma StudentAt(rs: seq<ResponseIn>, j: nat)
    requires j < |StudentsOf(rs)|
    ensures var g := FirstSeen(Keys(rs, ByStudent))[j];
      StudentsOf(rs)[j] == Student(g, AssessmentsOf(Select(rs, ByStudent, g)))
  {
    StudentsForAt(rs, FirstSeen(Keys(rs, ByStudent)), j);
  }

  lemma SessionAt(rs: seq<ResponseIn>, i: nat)
    requires i < |ExpectedSessions(rs)|
    ensures var s := FirstSeen(Keys(rs, BySession))[i];
      ExpectedSessions(rs)[i] == SessionTree(s, StudentsOf(Select(rs, BySession, s)))
  {
    SessionsForAt(rs, FirstSeen(Keys(rs, BySession)), i);
  }

  // ---------------------------------------------------------------------
  // Laws of the hierarchy
  // ---------------------------------------------------------------------

  lemma {:induction false} KeysAt(rs: seq<ResponseIn>, l: Level, x: nat)
    requires x < |rs|
    ensures |Keys(rs, l)| == |rs| && Keys(rs, l)[x] == KeyOf(rs[x], l)
  {
    if x < |rs| - 1 {
      KeysAt(rs[..|rs| - 1], l, x);
    } else if |rs| > 1 {
      KeysAt(rs[..|rs| - 1], l, 0);
    }
  }

  /** Sessions are listed once each, every session_id of the input among
      them, in order of first appearance. */
  lemma SessionsFirstSeen(rs: seq<ResponseIn>)
    ensures var es := ExpectedSessions(rs);
      && (forall i1, i2 :: 0 <= i1 < i2 < |es| ==> es[i1].sessionId != es[i2].sessionId)
      && (forall x :: 0 <= x < |rs| ==> exists i :: 0 <= i < |es| && es[i].sessionId == rs[x].sessionId)
      && (forall i1, i2 :: 0 <= i1 < i2 < |es| ==>
            FirstIndex(Keys(rs, BySession), es[i1].sessionId) < FirstIndex(Keys(rs, BySession), es[i2].sessionId))
  {
    var es := ExpectedSessions(rs);
    var ks := Keys(rs, BySession);
    var fs := FirstSeen(ks);
    FirstSeenOrder(ks);
    forall x | 0 <= x < |rs|
      ensures exists i :: 0 <= i < |es| && es[i].sessionId == rs[x].sessionId
    {
      KeysAt(rs, BySession, x);
      var i := FirstSeenCovers(ks, x);
      assert es[i].sessionId == fs[i];
    }
  }

  /** Within a session's records, students are listed once each, every
      student_guid among them, in order of first appearance. */
  lemma StudentsFirstSeen(rs: seq<ResponseIn>)
    ensures var ss := StudentsOf(rs);
      && (forall j1, j2 :: 0 <= j1 < j2 < |ss| ==> ss[j1].studentGuid != ss[j2].studentGuid)
      && (forall x :: 0 <= x < |rs| ==> exists j :: 0 <= j < |ss| && ss[j].studentGuid == rs[x].studentGuid)
      && (forall j1, j2 :: 0 <= j1 < j2 < |ss| ==>
            FirstIndex(Keys(rs, ByStudent), ss[j1].studentGuid) < FirstIndex(Keys(rs, ByStudent), ss[j2].studentGuid))
  {
    var ss := StudentsOf(rs);
    var ks := Keys(rs, ByStudent);
    var fs := FirstSeen(ks);
    FirstSeenOrder(ks);
    forall x | 0 <= x < |rs|
      ensures exists j :: 0 <= j < |ss| && ss[j].studentGuid == rs[x].studentGuid
    {
      KeysAt(rs, ByStudent, x);
      var j := FirstSeenCovers(ks, x);
      assert ss[j].studentGuid == fs[j];
    }
  }

  /** Within a student's records, assessments are listed once each, every
      assessment_guid among them, in order of first appearance. */
  lemma AssessmentsFirstSeen(rs: seq<ResponseIn>)
    ensures var as_ := AssessmentsOf(rs);
      && (forall k1, k2 :: 0 <= k1 < k2 < |as_| ==> as_[k1].assessmentGuid != as_[k2].assessmentGuid)
      && (forall x :: 0 <= x < |rs| ==> exists k :: 0 <= k < |as_| && as_[k].assessmentGuid == rs[x].assessmentGuid)
      && (forall k1, k2 :: 0 <= k1 < k2 < |as_| ==>
            FirstIndex(Keys(rs, ByAssessment), as_[k1].assessmentGuid) < FirstIndex(Keys(rs, ByAssessment), as_[k2].assessmentGuid))
  {
    var as_ := AssessmentsOf(rs);
    var ks := Keys(rs, ByAssessment);
    var fs := FirstSeen(ks);
    FirstSeenOrder(ks);
    forall x | 0 <= x < |rs|
      ensures exists k :: 0 <= k < |as_| && as_[k].assessmentGuid == rs[x].assessmentGuid
    {
      KeysAt(rs, ByAssessment, x);
      var k := FirstSeenCovers(ks, x);
      assert as_[k].assessmentGuid == fs[k];
    }
  }

  /** The records whose (session, student, assessment) key is (s, g, a). */
  function WithKey(rs: seq<ResponseIn>, s: string, g: string, a: string): seq<ResponseIn> {
    if rs == [] then []
    else
      var last := rs[|rs| - 1];
      WithKey(rs[..|rs| - 1], s, g, a) +
        (if last.sessionId == s && last.studentGuid == g && last.assessmentGuid == a then [last] else [])
  }

  lemma {:induction false} SelectThreeLevels(rs: seq<ResponseIn>, s: string, g: string, a: string)
    ensures Select(Select(Select(rs, BySession, s), ByStudent, g), ByAssessment, a) == WithKey(rs, s, g, a)
  {
    if rs != [] {
      var p, r := rs[..|rs| - 1], rs[|rs| - 1];
      assert rs == p + [r];
      SelectThreeLevels(p, s, g, a);
      SelectSnoc(p, r, BySession, s);
      var s1 := Select(p, BySession, s);
      var s2 := Select(s1, ByStudent, g);
      if r.sessionId == s {
        SelectSnoc(s1, r, ByStudent, g);
        if r.studentGuid == g {
          SelectSnoc(s2, r, ByAssessment, a);
        } else {
          assert Select(s1 + [r], ByStudent, g) == s2;
        }
      } else {
        assert Select(rs, BySession, s) == s1;
      }
    }
  }

  /** The assessment at position (i, j, k) of the hierarchy, by the three
      positions' keys. */
  lemma Located(rs: seq<ResponseIn>, i: nat, j: nat, k: nat)
    requires i < |ExpectedSessions(rs)|
    requires j < |ExpectedSessions(rs)[i].students|
    requires k < |ExpectedSessions(rs)[i].students[j].assessments|
    ensures var s := ExpectedSessions(rs)[i];
      var st := s.students[j];
      var a := st.assessments[k];
      var group := WithKey(rs, s.sessionId, st.studentGuid, a.assessmentGuid);
      |group| > 0 && a == AssessmentOf(group)
  {
    var s := ExpectedSessions(rs)[i];
    SessionAt(rs, i);
    var l1 := Select(rs, BySession, s.sessionId);
    var st := s.students[j];
    StudentAt(l1, j);
    var l2 := Select(l1, ByStudent, st.studentGuid);
    var a := st.assessments[k];
    AssessmentAt(l2, k);
    SelectThreeLevels(rs, s.sessionId, st.studentGuid, a.assessmentGuid);
  }

  /** Each assessment holds, in input order, exactly the records with its
      (session, student, assessment) key, numbered 1, 2, ..., and takes its
      scalar fields from the first of them. */
  lemma AssessmentContents(rs: seq<ResponseIn>, i: nat, j: nat, k: nat)
    requires i < |ExpectedSessions(rs)|
    requires j < |ExpectedSessions(rs)[i].students|
    requires k < |ExpectedSessions(rs)[i].students[j].assessments|
    ensures var s := ExpectedSessions(rs)[i];
      var st := s.students[j];
      var a := st.assessments[k];
      var group := WithKey(rs, s.sessionId, st.studentGuid, a.assessmentGuid);
      && |group| > 0
      && Records(a) == group
      && (forall n :: 0 <= n < |a.responses| ==> a.responses[n].questionCounter == n + 1)
      && a.subject == group[0].subject && a.testDate == group[0].testDate
      && a.totalTimeSpentOnTest == group[0].totalTimeSpentOnTest
      && a.calculatedRawScore == group[0].calculatedRawScore
      && a.scaledScoreBasedOnCalculated == group[0].scaledScoreBasedOnCalculated
  {
    var s := ExpectedSessions(rs)[i];
    var st := s.students[j];
    var a := st.assessments[k];
    Located(rs, i, j, k);
    AssessmentOfRecords(WithKey(rs, s.sessionId, st.studentGuid, a.assessmentGuid));
  }

  lemma {:induction false} WithKeyMember(rs: seq<ResponseIn>, s: string, g: string, a: string, x: ResponseIn)
    ensures x in WithKey(rs, s, g, a) <==>
      x in rs && x.sessionId == s && x.studentGuid == g && x.assessmentGuid == a
  {
    if rs != [] {
      var p, r := rs[..|rs| - 1], rs[|rs| - 1];
      WithKeyMember(p, s, g, a, x);
      assert rs == p + [r];
    }
  }

  /** Where an input record lands: the assessment at position (i, j, k). */
  predicate HoldsRecord(sessions: seq<SessionTree>, i: int, j: int, k: int, r: ResponseIn) {
    && 0 <= i < |sessions| && 0 <= j < |sessions[i].students|
    && 0 <= k < |sessions[i].students[j].assessments|
    && r in Records(sessions[i].students[j].assessments[k])
  }

  /** A record is held only by the session, student and assessment with its
      own three identifiers. */
  lemma HoldsRecordKeys(rs: seq<ResponseIn>, i: int, j: int, k: int, r: ResponseIn)
    requires HoldsRecord(ExpectedSessions(rs), i, j, k, r)
    ensures r in rs
    ensures ExpectedSessions(rs)[i].sessionId == r.sessionId
    ensures ExpectedSessions(rs)[i].students[j].studentGuid == r.studentGuid
    ensures ExpectedSessions(rs)[i].students[j].assessments[k].assessmentGuid == r.assessmentGuid
  {
    var s := ExpectedSessions(rs)[i];
    var st := s.students[j];
    var a := st.assessments[k];
    Located(rs, i, j, k);
    var group := WithKey(rs, s.sessionId, st.studentGuid, a.assessmentGuid);
    AssessmentOfRecords(group);
    WithKeyMember(rs, s.sessionId, st.studentGuid, a.assessmentGuid, r);
  }

  /** The session an input record lands in, and the records it groups. */
  lemma SessionOfRecord(rs: seq<ResponseIn>, r: ResponseIn) returns (i: nat)
    requires r in rs
    ensures i < |ExpectedSessions(rs)| && ExpectedSessions(rs)[i].sessionId == r.sessionId
    ensures ExpectedSessions(rs)[i].students == StudentsOf(Select(rs, BySession, r.sessionId))
    ensures r in Select(rs, BySession, r.sessionId)
  {
    var es := ExpectedSessions(rs);
    var x :| 0 <= x < |rs| && rs[x] == r;
    SessionsFirstSeen(rs);
    i :| 0 <= i < |es| && es[i].sessionId == r.sessionId;
    SessionAt(rs, i);
    SelectMember(rs, BySession, r.sessionId, r);
  }

  /** The student of a session an input record lands in. */
  lemma StudentOfRecord(rs: seq<ResponseIn>, r: ResponseIn) returns (j: nat)
    requires r in rs
    ensures j < |StudentsOf(rs)| && StudentsOf(rs)[j].studentGuid == r.studentGuid
    ensures StudentsOf(rs)[j].assessments == AssessmentsOf(Select(rs, ByStudent, r.studentGuid))
    ensures r in Select(rs, ByStudent, r.studentGuid)
  {
    var ss := StudentsOf(rs);
    var x :| 0 <= x < |rs| && rs[x] == r;
    StudentsFirstSeen(rs);
    j :| 0 <= j < |ss| && ss[j].studentGuid == r.studentGuid;
    StudentAt(rs, j);
    SelectMember(rs, ByStudent, r.studentGuid, r);
  }

  /** The assessment of a student an input record lands in. */
  lemma AssessmentOfRecord(rs: seq<ResponseIn>, r: ResponseIn) returns (k: nat)
    requires r in rs
    ensures k < |AssessmentsOf(rs)| && AssessmentsOf(rs)[k].assessmentGuid == r.assessmentGuid
  {
    var as_ := AssessmentsOf(rs);
    var x :| 0 <= x < |rs| && rs[x] == r;
    AssessmentsFirstSeen(rs);
    k :| 0 <= k < |as_| && as_[k].assessmentGuid == r.assessmentGuid;
  }

  /** The assessment an input record lands in. */
  lemma RecordLands(rs: seq<ResponseIn>, r: ResponseIn) returns (i: nat, j: nat, k: nat)
    requires r in rs
    ensures HoldsRecord(ExpectedSessions(rs), i, j, k, r)
  {
    i := SessionOfRecord(rs, r);
    var l1 := Select(rs, BySession, r.sessionId);
    j := StudentOfRecord(l1, r);
    var l2 := Select(l1, ByStudent, r.studentGuid);
    k := AssessmentOfRecord(l2, r);
    Located(rs, i, j, k);
    var group := WithKey(rs, r.sessionId, r.studentGuid, r.assessmentGuid);
    WithKeyMember(rs, r.sessionId, r.studentGuid, r.assessmentGuid, r);
    AssessmentOfRecords(group);
  }

  /** Every input record lands in one assessment, and in only one. */
  lemma RecordLandsOnce(rs: seq<ResponseIn>, r: ResponseIn)
    requires r in rs
    ensures exists i, j, k :: HoldsRecord(ExpectedSessions(rs), i, j, k, r)
    ensures forall i, j, k, i', j', k' ::
      HoldsRecord(ExpectedSessions(rs), i, j, k, r) && HoldsRecord(ExpectedSessions(rs), i', j', k', r) ==>
        i == i' && j == j' && k == k'
  {
    var es := ExpectedSessions(rs);
    var i, j, k := RecordLands(rs, r);
    forall i1, j1, k1, i2, j2, k2 | HoldsRecord(es, i1, j1, k1, r) && HoldsRecord(es, i2, j2, k2, r)
      ensures i1 == i2 && j1 == j2 && k1 == k2
    {
      HoldsRecordUnique(rs, r, i1, j1, k1, i2, j2, k2);
    }
  }

  lemma HoldsRecordUnique(rs: seq<ResponseIn>, r: ResponseIn, i1: int, j1: int, k1: int, i2: int, j2: int, k2: int)
    requires HoldsRecord(ExpectedSessions(rs), i1, j1, k1, r) && HoldsRecord(ExpectedSessions(rs), i2, j2, k2, r)
    ensures i1 == i2 && j1 == j2 && k1 == k2
  {
    var es := ExpectedSessions(rs);
    HoldsRecordKeys(rs, i1, j1, k1, r);
    HoldsRecordKeys(rs, i2, j2, k2, r);
    SessionsFirstSeen(rs);
    assert i1 == i2;
    var l1 := Select(rs, BySession, r.sessionId);
    SessionAt(rs, i1);
    StudentsFirstSeen(l1);
    assert j1 == j2;
    var l2 := Select(l1, ByStudent, r.studentGuid);
    StudentAt(l1, j1);
    AssessmentsFirstSeen(l2);
  }

  // ---------------------------------------------------------------------
  // Counting
  // ---------------------------------------------------------------------

  /** The (session, student, assessment) key of every record, in input order. */
  function Triples(rs: seq<ResponseIn>): seq<(string, string, string)> {
    if rs == [] then []
    else
      var last := rs[|rs| - 1];
      Triples(rs[..|rs| - 1]) + [(last.sessionId, last.studentGuid, last.assessmentGuid)]
  }

  function AssessmentCounts(students: seq<Student>): seq<nat> {
    seq(|students|, j requires 0 <= j < |students| => |students[j].assessments|)
  }

  function StudentTotal(students: seq<Student>): nat {
    Sum(AssessmentCounts(students))
  }

  function SessionCounts(sessions: seq<SessionTree>): seq<nat> {
    seq(|sessions|, i requires 0 <= i < |sessions| => StudentTotal(sessions[i].students))
  }

  /** The number of assessments across all sessions. */
  function SessionTotal(sessions: seq<SessionTree>): nat {
    Sum(SessionCounts(sessions))
  }

  predicate PairSeen(rs: seq<ResponseIn>, r: ResponseIn) {
    r.studentGuid in Keys(rs, ByStudent) &&
    r.assessmentGuid in Keys(Select(rs, ByStudent, r.studentGuid), ByAssessment)
  }

  predicate TripleSeen(rs: seq<ResponseIn>, r: ResponseIn) {
    r.sessionId in Keys(rs, BySession) && PairSeen(Select(rs, BySession, r.sessionId), r)
  }

  lemma AssessmentCountSnoc(rs: seq<ResponseIn>, r: ResponseIn)
    ensures |AssessmentsOf(rs + [r])| ==
      |AssessmentsOf(rs)| + (if r.assessmentGuid in Keys(rs, ByAssessment) then 0 else 1)
  {
    KeysSnoc(rs, r, ByAssessment);
    FirstSeenSnoc(Keys(rs, ByAssessment), r.assessmentGuid);
  }

  /** A one-record input has one key at every level, holding that record. */
  lemma SingleKey(r: ResponseIn, l: Level)
    ensures Keys([r], l) == [KeyOf(r, l)] && FirstSeen(Keys([r], l)) == [KeyOf(r, l)]
    ensures Select([r], l, KeyOf(r, l)) == [r]
  {
    assert [r] == [] + [r];
    KeysSnoc([], r, l);
    SelectSnoc([], r, l, KeyOf(r, l));
    FirstSeenSnoc([], KeyOf(r, l));
  }

  lemma SingleRecord(r: ResponseIn)
    ensures |AssessmentsOf([r])| == 1
    ensures StudentTotal(StudentsOf([r])) == 1
  {
    SingleKey(r, ByAssessment);
    SingleKey(r, ByStudent);
    assert |StudentsOf([r])| == 1;
    StudentAt([r], 0);
    var c := AssessmentCounts(StudentsOf([r]));
    assert c == [] + [1];
    SumSnoc([], 1);
  }

  lemma StudentCountOther(rs: seq<ResponseIn>, r: ResponseIn, j: nat)
    requires j < |StudentsOf(rs)| && FirstSeen(Keys(rs, ByStudent))[j] != r.studentGuid
    ensures j < |StudentsOf(rs + [r])|
    ensures |StudentsOf(rs + [r])[j].assessments| == |StudentsOf(rs)[j].assessments|
  {
    var g := FirstSeen(Keys(rs, ByStudent))[j];
    KeyIndexStable(rs, r, ByStudent, j);
    StudentAt(rs, j);
    StudentAt(rs + [r], j);
    SelectSnoc(rs, r, ByStudent, g);
    assert Select(rs + [r], ByStudent, g) == Select(rs, ByStudent, g);
    assert StudentsOf(rs + [r])[j].assessments == StudentsOf(rs)[j].assessments;
  }

  lemma StudentCountSame(rs: seq<ResponseIn>, r: ResponseIn, j: nat)
    requires j < |StudentsOf(rs)| && FirstSeen(Keys(rs, ByStudent))[j] == r.studentGuid
    ensures |StudentsOf(rs + [r])| == |StudentsOf(rs)|
    ensures |StudentsOf(rs + [r])[j].assessments| ==
      |StudentsOf(rs)[j].assessments| + (if PairSeen(rs, r) then 0 else 1)
  {
    var g := r.studentGuid;
    KeysSnoc(rs, r, ByStudent);
    FirstSeenSnoc(Keys(rs, ByStudent), g);
    StudentAt(rs, j);
    StudentAt(rs + [r], j);
    SelectSnoc(rs, r, ByStudent, g);
    AssessmentCountSnoc(Select(rs, ByStudent, g), r);
  }

  lemma StudentCountNew(rs: seq<ResponseIn>, r: ResponseIn)
    requires r.studentGuid !in Keys(rs, ByStudent)
    ensures |StudentsOf(rs + [r])| == |StudentsOf(rs)| + 1
    ensures |StudentsOf(rs + [r])[|StudentsOf(rs)|].assessments| == 1
  {
    var g := r.studentGuid;
    KeysSnoc(rs, r, ByStudent);
    FirstSeenSnoc(Keys(rs, ByStudent), g);
    StudentAt(rs + [r], |StudentsOf(rs)|);
    SelectSnoc(rs, r, ByStudent, g);
    SelectAbsent(rs, ByStudent, g);
    assert Select(rs + [r], ByStudent, g) == [r];
    SingleRecord(r);
  }

  lemma StudentCountSnoc(rs: seq<ResponseIn>, r: ResponseIn)
    ensures StudentTotal(StudentsOf(rs + [r])) == StudentTotal(StudentsOf(rs)) + (if PairSeen(rs, r) then 0 else 1)
  {
    if r.studentGuid in Keys(rs, ByStudent) {
      StudentCountSnocKnown(rs, r);
    } else {
      StudentCountSnocNew(rs, r);
    }
  }

  lemma StudentCountSnocKnown(rs: seq<ResponseIn>, r: ResponseIn)
    requires r.studentGuid in Keys(rs, ByStudent)
    ensures StudentTotal(StudentsOf(rs + [r])) == StudentTotal(StudentsOf(rs)) + (if PairSeen(rs, r) then 0 else 1)
  {
    var gs := FirstSeen(Keys(rs, ByStudent));
    var c, c' := AssessmentCounts(StudentsOf(rs)), AssessmentCounts(StudentsOf(rs + [r]));
    var idx :| 0 <= idx < |gs| && gs[idx] == r.studentGuid;
    StudentCountSame(rs, r, idx);
    forall j | 0 <= j < |c| && j != idx
      ensures c'[j] == c[j]
    {
      assert gs[j] != gs[idx];
      StudentCountOther(rs, r, j);
    }
    SumChangeAt(c, c', idx, c'[idx] - c[idx]);
  }

  lemma StudentCountSnocNew(rs: seq<ResponseIn>, r: ResponseIn)
    requires r.studentGuid !in Keys(rs, ByStudent)
    ensures StudentTotal(StudentsOf(rs + [r])) == StudentTotal(StudentsOf(rs)) + 1
  {
    var gs := FirstSeen(Keys(rs, ByStudent));
    var c, c' := AssessmentCounts(StudentsOf(rs)), AssessmentCounts(StudentsOf(rs + [r]));
    StudentCountNew(rs, r);
    forall j | 0 <= j < |c|
      ensures c'[j] == c[j]
    {
      assert gs[j] in Keys(rs, ByStudent);
      StudentCountOther(rs, r, j);
    }
    SumGrowsByOne(c, c');
  }

  lemma SessionCountOther(rs: seq<ResponseIn>, r: ResponseIn, i: nat)
    requires i < |ExpectedSessions(rs)| && FirstSeen(Keys(rs, BySession))[i] != r.sessionId
    ensures i < |ExpectedSessions(rs + [r])|
    ensures StudentTotal(ExpectedSessions(rs + [r])[i].students) == StudentTotal(ExpectedSessions(rs)[i].students)
  {
    var s := FirstSeen(Keys(rs, BySession))[i];
    KeyIndexStable(rs, r, BySession, i);
    SessionAt(rs, i);
    SessionAt(rs + [r], i);
    SelectSnoc(rs, r, BySession, s);
    assert Select(rs + [r], BySession, s) == Select(rs, BySession, s);
    assert ExpectedSessions(rs + [r])[i].students == ExpectedSessions(rs)[i].students;
  }

  /** Appending a record leaves the earlier distinct keys where they were. */
  lemma KeyIndexStable(rs: seq<ResponseIn>, r: ResponseIn, l: Level, i: nat)
    requires i < |FirstSeen(Keys(rs, l))|
    ensures i < |FirstSeen(Keys(rs + [r], l))|
    ensures FirstSeen(Keys(rs + [r], l))[i] == FirstSeen(Keys(rs, l))[i]
  {
    KeysSnoc(rs, r, l);
    FirstSeenSnoc(Keys(rs, l), KeyOf(r, l));
  }

  lemma SessionCountSame(rs: seq<ResponseIn>, r: ResponseIn, i: nat)
    requires i < |ExpectedSessions(rs)| && FirstSeen(Keys(rs, BySession))[i] == r.sessionId
    ensures |ExpectedSessions(rs + [r])| == |ExpectedSessions(rs)|
    ensures StudentTotal(ExpectedSessions(rs + [r])[i].students) ==
      StudentTotal(ExpectedSessions(rs)[i].students) + (if TripleSeen(rs, r) then 0 else 1)
  {
    var s := r.sessionId;
    KeysSnoc(rs, r, BySession);
    FirstSeenSnoc(Keys(rs, BySession), s);
    SessionAt(rs, i);
    SessionAt(rs + [r], i);
    SelectSnoc(rs, r, BySession, s);
    StudentCountSnoc(Select(rs, BySession, s), r);
  }

  lemma SessionCountNew(rs: seq<ResponseIn>, r: ResponseIn)
    requires r.sessionId !in Keys(rs, BySession)
    ensures |ExpectedSessions(rs + [r])| == |ExpectedSessions(rs)| + 1
    ensures StudentTotal(ExpectedSessions(rs + [r])[|ExpectedSessions(rs)|].students) == 1
  {
    var s := r.sessionId;
    KeysSnoc(rs, r, BySession);
    FirstSeenSnoc(Keys(rs, BySession), s);
    SessionAt(rs + [r], |ExpectedSessions(rs)|);
    SelectSnoc(rs, r, BySession, s);
    SelectAbsent(rs, BySession, s);
    assert Select(rs + [r], BySession, s) == [r];
    SingleRecord(r);
  }

  lemma SessionCountSnoc(rs: seq<ResponseIn>, r: ResponseIn)
    ensures SessionTotal(ExpectedSessions(rs + [r])) == SessionTotal(ExpectedSessions(rs)) + (if TripleSeen(rs, r) then 0 else 1)
  {
    if r.sessionId in Keys(rs, BySession) {
      SessionCountSnocKnown(rs, r);
    } else {
      SessionCountSnocNew(rs, r);
    }
  }

  lemma SessionCountSnocKnown(rs: seq<ResponseIn>, r: ResponseIn)
    requires r.sessionId in Keys(rs, BySession)
    ensures SessionTotal(ExpectedSessions(rs + [r])) == SessionTotal(ExpectedSessions(rs)) + (if TripleSeen(rs, r) then 0 else 1)
  {
    var ss := FirstSeen(Keys(rs, BySession));
    var c, c' := SessionCounts(ExpectedSessions(rs)), SessionCounts(ExpectedSessions(rs + [r]));
    var idx :| 0 <= idx < |ss| && ss[idx] == r.sessionId;
    SessionCountSame(rs, r, idx);
    forall i | 0 <= i < |c| && i != idx
      ensures c'[i] == c[i]
    {
      assert ss[i] != ss[idx];
      SessionCountOther(rs, r, i);
    }
    SumChangeAt(c, c', idx, c'[idx] - c[idx]);
  }

  lemma SessionCountSnocNew(rs: seq<ResponseIn>, r: ResponseIn)
    requires r.sessionId !in Keys(rs, BySession)
    ensures SessionTotal(ExpectedSessions(rs + [r])) == SessionTotal(ExpectedSessions(rs)) + 1
  {
    var ss := FirstSeen(Keys(rs, BySession));
    var c, c' := SessionCounts(ExpectedSessions(rs)), SessionCounts(ExpectedSessions(rs + [r]));
    SessionCountNew(rs, r);
    forall i | 0 <= i < |c|
      ensures c'[i] == c[i]
    {
      assert ss[i] in Keys(rs, BySession);
      SessionCountOther(rs, r, i);
    }
    SumGrowsByOne(c, c');
  }

  lemma {:induction false} TriplesMember(rs: seq<ResponseIn>, t: (string, string, string))
    ensures t in Triples(rs) <==> exists x :: x in rs && (x.sessionId, x.studentGuid, x.assessmentGuid) == t
  {
    if rs != [] {
      var p, r := rs[..|rs| - 1], rs[|rs| - 1];
      TriplesMember(p, t);
      assert rs == p + [r];
    }
  }

  /** A record's key was seen before exactly when its key triple occurs
      among the earlier records. */
  lemma TripleSeenMeansOccurs(rs: seq<ResponseIn>, r: ResponseIn)
    ensures TripleSeen(rs, r) <==> (r.sessionId, r.studentGuid, r.assessmentGuid) in Triples(rs)
  {
    var t := (r.sessionId, r.studentGuid, r.assessmentGuid);
    TriplesMember(rs, t);
    var l1 := Select(rs, BySession, r.sessionId);
    var l2 := Select(l1, ByStudent, r.studentGuid);
    KeysMember(rs, BySession, r.sessionId);
    KeysMember(l1, ByStudent, r.studentGuid);
    KeysMember(l2, ByAssessment, r.assessmentGuid);
    if TripleSeen(rs, r) {
      var x :| x in l2 && x.assessmentGuid == r.assessmentGuid;
      SelectMember(l1, ByStudent, r.studentGuid, x);
      SelectMember(rs, BySession, r.sessionId, x);
    }
    if t in Triples(rs) {
      var x :| x in rs && (x.sessionId, x.studentGuid, x.assessmentGuid) == t;
      SelectMember(rs, BySession, r.sessionId, x);
      SelectMember(l1, ByStudent, r.studentGuid, x);
    }
  }

  /** build_sessions yields one assessment per distinct (session_id,
      student_guid, assessment_guid) triple of the input. */
  lemma {:induction false} AssessmentCount(rs: seq<ResponseIn>)
    ensures SessionTotal(ExpectedSessions(rs)) == |FirstSeen(Triples(rs))|
    ensures SessionTotal(ExpectedSessions(rs)) == |set x | x in rs :: (x.sessionId, x.studentGuid, x.assessmentGuid)|
  {
    if rs == [] {
      assert Keys(rs, BySession) == [];
    } else {
      var p, r := rs[..|rs| - 1], rs[|rs| - 1];
      assert rs == p + [r];
      AssessmentCount(p);
      SessionCountSnoc(p, r);
      TripleSeenMeansOccurs(p, r);
      FirstSeenSnoc(Triples(p), (r.sessionId, r.studentGuid, r.assessmentGuid));
    }
    FirstSeenCount(Triples(rs));
    TripleSet(rs);
  }

  lemma {:induction false} TripleSet(rs: seq<ResponseIn>)
    ensures (set x | x in rs :: (x.sessionId, x.studentGuid, x.assessmentGuid)) == (set t | t in Triples(rs))
  {
    if rs != [] {
      var p, r := rs[..|rs| - 1], rs[|rs| - 1];
      assert rs == p + [r];
      TripleSet(p);
      assert (set x | x in rs :: (x.sessionId, x.studentGuid, x.assessmentGuid)) ==
        (set x | x in p :: (x.sessionId, x.studentGuid, x.assessmentGuid)) + {(r.sessionId, r.studentGuid, r.assessmentGuid)};
      assert (set t | t in Triples(rs)) == (set t | t in Triples(p)) + {(r.sessionId, r.studentGuid, r.assessmentGuid)};
    }
  }
}
