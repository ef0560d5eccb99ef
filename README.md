# Student Worksheet Flattener in Dafny

The Student Worksheet Flattener takes a student worksheet and produces a
wide CSV. The worksheet has one row per response a student gave to one
question of one assessment in one test session. The output has one row per
(session, student, assessment). This project models the reshaping engine in
between, and proves what it promises. The engine has three parts.

- **Hierarchy builder** (`build_sessions`). Responses are grouped into
  Session → Student → Assessment → Responses through nested
  insertion-ordered dicts. The `responses` validator of `Assessment`
  numbers each response's `question_counter` 1, 2, …. Each session's
  `populate_domains` then fills its `domains` dict: one Domain per
  question domain, and one DomainStudent per (domain, student) pair
  holding the scores of the first response seen for that pair.
- **Column layout** (`build_header_row`). The header walks the 13 members
  of `OutputColums`. It emits the value of each scalar column, `D`
  numbered labels for each of the two domain columns, and `Q` numbered
  labels for each of the three per-question columns. `D` is
  `max_domain_count` and `Q` is `max_question_count`.
- **Row projector** (`build_rows_from_session` and `pad_row`). A session's
  domains are sorted by name, and one row is built per assessment of each
  student. Domain names are listed, then padded with empty cells up to
  `D`. Raw scores are listed only for the domains holding an entry for the
  student, then padded by `D` minus the number of domains, so a missing
  entry leaves the group short of `D`. Each per-question column takes the
  values of the first `Q` responses, then is padded up to `Q`.

Modules:

- `Wrappers` holds `Option` and `Result`.
- `Text` holds decimal `str(int)` and Python's code-point order on strings.
- `Sequences` holds first-seen order, sums and concatenation.
- `StudentWorksheet` models `src/scripts/models/student_worksheet.py`.
- `Grouping` is the group-by behind `build_sessions`, with its laws.
- `Layout` is the header and row specification, with its laws.
- `FlattenStudentWorksheet` holds the imperative methods of
  `src/scripts/flatten_student_worksheet.py`. Each is proved equal to the
  specification.

How the model is built:

- A Python dict is a key sequence in insertion order plus a map.
- `Session` is a class whose `domainOrder`/`domains` fields
  `PopulateDomains` updates in place, loop by loop, as the source does.
- The records are datatypes.
- `D` and `Q` are unbounded integers with Python's semantics for
  `range(n)` and `xs[:n]`, negative values included.

Two behaviours of the code worth noting:

- The domain-name and domain-score groups are not truncated to `D`. A
  session with more than `D` domains lists all of them.
- When a student has no DomainStudent for a domain, the
  `… if domain_student else None` expression appends nothing, so no empty
  cell is written. The raw-score group then has one cell per domain that
  holds an entry (`Layout.WithEntry`), so later scores shift left
  (`Layout.ScoreCellsWithEntry`). The padding after it is still counted
  from the number of domains, so the group has m + max(0, D - k) cells for
  k domains of which m hold an entry (`Layout.ColumnWidth`): fewer than
  `D` when m < k <= D.

`Layout.GroupsAligned` and `Layout.RowMatchesHeaderLength` state exactly
when a row therefore lines up with the header.

## Model

| member | source | states |
|---|---|---|
| StudentWorksheet.ColumnsEnumerated | src/scripts/models/student_worksheet.py:5-18 | `OutputColums` has 13 members, each listed once in declaration order and each with its own string value; the five repeated columns sit at positions 7, 8, 10, 11 and 12; the scalar ones are, in order, session_id, test_date, student_guid, subject, assessment_guid, calculated_raw_score, scaled_score_based_on_calculated and total_time_spent_on_test |
| StudentWorksheet.HeaderLabelsInjective | src/scripts/models/student_worksheet.py:62-80 | within each of the five label families, two counters give the same label only if they are equal |
| StudentWorksheet.ParseRawResponses | src/scripts/models/student_worksheet.py:97-115 | fails with "responses must be a list of `ResponseIn`" exactly when the value is not a list or some element is neither a ResponseIn nor a Response; otherwise returns a list as long as the input whose i-th element is the Response passed through unchanged, or the ResponseIn at index i numbered i + 1 |
| StudentWorksheet.Session.constructor | src/scripts/models/student_worksheet.py:134-137 | a new session holds its id and students and an empty `domains` dict |
| StudentWorksheet.Session.RecordVisit | src/scripts/models/student_worksheet.py:143-153 | one inner step: registers the response's domain if unseen, then the (domain, student) entry with this response's raw and max scores if unseen |
| StudentWorksheet.Session.RecordResponses | src/scripts/models/student_worksheet.py:142-153 | the state after the innermost loop is the scan of one assessment's responses, in order, from the state before |
| StudentWorksheet.Session.RecordAssessments | src/scripts/models/student_worksheet.py:141-153 | the state after the middle loop is the scan of one student's assessments, in order, from the state before |
| StudentWorksheet.Session.PopulateDomains | src/scripts/models/student_worksheet.py:139-153 | the new `domains` dict is the scan of every response in (student, assessment, response) order from the old one, and a well-formed dict stays well formed |
| StudentWorksheet.PopulateWellFormed | src/scripts/models/student_worksheet.py:139-153 | the scan keeps each key listed once and each Domain and DomainStudent filed under its own name |
| StudentWorksheet.PopulateOrder | src/scripts/models/student_worksheet.py:143-144 | the dict's keys come out as the old keys followed by the newly seen domain names in first-seen order |
| StudentWorksheet.PopulateKeys | src/scripts/models/student_worksheet.py:143-144 | a domain is a key afterwards exactly when it was one before or some scanned response is in it |
| StudentWorksheet.PopulateEntries | src/scripts/models/student_worksheet.py:146-153 | a (domain, student) entry exists afterwards exactly when it existed before or some scanned response of that student is in that domain |
| StudentWorksheet.PopulateKeeps | src/scripts/models/student_worksheet.py:146-153 | an entry present before the scan is never overwritten |
| StudentWorksheet.PopulateFirstWins | src/scripts/models/student_worksheet.py:146-153 | a new entry holds the raw and max scores of the first scanned response of that student in that domain |
| StudentWorksheet.PopulateSaturated | src/scripts/models/student_worksheet.py:143-153 | scanning responses whose entries all exist changes nothing |
| StudentWorksheet.PopulateIdempotent | src/scripts/models/student_worksheet.py:139-153 | populating a second time over the same students changes nothing |
| StudentWorksheet.PopulateConcat | src/scripts/models/student_worksheet.py:140-142 | scanning two runs of responses one after the other is scanning their concatenation |
| StudentWorksheet.VisitsMember | src/scripts/models/student_worksheet.py:140-142 | the scan visits exactly the (student, response) pairs of the session's students |
| StudentWorksheet.VisitsInDomain | src/scripts/models/student_worksheet.py:140-144 | the scan meets a response in domain d exactly when some student answered in d |
| StudentWorksheet.VisitsTouching | src/scripts/models/student_worksheet.py:140-153 | the scan meets a response of student g in domain d exactly when student g answered in d |
| StudentWorksheet.SessionDomains | src/scripts/models/student_worksheet.py:139-153 | after populating a new session, the keys are exactly the question domains of its responses, the empty string included, and a (d, g) entry exists exactly when student g answered a question in domain d |
| Grouping.AppendToAssessmentsGroups | src/scripts/flatten_student_worksheet.py:23 | appending a record to the assessment-level dict of some records gives the dict of those records plus that one |
| Grouping.AppendToStudentsGroups | src/scripts/flatten_student_worksheet.py:23 | the same at the student level, through the default nested dict |
| Grouping.AppendToSessionsGroups | src/scripts/flatten_student_worksheet.py:19-23 | the same at the session level: one loop step of the grouping keeps `session_data` equal to the grouping of the records read so far |
| Grouping.GroupBySessionEntry | src/scripts/flatten_student_worksheet.py:27-29 | stepping stone that unfolds the definition for later proofs: a session's entry in `session_data` is the student-level grouping of that session's records |
| Grouping.GroupByStudentEntry | src/scripts/flatten_student_worksheet.py:29-31 | stepping stone that unfolds the definition for later proofs: a student's entry is the assessment-level grouping of that student's records |
| Grouping.AssessmentOfRecords | src/scripts/flatten_student_worksheet.py:31-34 | an assessment built from a group holds the group's records in order, numbered 1, 2, … |
| Grouping.SessionsFirstSeen | src/scripts/flatten_student_worksheet.py:19-27 | sessions come out once per distinct session_id, every session_id of the input among them, in order of first appearance |
| Grouping.StudentsFirstSeen | src/scripts/flatten_student_worksheet.py:19-29 | within a session, students come out once per distinct student_guid in order of first appearance |
| Grouping.AssessmentsFirstSeen | src/scripts/flatten_student_worksheet.py:19-31 | within a student, assessments come out once per distinct assessment_guid in order of first appearance |
| Grouping.Located | src/scripts/flatten_student_worksheet.py:22-34 | the assessment at any position of the hierarchy is the one built from the records whose three keys are that position's keys |
| Grouping.AssessmentContents | src/scripts/flatten_student_worksheet.py:31-34 | each assessment holds exactly its records, in input order, numbered from 1, and takes its scalar fields from the first of them |
| Grouping.HoldsRecordKeys | src/scripts/flatten_student_worksheet.py:22-23 | a record is held only by the session, student and assessment carrying its own session_id, student_guid and assessment_guid |
| Grouping.RecordLands | src/scripts/flatten_student_worksheet.py:22-34 | every input record is held by some assessment of the hierarchy |
| Grouping.RecordLandsOnce | src/scripts/flatten_student_worksheet.py:22-34 | every input record is held by exactly one (session, student, assessment) position |
| Grouping.AssessmentCount | src/scripts/flatten_student_worksheet.py:15-41 | the hierarchy holds one assessment per distinct (session_id, student_guid, assessment_guid) triple of the input |
| Layout.HeaderRowIs | src/scripts/flatten_student_worksheet.py:44-68 | the header is the cells of each column in `OutputColums` order |
| Layout.HeaderLayout | src/scripts/flatten_student_worksheet.py:44-68 | the header has 8 + 2D + 3Q cells: the seven leading column values, the domain names, the domain raw scores, total_time_spent_on_test, then the three per-question groups, each at its offset |
| Layout.DomainLabelAt | src/scripts/flatten_student_worksheet.py:48-52 | the n-th cell of each domain group is the label numbered n + 1 |
| Layout.QuestionLabelAt | src/scripts/flatten_student_worksheet.py:55-62 | the n-th cell of each per-question group is the label numbered n + 1 |
| Layout.ScalarHeaders | src/scripts/flatten_student_worksheet.py:64-66 | stepping stone that unfolds the definition for later proofs: each scalar column contributes its enum value alone |
| Layout.HeaderWidth | src/scripts/flatten_student_worksheet.py:46-66 | stepping stone that unfolds the definition for later proofs: a column adds 1 header cell, D for a domain column, Q for a per-question column (0 for a negative maximum) |
| Layout.SortByNameCount | src/scripts/flatten_student_worksheet.py:84 | sorting permutes the domains (same multiset) |
| Layout.SortByNameSorted | src/scripts/flatten_student_worksheet.py:84 | sorting orders the domains by name |
| Layout.SortedSessionDomains | src/scripts/flatten_student_worksheet.py:83-84 | the sorted domain list holds every domain of the session exactly once, each the session's own Domain, names strictly increasing |
| Layout.ProjectRowIs | src/scripts/flatten_student_worksheet.py:89-131 | a row is the cells of each column in `OutputColums` order |
| Layout.AttributeCells | src/scripts/flatten_student_worksheet.py:126-129 | stepping stone that unfolds the definition for later proofs: an assessment column holds the one attribute it names, integers in decimal |
| Layout.NameGroup | src/scripts/flatten_student_worksheet.py:99-102 | the domain-name group lists every domain's name in the given order, none dropped, then empty cells up to D: max(k, D) cells |
| Layout.WithEntryMembers | src/scripts/flatten_student_worksheet.py:104-108 | the domains the raw-score loop writes a cell for are exactly those holding an entry for the student |
| Layout.WithEntryShorter | src/scripts/flatten_student_worksheet.py:104-108 | at most one cell per domain, and fewer when some domain holds no entry for the student |
| Layout.WithEntryKeepsAll | src/scripts/flatten_student_worksheet.py:104-108 | when every domain holds an entry, every domain gets a raw-score cell |
| Layout.WithEntryAll | src/scripts/flatten_student_worksheet.py:104-108 | one raw-score cell per domain exactly when every domain holds an entry for the student |
| Layout.ScoreCellsWithEntry | src/scripts/flatten_student_worksheet.py:104-108 | cell j of the raw-score group is the decimal raw score of the j-th domain holding an entry, so a missing entry shifts the later scores left |
| Layout.ScoreCellsCount | src/scripts/flatten_student_worksheet.py:104-108 | the raw-score cells number at most the domains, and equal them exactly when the student has an entry in every domain |
| Layout.ScoreCellsContents | src/scripts/flatten_student_worksheet.py:104-108 | when the student has every entry, the i-th raw-score cell is the decimal raw score of the i-th domain |
| Layout.ColumnWidth | src/scripts/flatten_student_worksheet.py:90-129 | a column adds 1 cell, max(k, D) domain names, m + max(0, D - k) raw scores (m the number of domains holding an entry, `WithEntry`), and for a per-question column the responses kept by `[:Q]` plus padding, exactly Q when Q >= 0 |
| Layout.ResponseGroups | src/scripts/flatten_student_worksheet.py:111-124 | each per-question group has Q cells: the column's values for the first min(n, Q) responses in stored order, then empty cells |
| Layout.RowShape | src/scripts/flatten_student_worksheet.py:89-131 | a row has 8 + max(k, D) + m + max(0, D - k) + 3Q cells, m the number of domains holding an entry for the student |
| Layout.GroupsAligned | src/scripts/flatten_student_worksheet.py:90-124 | every column adds as many cells to the row as to the header exactly when k <= D and the student has an entry in every domain |
| Layout.RowMatchesHeaderLength | src/scripts/flatten_student_worksheet.py:80-133 | a row is as long as the header exactly when k <= D with every entry present, or k > D with k + m == 2D, m the number of domains holding an entry for the student |
| Layout.SessionRowsCount | src/scripts/flatten_student_worksheet.py:87-131 | a session gives one row per assessment of each of its students |
| Layout.SessionRowsFrom | src/scripts/flatten_student_worksheet.py:87-131 | every row of a session is the row of one of its students' assessments |
| Layout.WorksheetRowsCount | src/scripts/flatten_student_worksheet.py:143-148 | the worksheet has one row per assessment across all sessions |
| FlattenStudentWorksheet.BuildAssessment | src/scripts/flatten_student_worksheet.py:31-34 | the Assessment parsed from one group takes its scalar fields from the first row and holds the group's rows numbered 1, 2, … |
| FlattenStudentWorksheet.GroupRows | src/scripts/flatten_student_worksheet.py:19-23 | the nested dicts after the first loop are the three-level grouping of the input |
| FlattenStudentWorksheet.BuildAssessments | src/scripts/flatten_student_worksheet.py:30-34 | one Assessment per assessment_guid of a student, in first-seen order |
| FlattenStudentWorksheet.BuildStudents | src/scripts/flatten_student_worksheet.py:28-36 | one Student per student_guid of a session, in first-seen order |
| FlattenStudentWorksheet.BuildSessionTree | src/scripts/flatten_student_worksheet.py:27-36 | the students of one session, built from its entry in `session_data` |
| FlattenStudentWorksheet.OpenSession | src/scripts/flatten_student_worksheet.py:37-38 | a new Session whose domains are populated from its own students |
| FlattenStudentWorksheet.BuildSessionTrees | src/scripts/flatten_student_worksheet.py:27-39 | the students of every session, in the order of `session_data` |
| FlattenStudentWorksheet.OpenSessions | src/scripts/flatten_student_worksheet.py:37-39 | one new, populated Session per tree, in order |
| FlattenStudentWorksheet.BuildSessions | src/scripts/flatten_student_worksheet.py:15-41 | one new Session per distinct session_id in first-seen order, each holding the expected students and assessments with its domains populated from them |
| FlattenStudentWorksheet.BuildHeaderRow | src/scripts/flatten_student_worksheet.py:44-68 | the header row, with 8 + 2D + 3Q cells when D, Q >= 0 |
| FlattenStudentWorksheet.PadRow | src/scripts/flatten_student_worksheet.py:71-77 | the row is unchanged when actual >= max; otherwise exactly max - actual empty cells are appended; the existing prefix is kept in both cases |
| FlattenStudentWorksheet.AppendNames | src/scripts/flatten_student_worksheet.py:100-101 | appends one name cell per domain, in order |
| FlattenStudentWorksheet.AppendScores | src/scripts/flatten_student_worksheet.py:105-107 | appends the raw-score cells of the domains the student has an entry in, skipping the rest |
| FlattenStudentWorksheet.AppendResponses | src/scripts/flatten_student_worksheet.py:111-123 | appends the column's value for each response of `responses[:Q]` |
| FlattenStudentWorksheet.BuildRow | src/scripts/flatten_student_worksheet.py:89-131 | the row of one (student, assessment) pair is its specified projection |
| FlattenStudentWorksheet.BuildRowsFromSession | src/scripts/flatten_student_worksheet.py:80-133 | the rows of a session over its domains sorted by name, one per assessment of each student, in order |
| FlattenStudentWorksheet.SessionsRows | src/scripts/flatten_student_worksheet.py:143-148 | the rows of every session, session after session |
| FlattenStudentWorksheet.FlattenedCsv | src/scripts/flatten_student_worksheet.py:136-150 | what is handed to the CSV writer: the header row, then the rows of every session |
| FlattenStudentWorksheet.CsvRowsOfBuilt | src/scripts/flatten_student_worksheet.py:143-148 | for sessions as build_sessions leaves them, the written rows are the worksheet rows of their trees, one per assessment |
| FlattenStudentWorksheet.Flatten | src/scripts/flatten_student_worksheet.py:153-158 | the header, then the rows of the expected hierarchy: one row per distinct (session_id, student_guid, assessment_guid) of the input |

## Left out

- `parse_student_worksheet` (src/scripts/flatten_student_worksheet.py:9-12) is CSV decoding plus pydantic type coercion. The model takes its output, a sequence of typed `ResponseIn` records, as the input of `Flatten`.
- `build_flattened_csv` and `main` are modelled without their file I/O: the temporary file, `csv.writer` quoting and the returned path are not modelled. `FlattenedCsv` and `Flatten` return the header and the rows that would be written.
- src/app.py, the Streamlit form, is not part of this model. Its `min_value=1` bounds on `D` and `Q` are not needed: every operation is modelled for all integers, with Python's meaning of `range` and slicing for negative values.
- Layout.ResponseGroups: stated for Q >= 0 only, which the form's `min_value=1` guarantees; `Layout.ColumnWidth` covers negative Q.
- Layout.RowShape: stated for Q >= 0 only, as above.
- Layout.GroupsAligned: stated for Q >= 0 only, as above.
- Layout.RowMatchesHeaderLength: stated for Q >= 0 only, as above.
- `str(int)` is modelled as plain decimal notation with a leading minus sign (`Text.IntToString`). Pydantic's field copying in `parse_obj`/`dict()` is modelled as building the record directly.
- `list.sort` is modelled by a stable insertion sort by name (`Layout.SortByName`). Its result is unique here because a session's domain names are distinct.
- A Domain's `domain_students` dict is modelled as a map value updated inside the session's `domains` map. Each Domain belongs to one session, so no aliasing is lost.
- FlattenStudentWorksheet.PadRow: returns the padded row as a new sequence instead of extending its argument in place.
- FlattenStudentWorksheet.BuildSessions: builds every session's students first and then opens and populates the sessions one by one, where the source does both in one loop. Each session's construction does not depend on the others, so the result is the same.
