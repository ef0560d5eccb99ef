/** What one flattened CSV row and the header row contain
    (src/scripts/flatten_student_worksheet.py, `build_header_row`,
    `pad_row` and `build_rows_from_session`), stated as functions of the
    session, student and assessment, with the laws about their shape. */
module Layout {
  import opened Wrappers
  import opened Sequences
  import opened Text
  import opened StudentWorksheet
  import opened Grouping

  /** A CSV cell: a string, or None (an empty field). */
  type Cell = Option<string>

  /** `len(range(n))`. */
  function RangeLen(n: int): nat {
    if n < 0 then 0 else n
  }

  /** `len(xs[:n])` for a list of length `len`; a negative bound counts
      from the end. */
  function SliceLen(len: nat, n: int): (r: nat)
    ensures r <= len
    ensures n >= 0 ==> r == if n < len then n else len
  {
    if n >= 0 then (if n < len then n else len)
    else if len + n > 0 then len + n else 0
  }

  // ---------------------------------------------------------------------
  // Header row
  // ---------------------------------------------------------------------

  /** The header cells one column contributes: a numbered label per domain
      or question, or the column's own value. */
  function HeaderGroup(c: Column, maxDomains: int, maxQuestions: int): seq<string> {
    var d, q := RangeLen(maxDomains), RangeLen(maxQuestions);
    if c.QuestionDomain? then seq(d, i requires 0 <= i < d => QuestionDomainHeader(i + 1))
    else if c.DomainRawScore? then seq(d, i requires 0 <= i < d => QuestionDomainRawScoreHeader(i + 1))
    else if c.TimeSpentOnItem? then seq(q, i requires 0 <= i < q => TimeSpentOnItemHeader(i + 1))
    else if c.ResponseValue? then seq(q, i requires 0 <= i < q => ResponseValueHeader(i + 1))
    else if c.ResponseRawScore? then seq(q, i requires 0 <= i < q => ResponseRawScoreHeader(i + 1))
    else [ColumnValue(c)]
  }

  /** The header cells of each column, in column order. */
  function HeaderGroups(maxDomains: int, maxQuestions: int): seq<seq<string>> {
    seq(|Columns()|, i requires 0 <= i < |Columns()| => HeaderGroup(Columns()[i], maxDomains, maxQuestions))
  }

  function HeaderRow(maxDomains: int, maxQuestions: int): seq<string> {
    Concat(HeaderGroups(maxDomains, maxQuestions))
  }

  /** Each position of `Columns()`. */
  lemma ColumnsAt()
    ensures var cs := Columns();
      cs[0] == SessionId
      && cs[1] == TestDate
      && cs[2] == StudentGuid
      && cs[3] == Subject
      && cs[4] == AssessmentGuid
      && cs[5] == CalculatedRawScore
      && cs[6] == ScaledScoreBasedOnCalculated
      && cs[7] == QuestionDomain
      && cs[8] == DomainRawScore
      && cs[9] == TotalTimeSpentOnTest
      && cs[10] == TimeSpentOnItem
      && cs[11] == ResponseValue
      && cs[12] == ResponseRawScore
  {
  }

  /** The header is the cells of each column in `OutputColums` order. */
  lemma HeaderRowIs(maxDomains: int, maxQuestions: int)
    ensures HeaderRow(maxDomains, maxQuestions) ==
      HeaderGroup(SessionId, maxDomains, maxQuestions)
      + (HeaderGroup(TestDate, maxDomains, maxQuestions)
      + (HeaderGroup(StudentGuid, maxDomains, maxQuestions)
      + (HeaderGroup(Subject, maxDomains, maxQuestions)
      + (HeaderGroup(AssessmentGuid, maxDomains, maxQuestions)
      + (HeaderGroup(CalculatedRawScore, maxDomains, maxQuestions)
      + (HeaderGroup(ScaledScoreBasedOnCalculated, maxDomains, maxQuestions)
      + (HeaderGroup(QuestionDomain, maxDomains, maxQuestions)
      + (HeaderGroup(DomainRawScore, maxDomains, maxQuestions)
      + (HeaderGroup(TotalTimeSpentOnTest, maxDomains, maxQuestions)
      + (HeaderGroup(TimeSpentOnItem, maxDomains, maxQuestions)
      + (HeaderGroup(ResponseValue, maxDomains, maxQuestions)
      + HeaderGroup(ResponseRawScore, maxDomains, maxQuestions))))))))))))
  {
    Concat13(HeaderGroups(maxDomains, maxQuestions));
    ColumnsAt();
  }

  /** Where each header cell sits: the seven identifying columns, D domain
      names, D domain raw scores, the total time, then Q labels for each of
      the three per-question columns, 8 + 2D + 3Q cells in all. */
  lemma HeaderLayout(maxDomains: int, maxQuestions: int)
    ensures var h, d, q := HeaderRow(maxDomains, maxQuestions), RangeLen(maxDomains), RangeLen(maxQuestions);
      && |h| == 8 + 2 * d + 3 * q
      && h[..7] == ["session_id", "test_date", "student_guid", "subject", "assessment_guid",
                    "calculated_raw_score", "scaled_score_based_on_calculated"]
      && h[7..7 + d] == HeaderGroup(QuestionDomain, maxDomains, maxQuestions)
      && h[7 + d..7 + 2 * d] == HeaderGroup(DomainRawScore, maxDomains, maxQuestions)
      && h[7 + 2 * d] == "total_time_spent_on_test"
      && h[8 + 2 * d..8 + 2 * d + q] == HeaderGroup(TimeSpentOnItem, maxDomains, maxQuestions)
      && h[8 + 2 * d + q..8 + 2 * d + 2 * q] == HeaderGroup(ResponseValue, maxDomains, maxQuestions)
      && h[8 + 2 * d + 2 * q..] == HeaderGroup(ResponseRawScore, maxDomains, maxQuestions)
  {
    var d, q := RangeLen(maxDomains), RangeLen(maxQuestions);
    HeaderRowFlat(maxDomains, maxQuestions);
    GroupSlices(HeaderRow(maxDomains, maxQuestions),
                ["session_id", "test_date", "student_guid", "subject", "assessment_guid",
                 "calculated_raw_score", "scaled_score_based_on_calculated"],
                HeaderGroup(QuestionDomain, maxDomains, maxQuestions), HeaderGroup(DomainRawScore, maxDomains, maxQuestions),
                "total_time_spent_on_test",
                HeaderGroup(TimeSpentOnItem, maxDomains, maxQuestions), HeaderGroup(ResponseValue, maxDomains, maxQuestions),
                HeaderGroup(ResponseRawScore, maxDomains, maxQuestions), d, q);
  }

  /** The n-th label (from 0) of each domain group carries the number n + 1. */
  lemma DomainLabelAt(maxDomains: int, maxQuestions: int, n: nat)
    requires n < RangeLen(maxDomains)
    ensures var h, d := HeaderRow(maxDomains, maxQuestions), RangeLen(maxDomains);
      && 7 + 2 * d <= |h|
      && h[7 + n] == QuestionDomainHeader(n + 1)
      && h[7 + d + n] == QuestionDomainRawScoreHeader(n + 1)
  {
    var h, d := HeaderRow(maxDomains, maxQuestions), RangeLen(maxDomains);
    var e, f := HeaderGroup(QuestionDomain, maxDomains, maxQuestions), HeaderGroup(DomainRawScore, maxDomains, maxQuestions);
    DomainGroups(maxDomains, maxQuestions);
    TwoGroupsAt(h, 7, d, n, e, f);
  }

  /** The two domain groups of the header, without the rest of its layout. */
  lemma DomainGroups(maxDomains: int, maxQuestions: int)
    ensures var h, d := HeaderRow(maxDomains, maxQuestions), RangeLen(maxDomains);
      && 7 + 2 * d <= |h|
      && h[7..7 + d] == HeaderGroup(QuestionDomain, maxDomains, maxQuestions)
      && h[7 + d..7 + 2 * d] == HeaderGroup(DomainRawScore, maxDomains, maxQuestions)
  {
    HeaderLayout(maxDomains, maxQuestions);
  }

  /** The n-th cell of each of two consecutive groups of length d. */
  lemma TwoGroupsAt<T>(h: seq<T>, off: nat, d: nat, n: nat, e: seq<T>, f: seq<T>)
    requires off + 2 * d <= |h| && n < d
    requires h[off..off + d] == e && h[off + d..off + 2 * d] == f
    ensures h[off + n] == e[n] && h[off + d + n] == f[n]
  {
    SliceAt(h, off, off + d, n);
    SliceAt(h, off + d, off + 2 * d, n);
  }

  /** The n-th label (from 0) of each per-question group carries the number
      n + 1. */
  lemma QuestionLabelAt(maxDomains: int, maxQuestions: int, n: nat)
    requires n < RangeLen(maxQuestions)
    ensures var h, d, q := HeaderRow(maxDomains, maxQuestions), RangeLen(maxDomains), RangeLen(maxQuestions);
      && |h| == 8 + 2 * d + 3 * q
      && h[8 + 2 * d + n] == TimeSpentOnItemHeader(n + 1)
      && h[8 + 2 * d + q + n] == ResponseValueHeader(n + 1)
      && h[8 + 2 * d + 2 * q + n] == ResponseRawScoreHeader(n + 1)
  {
    var h, d, q := HeaderRow(maxDomains, maxQuestions), RangeLen(maxDomains), RangeLen(maxQuestions);
    var e, f, g := HeaderGroup(TimeSpentOnItem, maxDomains, maxQuestions),
                   HeaderGroup(ResponseValue, maxDomains, maxQuestions),
                   HeaderGroup(ResponseRawScore, maxDomains, maxQuestions);
    QuestionGroups(maxDomains, maxQuestions);
    ThreeGroupsAt(h, 8 + 2 * d, q, n, e, f, g);
    QuestionGroupCells(maxDomains, maxQuestions, n);
  }

  lemma QuestionGroupCells(maxDomains: int, maxQuestions: int, n: nat)
    requires n < RangeLen(maxQuestions)
    ensures HeaderGroup(TimeSpentOnItem, maxDomains, maxQuestions)[n] == TimeSpentOnItemHeader(n + 1)
    ensures HeaderGroup(ResponseValue, maxDomains, maxQuestions)[n] == ResponseValueHeader(n + 1)
    ensures HeaderGroup(ResponseRawScore, maxDomains, maxQuestions)[n] == ResponseRawScoreHeader(n + 1)
  {
  }

  /** The three question groups that close the header, without the rest of
      its layout. */
  lemma QuestionGroups(maxDomains: int, maxQuestions: int)
    ensures var h, d, q := HeaderRow(maxDomains, maxQuestions), RangeLen(maxDomains), RangeLen(maxQuestions);
      && |h| == 8 + 2 * d + 3 * q
      && h[8 + 2 * d..8 + 2 * d + q] == HeaderGroup(TimeSpentOnItem, maxDomains, maxQuestions)
      && h[8 + 2 * d + q..8 + 2 * d + 2 * q] == HeaderGroup(ResponseValue, maxDomains, maxQuestions)
      && h[8 + 2 * d + 2 * q..] == HeaderGroup(ResponseRawScore, maxDomains, maxQuestions)
  {
    HeaderLayout(maxDomains, maxQuestions);
  }

  /** The n-th cell of each of three consecutive groups of length q that
      close a sequence. */
  lemma ThreeGroupsAt<T>(h: seq<T>, off: nat, q: nat, n: nat, e: seq<T>, f: seq<T>, g: seq<T>)
    requires |h| == off + 3 * q && n < q
    requires h[off..off + q] == e && h[off + q..off + 2 * q] == f && h[off + 2 * q..] == g
    ensures h[off + n] == e[n] && h[off + q + n] == f[n] && h[off + 2 * q + n] == g[n]
  {
    SliceAt(h, off, off + q, n);
    SliceAt(h, off + q, off + 2 * q, n);
    SliceAt(h, off + 2 * q, |h|, n);
  }

  lemma SliceAt<T>(h: seq<T>, i: nat, j: nat, n: nat)
    requires i + n < j <= |h|
    ensures h[i + n] == h[i..j][n]
  {
  }

  lemma HeaderRowFlat(maxDomains: int, maxQuestions: int)
    ensures HeaderRow(maxDomains, maxQuestions) ==
      ["session_id", "test_date", "student_guid", "subject", "assessment_guid",
       "calculated_raw_score", "scaled_score_based_on_calculated"]
      + (HeaderGroup(QuestionDomain, maxDomains, maxQuestions)
      + (HeaderGroup(DomainRawScore, maxDomains, maxQuestions)
      + (["total_time_spent_on_test"]
      + (HeaderGroup(TimeSpentOnItem, maxDomains, maxQuestions)
      + (HeaderGroup(ResponseValue, maxDomains, maxQuestions)
      + HeaderGroup(ResponseRawScore, maxDomains, maxQuestions))))))
  {
    HeaderRowIs(maxDomains, maxQuestions);
    ScalarHeaders(maxDomains, maxQuestions);
    SevenSingles("session_id", "test_date", "student_guid", "subject", "assessment_guid",
                 "calculated_raw_score", "scaled_score_based_on_calculated",
                 HeaderGroup(QuestionDomain, maxDomains, maxQuestions)
                 + (HeaderGroup(DomainRawScore, maxDomains, maxQuestions)
                 + (["total_time_spent_on_test"]
                 + (HeaderGroup(TimeSpentOnItem, maxDomains, maxQuestions)
                 + (HeaderGroup(ResponseValue, maxDomains, maxQuestions)
                 + HeaderGroup(ResponseRawScore, maxDomains, maxQuestions))))));
  }

  /** The header cell of each column that is not repeated. */
  lemma ScalarHeaders(maxDomains: int, maxQuestions: int)
    ensures HeaderGroup(SessionId, maxDomains, maxQuestions) == ["session_id"]
    ensures HeaderGroup(TestDate, maxDomains, maxQuestions) == ["test_date"]
    ensures HeaderGroup(StudentGuid, maxDomains, maxQuestions) == ["student_guid"]
    ensures HeaderGroup(Subject, maxDomains, maxQuestions) == ["subject"]
    ensures HeaderGroup(AssessmentGuid, maxDomains, maxQuestions) == ["assessment_guid"]
    ensures HeaderGroup(CalculatedRawScore, maxDomains, maxQuestions) == ["calculated_raw_score"]
    ensures HeaderGroup(ScaledScoreBasedOnCalculated, maxDomains, maxQuestions) == ["scaled_score_based_on_calculated"]
    ensures HeaderGroup(TotalTimeSpentOnTest, maxDomains, maxQuestions) == ["total_time_spent_on_test"]
  {
  }

  lemma SevenSingles<T>(x0: T, x1: T, x2: T, x3: T, x4: T, x5: T, x6: T, rest: seq<T>)
    ensures [x0] + ([x1] + ([x2] + ([x3] + ([x4] + ([x5] + ([x6] + rest)))))) ==
      [x0, x1, x2, x3, x4, x5, x6] + rest
  {
  }

  /** Where the groups of a row laid out like the header sit. */
  lemma GroupSlices<T>(h: seq<T>, first: seq<T>, b: seq<T>, c: seq<T>, t: T, e: seq<T>, f: seq<T>, g: seq<T>,
                       d: nat, q: nat)
    requires h == first + (b + (c + ([t] + (e + (f + g)))))
    requires |first| == 7 && |b| == d && |c| == d && |e| == q && |f| == q && |g| == q
    ensures |h| == 8 + 2 * d + 3 * q
    ensures h[..7] == first && h[7..7 + d] == b && h[7 + d..7 + 2 * d] == c && h[7 + 2 * d] == t
    ensures h[8 + 2 * d..8 + 2 * d + q] == e && h[8 + 2 * d + q..8 + 2 * d + 2 * q] == f
    ensures h[8 + 2 * d + 2 * q..] == g
  {
    FrontSlices(h, first, b, c, t, e + (f + g), d);
    var r := h[8 + 2 * d..];
    ThreeParts(r, e, f, g);
    ShiftSlice(h, 8 + 2 * d, 0, q);
    ShiftSlice(h, 8 + 2 * d, q, 2 * q);
    SuffixSlices(h, 8 + 2 * d, 2 * q);
  }

  lemma FrontSlices<T>(h: seq<T>, first: seq<T>, b: seq<T>, c: seq<T>, t: T, rest: seq<T>, d: nat)
    requires h == first + (b + (c + ([t] + rest)))
    requires |first| == 7 && |b| == d && |c| == d
    ensures h[..7] == first && h[7..7 + d] == b && h[7 + d..7 + 2 * d] == c && h[7 + 2 * d] == t
    ensures h[8 + 2 * d..] == rest
  {
    ThreeParts(h, first, b, c + ([t] + rest));
    var r := h[7 + d..];
    ThreeParts(r, c, [t], rest);
    ShiftSlice(h, 7 + d, 0, d);
    SuffixSlices(h, 7 + d, d + 1);
  }

  // ---------------------------------------------------------------------
  // Sorting the domains by name
  // ---------------------------------------------------------------------

  predicate SortedByName(ds: seq<Domain>) {
    forall i, j :: 0 <= i < j < |ds| ==> LessEq(ds[i].questionDomain, ds[j].questionDomain)
  }

  predicate DistinctNames(ds: seq<Domain>) {
    forall i, j :: 0 <= i < j < |ds| ==> ds[i].questionDomain != ds[j].questionDomain
  }

  /** Inserts d before the first domain whose name is not smaller. */
  function InsertByName(d: Domain, ds: seq<Domain>): seq<Domain> {
    if ds == [] || LessEq(d.questionDomain, ds[0].questionDomain) then [d] + ds
    else [ds[0]] + InsertByName(d, ds[1..])
  }

  /** `list.sort(key=lambda x: x.question_domain)`: a stable sort by name,
      each domain inserted ahead of the later ones with an equal name. */
  function SortByName(ds: seq<Domain>): seq<Domain> {
    if ds == [] then [] else InsertByName(ds[0], SortByName(ds[1..]))
  }

  lemma ConsSorted(x: Domain, ds: seq<Domain>)
    requires SortedByName(ds)
    requires forall i :: 0 <= i < |ds| ==> LessEq(x.questionDomain, ds[i].questionDomain)
    ensures SortedByName([x] + ds)
  {
  }

  lemma ConsDistinct(x: Domain, ds: seq<Domain>)
    requires DistinctNames(ds)
    requires forall i :: 0 <= i < |ds| ==> ds[i].questionDomain != x.questionDomain
    ensures DistinctNames([x] + ds)
  {
  }

  /** Insertion adds exactly d. */
  lemma {:induction false} InsertByNameCount(d: Domain, ds: seq<Domain>)
    ensures var r := InsertByName(d, ds);
      |r| == |ds| + 1 && multiset(r) == multiset(ds) + multiset{d}
  {
    if !(ds == [] || LessEq(d.questionDomain, ds[0].questionDomain)) {
      InsertByNameCount(d, ds[1..]);
      assert ds == [ds[0]] + ds[1..];
    }
  }

  /** Insertion keeps a sorted list sorted. */
  lemma {:induction false} InsertByNameSorted(d: Domain, ds: seq<Domain>)
    requires SortedByName(ds)
    ensures SortedByName(InsertByName(d, ds))
  {
    if ds == [] || LessEq(d.questionDomain, ds[0].questionDomain) {
      forall i | 0 < i < |ds|
        ensures LessEq(d.questionDomain, ds[i].questionDomain)
      {
        LessEqTransitive(d.questionDomain, ds[0].questionDomain, ds[i].questionDomain);
      }
      ConsSorted(d, ds);
    } else {
      var tail := ds[1..];
      var rest := InsertByName(d, tail);
      InsertByNameSorted(d, tail);
      InsertByNameCount(d, tail);
      LessEqTotal(d.questionDomain, ds[0].questionDomain);
      forall i | 0 <= i < |rest|
        ensures LessEq(ds[0].questionDomain, rest[i].questionDomain)
      {
        assert rest[i] in multiset(rest);
        if rest[i] != d {
          assert rest[i] in multiset(tail);
          var p :| 0 <= p < |tail| && tail[p] == rest[i];
          assert ds[p + 1] == rest[i];
        }
      }
      ConsSorted(ds[0], rest);
    }
  }

  /** Inserting a domain with a new name keeps names distinct. */
  lemma {:induction false} InsertByNameDistinct(d: Domain, ds: seq<Domain>)
    requires DistinctNames(ds)
    requires forall i :: 0 <= i < |ds| ==> ds[i].questionDomain != d.questionDomain
    ensures DistinctNames(InsertByName(d, ds))
  {
    if ds == [] || LessEq(d.questionDomain, ds[0].questionDomain) {
      ConsDistinct(d, ds);
    } else {
      var tail := ds[1..];
      var rest := InsertByName(d, tail);
      InsertByNameDistinct(d, tail);
      InsertByNameCount(d, tail);
      forall i | 0 <= i < |rest|
        ensures rest[i].questionDomain != ds[0].questionDomain
      {
        assert rest[i] in multiset(rest);
        if rest[i] != d {
          assert rest[i] in multiset(tail);
          var p :| 0 <= p < |tail| && tail[p] == rest[i];
          assert ds[p + 1] == rest[i];
        }
      }
      ConsDistinct(ds[0], rest);
    }
  }

  /** Sorting permutes the domains. */
  lemma {:induction false} SortByNameCount(ds: seq<Domain>)
    ensures |SortByName(ds)| == |ds| && multiset(SortByName(ds)) == multiset(ds)
  {
    if ds != [] {
      SortByNameCount(ds[1..]);
      InsertByNameCount(ds[0], SortByName(ds[1..]));
      assert ds == [ds[0]] + ds[1..];
    }
  }

  /** Sorting puts the domains in name order. */
  lemma {:induction false} SortByNameSorted(ds: seq<Domain>)
    ensures SortedByName(SortByName(ds))
  {
    if ds != [] {
      SortByNameSorted(ds[1..]);
      InsertByNameSorted(ds[0], SortByName(ds[1..]));
    }
  }

  /** Sorting keeps names distinct. */
  lemma {:induction false} SortByNameDistinct(ds: seq<Domain>)
    requires DistinctNames(ds)
    ensures DistinctNames(SortByName(ds))
  {
    if ds != [] {
      var tail := ds[1..];
      var rest := SortByName(tail);
      SortByNameDistinct(tail);
      SortByNameCount(tail);
      forall i | 0 <= i < |rest|
        ensures rest[i].questionDomain != ds[0].questionDomain
      {
        assert rest[i] in multiset(rest);
        var p :| 0 <= p < |tail| && tail[p] == rest[i];
        assert ds[p + 1] == rest[i];
      }
      InsertByNameDistinct(ds[0], rest);
    }
  }

  /** A session's domains in insertion order (`list(session.domains.values())`). */
  function DomainList(st: DomainState): (r: seq<Domain>)
    requires IsDict(st)
  {
    seq(|st.order|, i requires 0 <= i < |st.order| => st.domains[st.order[i]])
  }

  /** The domains a session's rows list: every domain of the session once,
      names strictly increasing, each the session's own Domain for its name. */
  lemma SortedSessionDomains(st: DomainState)
    requires WellFormed(st)
    ensures var r := SortByName(DomainList(st));
      && |r| == |st.domains|
      && (forall i, j :: 0 <= i < j < |r| ==> Less(r[i].questionDomain, r[j].questionDomain))
      && (forall i :: 0 <= i < |r| ==> r[i].questionDomain in st.domains && r[i] == st.domains[r[i].questionDomain])
      && (forall d :: d in st.domains ==> exists i :: 0 <= i < |r| && r[i].questionDomain == d)
  {
    var ds := DomainList(st);
    var r := SortByName(ds);
    assert DistinctNames(ds);
    SortByNameCount(ds);
    SortByNameSorted(ds);
    SortByNameDistinct(ds);
    StrictlySorted(r);
    SameDomains(st, r);
    DistinctSize(st);
  }

  /** Sorted with distinct names is strictly increasing. */
  lemma StrictlySorted(r: seq<Domain>)
    requires SortedByName(r) && DistinctNames(r)
    ensures forall i, j :: 0 <= i < j < |r| ==> Less(r[i].questionDomain, r[j].questionDomain)
  {
  }

  /** A permutation of a session's domains holds each of them, and only them. */
  lemma SameDomains(st: DomainState, r: seq<Domain>)
    requires WellFormed(st) && multiset(r) == multiset(DomainList(st))
    ensures forall i :: 0 <= i < |r| ==> r[i].questionDomain in st.domains && r[i] == st.domains[r[i].questionDomain]
    ensures forall d :: d in st.domains ==> exists i :: 0 <= i < |r| && r[i].questionDomain == d
  {
    var ds := DomainList(st);
    forall i | 0 <= i < |r|
      ensures r[i].questionDomain in st.domains && r[i] == st.domains[r[i].questionDomain]
    {
      assert r[i] in multiset(ds);
      var p :| 0 <= p < |ds| && ds[p] == r[i];
    }
    forall d | d in st.domains
      ensures exists i :: 0 <= i < |r| && r[i].questionDomain == d
    {
      var p :| 0 <= p < |st.order| && st.order[p] == d;
      assert ds[p] in multiset(r);
      var i :| 0 <= i < |r| && r[i] == ds[p];
    }
  }

  /** A well-formed state has as many map keys as listed keys. */
  lemma DistinctSize(st: DomainState)
    requires WellFormed(st)
    ensures |st.domains| == |st.order|
  {
    FirstSeenOfDistinct(st.order);
    FirstSeenCount(st.order);
    assert st.domains.Keys == set x | x in st.order;
  }

  // ---------------------------------------------------------------------
  // One data row
  // ---------------------------------------------------------------------

  /** The cells `pad_row` appends: a None per missing cell, none when the
      actual length already reaches the maximum. */
  function Padding(actual: int, max: int): (r: seq<Cell>)
    ensures |r| == RangeLen(max - actual)
    ensures forall i :: 0 <= i < |r| ==> r[i] == None
  {
    if actual >= max then [] else seq(max - actual, _ => None)
  }

  /** One name cell per domain. */
  function NameCells(domains: seq<Domain>): seq<Cell> {
    seq(|domains|, i requires 0 <= i < |domains| => Some(domains[i].questionDomain))
  }

  /** One raw-score cell per domain the student has an entry in; a domain
      without an entry adds no cell. */
  function ScoreCells(domains: seq<Domain>, g: string): seq<Cell> {
    if domains == [] then []
    else
      var last := domains[|domains| - 1];
      ScoreCells(domains[..|domains| - 1], g)
        + (if g in last.domainStudents then [Some(IntToString(last.domainStudents[g].domainRawScore))] else [])
  }

  /** The domains, in order, that hold an entry for student `g`. */
  function WithEntry(domains: seq<Domain>, g: string): seq<Domain> {
    if domains == [] then []
    else
      var last := domains[|domains| - 1];
      WithEntry(domains[..|domains| - 1], g) + (if g in last.domainStudents then [last] else [])
  }

  predicate IsResponseColumn(c: Column) {
    c.TimeSpentOnItem? || c.ResponseValue? || c.ResponseRawScore?
  }

  function ResponseField(r: Response, c: Column): int
    requires IsResponseColumn(c)
  {
    if c.TimeSpentOnItem? then r.record.timeSpentOnItem
    else if c.ResponseValue? then r.record.responseValue
    else r.record.responseRawScore
  }

  /** One cell per response of `responses[:maxQuestions]`. */
  function ResponseCells(responses: seq<Response>, c: Column, maxQuestions: int): seq<Cell>
    requires IsResponseColumn(c)
  {
    var shown := SliceLen(|responses|, maxQuestions);
    seq(shown, i requires 0 <= i < shown => Some(IntToString(ResponseField(responses[i], c))))
  }

  predicate IsAssessmentField(c: Column) {
    c.TestDate? || c.Subject? || c.AssessmentGuid? || c.CalculatedRawScore?
      || c.ScaledScoreBasedOnCalculated? || c.TotalTimeSpentOnTest?
  }

  /** `str(getattr(assessment, column.value))`. */
  function AssessmentAttribute(a: Assessment, c: Column): string
    requires IsAssessmentField(c)
  {
    if c.TestDate? then a.testDate
    else if c.Subject? then a.subject
    else if c.AssessmentGuid? then a.assessmentGuid
    else if c.CalculatedRawScore? then IntToString(a.calculatedRawScore)
    else if c.ScaledScoreBasedOnCalculated? then IntToString(a.scaledScoreBasedOnCalculated)
    else IntToString(a.totalTimeSpentOnTest)
  }

  /** The cells one column contributes to the row of (student, assessment). */
  function ColumnCells(c: Column, sessionId: string, student: Student, a: Assessment,
                       domains: seq<Domain>, maxDomains: int, maxQuestions: int): seq<Cell>
  {
    if c.SessionId? then [Some(sessionId)]
    else if c.StudentGuid? then [Some(student.studentGuid)]
    else if c.QuestionDomain? then NameCells(domains) + Padding(|domains|, maxDomains)
    else if c.DomainRawScore? then ScoreCells(domains, student.studentGuid) + Padding(|domains|, maxDomains)
    else if IsResponseColumn(c) then ResponseCells(a.responses, c, maxQuestions) + Padding(|a.responses|, maxQuestions)
    else [Some(AssessmentAttribute(a, c))]
  }

  /** The cells of each column, in column order. */
  function RowGroups(sessionId: string, student: Student, a: Assessment,
                     domains: seq<Domain>, maxDomains: int, maxQuestions: int): seq<seq<Cell>>
  {
    seq(|Columns()|, i requires 0 <= i < |Columns()| =>
      ColumnCells(Columns()[i], sessionId, student, a, domains, maxDomains, maxQuestions))
  }

  /** The row of one (student, assessment) pair of a session whose sorted
      domains are `domains`. */
  function ProjectRow(sessionId: string, student: Student, a: Assessment,
                      domains: seq<Domain>, maxDomains: int, maxQuestions: int): seq<Cell>
  {
    Concat(RowGroups(sessionId, student, a, domains, maxDomains, maxQuestions))
  }

  /** The row is the cells of each column in `OutputColums` order. */
  lemma ProjectRowIs(sessionId: string, student: Student, a: Assessment,
                     domains: seq<Domain>, maxDomains: int, maxQuestions: int)
    ensures ProjectRow(sessionId, student, a, domains, maxDomains, maxQuestions) ==
      ColumnCells(SessionId, sessionId, student, a, domains, maxDomains, maxQuestions)
      + (ColumnCells(TestDate, sessionId, student, a, domains, maxDomains, maxQuestions)
      + (ColumnCells(StudentGuid, sessionId, student, a, domains, maxDomains, maxQuestions)
      + (ColumnCells(Subject, sessionId, student, a, domains, maxDomains, maxQuestions)
      + (ColumnCells(AssessmentGuid, sessionId, student, a, domains, maxDomains, maxQuestions)
      + (ColumnCells(CalculatedRawScore, sessionId, student, a, domains, maxDomains, maxQuestions)
      + (ColumnCells(ScaledScoreBasedOnCalculated, sessionId, student, a, domains, maxDomains, maxQuestions)
      + (ColumnCells(QuestionDomain, sessionId, student, a, domains, maxDomains, maxQuestions)
      + (ColumnCells(DomainRawScore, sessionId, student, a, domains, maxDomains, maxQuestions)
      + (ColumnCells(TotalTimeSpentOnTest, sessionId, student, a, domains, maxDomains, maxQuestions)
      + (ColumnCells(TimeSpentOnItem, sessionId, student, a, domains, maxDomains, maxQuestions)
      + (ColumnCells(ResponseValue, sessionId, student, a, domains, maxDomains, maxQuestions)
      + ColumnCells(ResponseRawScore, sessionId, student, a, domains, maxDomains, maxQuestions))))))))))))
  {
    Concat13(RowGroups(sessionId, student, a, domains, maxDomains, maxQuestions));
    ColumnsAt();
  }

  /** An assessment column holds the one attribute of the assessment it names. */
  lemma AttributeCells(c: Column, sessionId: string, student: Student, a: Assessment,
                       domains: seq<Domain>, maxDomains: int, maxQuestions: int)
    requires IsAssessmentField(c)
    ensures ColumnCells(c, sessionId, student, a, domains, maxDomains, maxQuestions) == [Some(AssessmentAttribute(a, c))]
    ensures c.TestDate? ==> AssessmentAttribute(a, c) == a.testDate
    ensures c.Subject? ==> AssessmentAttribute(a, c) == a.subject
    ensures c.AssessmentGuid? ==> AssessmentAttribute(a, c) == a.assessmentGuid
    ensures c.CalculatedRawScore? ==> AssessmentAttribute(a, c) == IntToString(a.calculatedRawScore)
    ensures c.ScaledScoreBasedOnCalculated? ==> AssessmentAttribute(a, c) == IntToString(a.scaledScoreBasedOnCalculated)
    ensures c.TotalTimeSpentOnTest? ==> AssessmentAttribute(a, c) == IntToString(a.totalTimeSpentOnTest)
  {
  }

  /** `WithEntry` keeps exactly the domains holding an entry for the
      student. */
  lemma {:induction false} WithEntryMembers(domains: seq<Domain>, g: string)
    ensures forall x :: x in WithEntry(domains, g) <==> x in domains && g in x.domainStudents
  {
    if domains != [] {
      var p := domains[..|domains| - 1];
      WithEntryMembers(p, g);
      assert domains == p + [domains[|domains| - 1]];
    }
  }

  /** `WithEntry` is never longer than its input, and is shorter when some
      domain holds no entry for the student. */
  lemma {:induction false} WithEntryShorter(domains: seq<Domain>, g: string)
    ensures |WithEntry(domains, g)| <= |domains|
    ensures (exists i :: 0 <= i < |domains| && g !in domains[i].domainStudents) ==> |WithEntry(domains, g)| < |domains|
  {
    if domains != [] {
      var p := domains[..|domains| - 1];
      WithEntryShorter(p, g);
      if exists i :: 0 <= i < |domains| && g !in domains[i].domainStudents {
        var i :| 0 <= i < |domains| && g !in domains[i].domainStudents;
        if i < |p| {
          assert g !in p[i].domainStudents;
        }
      }
    }
  }

  /** `WithEntry` keeps every domain when every domain holds an entry for
      the student. */
  lemma {:induction false} WithEntryKeepsAll(domains: seq<Domain>, g: string)
    requires forall i :: 0 <= i < |domains| ==> g in domains[i].domainStudents
    ensures WithEntry(domains, g) == domains
  {
    if domains != [] {
      var p := domains[..|domains| - 1];
      WithEntryKeepsAll(p, g);
      assert domains == p + [domains[|domains| - 1]];
    }
  }

  /** `WithEntry` is as long as its input exactly when every domain holds
      an entry for the student. */
  lemma WithEntryAll(domains: seq<Domain>, g: string)
    ensures |WithEntry(domains, g)| <= |domains|
    ensures |WithEntry(domains, g)| == |domains| <==> forall i :: 0 <= i < |domains| ==> g in domains[i].domainStudents
  {
    WithEntryShorter(domains, g);
    if forall i :: 0 <= i < |domains| ==> g in domains[i].domainStudents {
      WithEntryKeepsAll(domains, g);
    }
  }

  /** The raw-score cells are the decimal raw scores of the domains holding
      an entry for the student, in domain order: a domain without an entry
      adds no cell, so the scores after it move one cell to the left. */
  lemma {:induction false} ScoreCellsWithEntry(domains: seq<Domain>, g: string)
    ensures |ScoreCells(domains, g)| == |WithEntry(domains, g)|
    ensures forall j :: 0 <= j < |WithEntry(domains, g)| ==>
      g in WithEntry(domains, g)[j].domainStudents &&
      ScoreCells(domains, g)[j] == Some(IntToString(WithEntry(domains, g)[j].domainStudents[g].domainRawScore))
  {
    if domains != [] {
      ScoreCellsWithEntry(domains[..|domains| - 1], g);
    }
  }

  /** The raw-score cells number at most the domains, and exactly as many
      as the domains when the student has an entry in every one. */
  lemma ScoreCellsCount(domains: seq<Domain>, g: string)
    ensures |ScoreCells(domains, g)| <= |domains|
    ensures |ScoreCells(domains, g)| == |domains| <==> forall i :: 0 <= i < |domains| ==> g in domains[i].domainStudents
  {
    ScoreCellsWithEntry(domains, g);
    WithEntryAll(domains, g);
  }

  /** When the student has an entry in every domain, cell i of the
      raw-score group is domain i's raw score. */
  lemma ScoreCellsContents(domains: seq<Domain>, g: string)
    requires forall i :: 0 <= i < |domains| ==> g in domains[i].domainStudents
    ensures |ScoreCells(domains, g)| == |domains|
    ensures forall i :: 0 <= i < |domains| ==>
      ScoreCells(domains, g)[i] == Some(IntToString(domains[i].domainStudents[g].domainRawScore))
  {
    WithEntryKeepsAll(domains, g);
    ScoreCellsWithEntry(domains, g);
  }

  /** How many cells each column adds to a row: one for a plain column,
      max(k, D) domain names, m + max(0, D - k) raw scores (k domains, m of
      them with an entry for the student), and for each per-question column
      the responses kept by `[:Q]` plus padding up to Q (exactly Q when
      Q >= 0). */
  lemma ColumnWidth(c: Column, sessionId: string, student: Student, a: Assessment,
                    domains: seq<Domain>, maxDomains: int, maxQuestions: int)
    ensures var w, k, m, d := |ColumnCells(c, sessionId, student, a, domains, maxDomains, maxQuestions)|,
                             |domains|, |WithEntry(domains, student.studentGuid)|, RangeLen(maxDomains);
      && (!IsRepeated(c) ==> w == 1)
      && (c.QuestionDomain? ==> w == if k < d then d else k)
      && (c.DomainRawScore? ==> w == m + RangeLen(maxDomains - k))
      && (IsResponseColumn(c) ==>
            w == SliceLen(|a.responses|, maxQuestions) + RangeLen(maxQuestions - |a.responses|)
            && (maxQuestions >= 0 ==> w == maxQuestions))
  {
    ScoreCellsWithEntry(domains, student.studentGuid);
  }

  /** The domain-name group: every domain's name in the order given (no
      truncation to D), then None cells up to D, max(k, D) cells in all. */
  lemma NameGroup(sessionId: string, student: Student, a: Assessment,
                  domains: seq<Domain>, maxDomains: int, maxQuestions: int)
    ensures var cells, k := ColumnCells(QuestionDomain, sessionId, student, a, domains, maxDomains, maxQuestions), |domains|;
      && |cells| == (if k < RangeLen(maxDomains) then RangeLen(maxDomains) else k)
      && (forall i :: 0 <= i < k ==> cells[i] == Some(domains[i].questionDomain))
      && (forall i :: k <= i < |cells| ==> cells[i] == None)
  {
    var cells := ColumnCells(QuestionDomain, sessionId, student, a, domains, maxDomains, maxQuestions);
    assert cells == NameCells(domains) + Padding(|domains|, maxDomains);
  }

  /** How many cells each column adds to the header: one for a plain
      column, D for each domain column, Q for each per-question column. */
  lemma HeaderWidth(c: Column, maxDomains: int, maxQuestions: int)
    ensures var w := |HeaderGroup(c, maxDomains, maxQuestions)|;
      && (!IsRepeated(c) ==> w == 1)
      && (c.QuestionDomain? || c.DomainRawScore? ==> w == RangeLen(maxDomains))
      && (IsResponseColumn(c) ==> w == RangeLen(maxQuestions))
  {
  }

  /** The length of a row: 8 cells for the plain columns plus the widths of
      the domain and per-question groups. */
  lemma RowShape(sessionId: string, student: Student, a: Assessment,
                 domains: seq<Domain>, maxDomains: int, maxQuestions: int)
    requires maxQuestions >= 0
    ensures var k, m, d := |domains|, |WithEntry(domains, student.studentGuid)|, RangeLen(maxDomains);
      |ProjectRow(sessionId, student, a, domains, maxDomains, maxQuestions)| == 8 + (if k < d then d else k) + m + RangeLen(maxDomains - k) + 3 * maxQuestions
  {
    ProjectRowIs(sessionId, student, a, domains, maxDomains, maxQuestions);
    PlainWidths(sessionId, student, a, domains, maxDomains, maxQuestions);
    ColumnWidth(QuestionDomain, sessionId, student, a, domains, maxDomains, maxQuestions);
    ColumnWidth(DomainRawScore, sessionId, student, a, domains, maxDomains, maxQuestions);
    ColumnWidth(TimeSpentOnItem, sessionId, student, a, domains, maxDomains, maxQuestions);
    ColumnWidth(ResponseValue, sessionId, student, a, domains, maxDomains, maxQuestions);
    ColumnWidth(ResponseRawScore, sessionId, student, a, domains, maxDomains, maxQuestions);
  }

  lemma PlainWidths(sessionId: string, student: Student, a: Assessment,
                    domains: seq<Domain>, maxDomains: int, maxQuestions: int)
    ensures |ColumnCells(SessionId, sessionId, student, a, domains, maxDomains, maxQuestions)| == 1
    ensures |ColumnCells(TestDate, sessionId, student, a, domains, maxDomains, maxQuestions)| == 1
    ensures |ColumnCells(StudentGuid, sessionId, student, a, domains, maxDomains, maxQuestions)| == 1
    ensures |ColumnCells(Subject, sessionId, student, a, domains, maxDomains, maxQuestions)| == 1
    ensures |ColumnCells(AssessmentGuid, sessionId, student, a, domains, maxDomains, maxQuestions)| == 1
    ensures |ColumnCells(CalculatedRawScore, sessionId, student, a, domains, maxDomains, maxQuestions)| == 1
    ensures |ColumnCells(ScaledScoreBasedOnCalculated, sessionId, student, a, domains, maxDomains, maxQuestions)| == 1
    ensures |ColumnCells(TotalTimeSpentOnTest, sessionId, student, a, domains, maxDomains, maxQuestions)| == 1
  {
  }

  /** The cells of a per-question group: the column's value for question
      i + 1 among the first Q responses, then None up to Q. */
  lemma ResponseGroups(a: Assessment, c: Column, maxQuestions: int)
    requires IsResponseColumn(c) && maxQuestions >= 0
    ensures var cells := ResponseCells(a.responses, c, maxQuestions) + Padding(|a.responses|, maxQuestions);
      && |cells| == maxQuestions
      && (forall i :: 0 <= i < maxQuestions && i < |a.responses| ==>
            cells[i] == Some(IntToString(ResponseField(a.responses[i], c))))
      && (forall i :: |a.responses| <= i < maxQuestions ==> cells[i] == None)
  {
  }

  /** Every column adds as many cells to a row as to the header exactly
      when the session has at most D domains and the student has an entry
      in every one of them. */
  lemma GroupsAligned(sessionId: string, student: Student, a: Assessment,
                      domains: seq<Domain>, maxDomains: int, maxQuestions: int)
    requires maxQuestions >= 0
    ensures (forall c: Column :: |ColumnCells(c, sessionId, student, a, domains, maxDomains, maxQuestions)| == |HeaderGroup(c, maxDomains, maxQuestions)|)
      <==> |domains| <= RangeLen(maxDomains) &&
           forall i :: 0 <= i < |domains| ==> student.studentGuid in domains[i].domainStudents
  {
    var g := student.studentGuid;
    ScoreCellsCount(domains, g);
    ColumnWidth(QuestionDomain, sessionId, student, a, domains, maxDomains, maxQuestions);
    ColumnWidth(DomainRawScore, sessionId, student, a, domains, maxDomains, maxQuestions);
    HeaderWidth(QuestionDomain, maxDomains, maxQuestions);
    HeaderWidth(DomainRawScore, maxDomains, maxQuestions);
    if |domains| <= RangeLen(maxDomains) && forall i :: 0 <= i < |domains| ==> g in domains[i].domainStudents {
      forall c: Column
        ensures |ColumnCells(c, sessionId, student, a, domains, maxDomains, maxQuestions)| == |HeaderGroup(c, maxDomains, maxQuestions)|
      {
        ColumnWidth(c, sessionId, student, a, domains, maxDomains, maxQuestions);
        HeaderWidth(c, maxDomains, maxQuestions);
      }
    }
  }

  /** A row has as many cells as the header exactly when k <= D and the
      student has an entry in every domain, or k > D and the surplus names
      are made up for by missing raw scores (k + m == 2D). */
  lemma RowMatchesHeaderLength(sessionId: string, student: Student, a: Assessment,
                               domains: seq<Domain>, maxDomains: int, maxQuestions: int)
    requires maxQuestions >= 0
    ensures var k, m, d := |domains|, |WithEntry(domains, student.studentGuid)|, RangeLen(maxDomains);
      |ProjectRow(sessionId, student, a, domains, maxDomains, maxQuestions)| == |HeaderRow(maxDomains, maxQuestions)|
      <==> (k <= d && m == k) || (k > d && k + m == 2 * d)
  {
    RowShape(sessionId, student, a, domains, maxDomains, maxQuestions);
    HeaderLayout(maxDomains, maxQuestions);
    WithEntryAll(domains, student.studentGuid);
  }

  // ---------------------------------------------------------------------
  // All rows of a session and of a worksheet
  // ---------------------------------------------------------------------

  /** The rows of one student: one per assessment, in order. */
  function StudentRows(sessionId: string, student: Student, domains: seq<Domain>,
                       maxDomains: int, maxQuestions: int): seq<seq<Cell>>
  {
    seq(|student.assessments|, j requires 0 <= j < |student.assessments| =>
      ProjectRow(sessionId, student, student.assessments[j], domains, maxDomains, maxQuestions))
  }

  /** The rows of a session's students, student after student. */
  function SessionRows(sessionId: string, students: seq<Student>, domains: seq<Domain>,
                       maxDomains: int, maxQuestions: int): seq<seq<Cell>>
  {
    if students == [] then []
    else
      SessionRows(sessionId, students[..|students| - 1], domains, maxDomains, maxQuestions)
        + StudentRows(sessionId, students[|students| - 1], domains, maxDomains, maxQuestions)
  }

  /** A session has one row per assessment of each of its students. */
  lemma {:induction false} SessionRowsCount(sessionId: string, students: seq<Student>, domains: seq<Domain>,
                                            maxDomains: int, maxQuestions: int)
    ensures |SessionRows(sessionId, students, domains, maxDomains, maxQuestions)| == StudentTotal(students)
  {
    if students != [] {
      var n := |students| - 1;
      SessionRowsCount(sessionId, students[..n], domains, maxDomains, maxQuestions);
      assert AssessmentCounts(students) == AssessmentCounts(students[..n]) + [|students[n].assessments|];
      SumSnoc(AssessmentCounts(students[..n]), |students[n].assessments|);
    }
  }

  /** Every row of a session is the row of one of its students' assessments. */
  lemma {:induction false} SessionRowsFrom(sessionId: string, students: seq<Student>, domains: seq<Domain>,
                                           maxDomains: int, maxQuestions: int, row: seq<Cell>)
    requires row in SessionRows(sessionId, students, domains, maxDomains, maxQuestions)
    ensures exists i, j ::
              && 0 <= i < |students| && 0 <= j < |students[i].assessments|
              && row == ProjectRow(sessionId, students[i], students[i].assessments[j], domains, maxDomains, maxQuestions)
  {
    var n := |students| - 1;
    var rows := StudentRows(sessionId, students[n], domains, maxDomains, maxQuestions);
    if row in rows {
      var j :| 0 <= j < |rows| && rows[j] == row;
      assert row == ProjectRow(sessionId, students[n], students[n].assessments[j], domains, maxDomains, maxQuestions);
    } else {
      SessionRowsFrom(sessionId, students[..n], domains, maxDomains, maxQuestions, row);
      var i, j :| 0 <= i < n && 0 <= j < |students[..n][i].assessments| &&
        row == ProjectRow(sessionId, students[..n][i], students[..n][i].assessments[j], domains, maxDomains, maxQuestions);
      assert students[..n][i] == students[i];
    }
  }

  /** The domains a session built from `students` lists, sorted by name. */
  function SortedDomainsOf(students: seq<Student>): seq<Domain> {
    var st := Populate(NoDomains, Visits(students));
    PopulateWellFormed(NoDomains, Visits(students));
    SortByName(DomainList(st))
  }

  /** The rows `build_flattened_csv` writes after the header: the rows of
      every session of the worksheet, session after session. */
  function WorksheetRows(sessions: seq<SessionTree>, maxDomains: int, maxQuestions: int): seq<seq<Cell>> {
    if sessions == [] then []
    else
      var last := sessions[|sessions| - 1];
      WorksheetRows(sessions[..|sessions| - 1], maxDomains, maxQuestions)
        + SessionRows(last.sessionId, last.students, SortedDomainsOf(last.students), maxDomains, maxQuestions)
  }

  /** One output row per distinct (session, student, assessment) of the
      input responses. */
  lemma {:induction false} WorksheetRowsCount(sessions: seq<SessionTree>, maxDomains: int, maxQuestions: int)
    ensures |WorksheetRows(sessions, maxDomains, maxQuestions)| == SessionTotal(sessions)
  {
    if sessions != [] {
      var n := |sessions| - 1;
      var last := sessions[n];
      var rows := SessionRows(last.sessionId, last.students, SortedDomainsOf(last.students), maxDomains, maxQuestions);
      assert WorksheetRows(sessions, maxDomains, maxQuestions) == WorksheetRows(sessions[..n], maxDomains, maxQuestions) + rows;
      WorksheetRowsCount(sessions[..n], maxDomains, maxQuestions);
      SessionRowsCount(last.sessionId, last.students, SortedDomainsOf(last.students), maxDomains, maxQuestions);
      SessionCountsSnoc(sessions);
    }
  }

  lemma SessionCountsSnoc(sessions: seq<SessionTree>)
    requires sessions != []
    ensures var n := |sessions| - 1;
      SessionTotal(sessions) == SessionTotal(sessions[..n]) + StudentTotal(sessions[n].students)
  {
    var n := |sessions| - 1;
    assert SessionCounts(sessions) == SessionCounts(sessions[..n]) + [StudentTotal(sessions[n].students)];
    SumSnoc(SessionCounts(sessions[..n]), StudentTotal(sessions[n].students));
  }
}
