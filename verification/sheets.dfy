/** The ledger row builder (src/sheets.py): period text, the next per-date
    sequence number of a ledger snapshot, and the positional packing of
    grade-1 and grade-2 records into ten-column rows. */
module Sheets {
  import opened Wrappers
  import opened Digits
  import opened Scraper
  import opened Seqs

  // ---------------------------------------------------------------------
  // format_periods
  // ---------------------------------------------------------------------

  /** `",".join(str(p) for p in periods)` for a non-empty list. */
  function JoinNumbers(periods: seq<nat>): (s: string)
    requires |periods| > 0
    ensures |s| > 0 && IsDigit(s[0])
    ensures forall i | 0 <= i < |s| :: IsDigit(s[i]) || s[i] == ','
  {
    if |periods| == 1 then NatToString(periods[0])
    else NatToString(periods[0]) + "," + JoinNumbers(periods[1..])
  }

  /** `format_periods`: the periods as "1,2교시", or "" when there are none. */
  function FormatPeriods(periods: seq<nat>): (text: string)
    ensures |text| == 0 <==> |periods| == 0
  {
    if |periods| == 0 then "" else JoinNumbers(periods) + PeriodUnit
  }

  /** Reading the digit runs of a joined list gives the list back. */
  lemma {:induction false} DigitRunsJoin(periods: seq<nat>, t: string)
    requires |periods| > 0
    requires |t| == 0 || !IsDigit(t[0])
    ensures DigitRuns(JoinNumbers(periods) + t) == periods + DigitRuns(t)
  {
    var d := NatToString(periods[0]);
    if |periods| == 1 {
      DigitRunsCons(d, t);
    } else {
      var rest := JoinNumbers(periods[1..]);
      JoinUnfold(periods, t);
      DigitRunsComma(d, rest + t);
      DigitRunsJoin(periods[1..], t);
      HeadTail(periods, DigitRuns(t));
    }
  }

  lemma JoinUnfold(periods: seq<nat>, t: string)
    requires |periods| > 1
    ensures JoinNumbers(periods) + t == NatToString(periods[0]) + ("," + (JoinNumbers(periods[1..]) + t))
  {
    var a, b := NatToString(periods[0]), JoinNumbers(periods[1..]);
    ConcatAssoc(a, ",", b);
    ConcatAssoc(a, "," + b, t);
    ConcatAssoc(",", b, t);
  }

  /** A digit string followed by a comma contributes exactly its value. */
  lemma DigitRunsComma(d: string, t: string)
    requires |d| > 0 && AllDigits(d)
    ensures DigitRuns(d + ("," + t)) == [Value(d)] + DigitRuns(t)
  {
    DigitRunsCons(d, "," + t);
    DigitRunsSkip(",", t);
  }

  /** `parse_periods` reads back what `format_periods` writes. */
  lemma FormatParseRoundTrip(periods: seq<nat>)
    ensures ParsePeriods(FormatPeriods(periods)) == periods
  {
    if |periods| > 0 {
      var j := JoinNumbers(periods);
      BeforeFirstOf(j, PeriodUnit, "");
      assert j + PeriodUnit + "" == FormatPeriods(periods);
      DigitRunsJoin(periods, "");
      assert j + "" == j;
    }
  }

  /** The number-list scan of a joined list covers exactly the list. */
  lemma {:induction false} NumberListJoin(periods: seq<nat>, t: string)
    requires |periods| > 0
    requires |t| == 0 || (!IsDigit(t[0]) && t[0] != ',')
    ensures NumberListLength(JoinNumbers(periods) + t) == |JoinNumbers(periods)|
  {
    var d := NatToString(periods[0]);
    if |periods| == 1 {
      DigitRunOf(d, t);
    } else {
      var rest := JoinNumbers(periods[1..]);
      JoinUnfold(periods, t);
      NumberListStep(d, rest + t);
      NumberListJoin(periods[1..], t);
    }
  }

  /** A digit string and a comma before another number extend the list. */
  lemma NumberListStep(d: string, u: string)
    requires |d| > 0 && AllDigits(d)
    requires |u| > 0 && IsDigit(u[0])
    ensures NumberListLength(d + ("," + u)) == |d| + 1 + NumberListLength(u)
  {
    var s := d + ("," + u);
    DigitRunOf(d, "," + u);
    assert s[|d|] == ',' && s[|d| + 1] == u[0];
    assert s[|d| + 1..] == u;
  }

  /** `parse_period_from_course` reads back a clause written by
      `format_periods` and closed with `]`, when the text before it holds no
      `]` and does not end in a digit or a comma. */
  lemma CourseClauseRoundTrip(pre: string, periods: seq<nat>, post: string)
    requires |periods| > 0
    requires ClauseFree(pre)
    ensures ParsePeriodFromCourse(pre + FormatPeriods(periods) + "]" + post) == periods
  {
    var t := JoinNumbers(periods) + (PeriodUnit + "]" + post);
    assert pre + FormatPeriods(periods) + "]" + post == pre + t;
    ClauseFreeSkip(pre, t);
    JoinedClause(periods, post);
    ClauseAtFront(t);
  }

  /** A shared-course descriptor whose prefix holds a grade digit: the
      clause after it is still the one read. */
  lemma SharedCourseClause()
    ensures ParsePeriodFromCourse("[2학년 국제교육부 수목 1,2교시]") == [1, 2]
  {
    var pre := "[2학년 국제교육부 수목 ";
    assert FormatPeriods([1, 2]) == "1,2교시";
    assert pre + FormatPeriods([1, 2]) + "]" + "" == "[2학년 국제교육부 수목 1,2교시]";
    CourseClauseRoundTrip(pre, [1, 2], "");
  }

  /** A joined list closed by "교시]" is a clause holding that list. */
  lemma JoinedClause(periods: seq<nat>, post: string)
    requires |periods| > 0
    ensures PeriodClauseAt(JoinNumbers(periods) + (PeriodUnit + "]" + post)) == Some(periods)
  {
    var j := JoinNumbers(periods);
    var t := j + (PeriodUnit + "]" + post);
    var close := PeriodUnit + "]";
    assert t[0] == j[0];
    NumberListJoin(periods, close + post);
    assert t[|j|..] == close + post;
    assert (close + post)[..|close|] == close;
    assert t[..|j|] == j;
    DigitRunsJoin(periods, "");
    AppendEmpty(j);
    AppendEmpty(periods);
  }

  /** A clause at the very start is the one `re.search` finds. */
  lemma ClauseAtFront(t: string)
    requires PeriodClauseAt(t).Some?
    ensures FindPeriodClause(t) == PeriodClauseAt(t)
  {
  }

  // ---------------------------------------------------------------------
  // get_next_row_number
  // ---------------------------------------------------------------------

  /** The sequence number a ledger row contributes for `date`: column B when
      the row has at least two cells, column A is `date` and B is an integer. */
  function SequenceOf(row: seq<string>, date: string): Option<nat> {
    if |row| >= 2 && row[0] == date then ParseNat(row[1]) else None
  }

  /** The largest sequence number of `date` among `rows`, or 0. */
  function MaxSequence(rows: seq<seq<string>>, date: string): (m: nat)
    ensures forall i | 0 <= i < |rows| && SequenceOf(rows[i], date).Some? :: SequenceOf(rows[i], date).value <= m
    ensures m == 0 || exists i | 0 <= i < |rows| :: SequenceOf(rows[i], date) == Some(m)
  {
    if |rows| == 0 then 0
    else
      var rest := MaxSequence(rows[1..], date);
      var here := SequenceOf(rows[0], date).GetOr(0);
      assert forall i | 1 <= i < |rows| :: rows[i] == rows[1..][i - 1];
      if here > rest then here else rest
  }

  /** `get_next_row_number` over a snapshot whose first row is the header:
      one more than the largest sequence number already used for `date`. */
  function NextRowNumber(snapshot: seq<seq<string>>, date: string): (n: nat)
    ensures n >= 1
    ensures forall i | 1 <= i < |snapshot| && SequenceOf(snapshot[i], date).Some? ::
      SequenceOf(snapshot[i], date).value < n
    ensures n == 1 || exists i | 1 <= i < |snapshot| :: SequenceOf(snapshot[i], date) == Some(n - 1)
  {
    var body := if |snapshot| == 0 then [] else snapshot[1..];
    assert forall i | 1 <= i < |snapshot| :: snapshot[i] == body[i - 1];
    MaxSequence(body, date) + 1
  }

  // ---------------------------------------------------------------------
  // write_absence_records: grade split and row construction
  // ---------------------------------------------------------------------

  function Max(a: nat, b: nat): nat {
    if a < b then b else a
  }

  /** The records of one grade, in input order. */
  function GradeRecords(records: seq<AbsenceRecord>, grade: nat): (r: seq<AbsenceRecord>)
    ensures |r| <= |records|
    ensures forall k | 0 <= k < |r| :: r[k].grade == grade
    ensures forall x :: x in r <==> x in records && x.grade == grade
  {
    if |records| == 0 then []
    else (if records[0].grade == grade then [records[0]] else []) + GradeRecords(records[1..], grade)
  }

  /** The split keeps input order: it distributes over concatenation. */
  lemma {:induction false} GradeRecordsAppend(a: seq<AbsenceRecord>, b: seq<AbsenceRecord>, grade: nat)
    ensures GradeRecords(a + b, grade) == GradeRecords(a, grade) + GradeRecords(b, grade)
  {
    if |a| == 0 {
      assert a + b == b;
    } else {
      assert (a + b)[0] == a[0];
      assert (a + b)[1..] == a[1..] + b;
      GradeRecordsAppend(a[1..], b, grade);
    }
  }

  /** `data.get(id, {}).get("type", "")`: the boarding type from a student
      table, or "" when the id or its type is missing. */
  function TypeOf(data: map<string, map<string, string>>, id: string): string {
    if id in data && "type" in data[id] then data[id]["type"] else ""
  }

  /** The four cells of one track (C-F or G-J) of row `i`: id, name, type and
      period text of the `i`-th record of that grade, or blanks past its end. */
  function TrackCells(records: seq<AbsenceRecord>, i: nat, data: map<string, map<string, string>>): (cells: seq<string>)
    ensures |cells| == 4
  {
    if i < |records| then
      [records[i].studentId, records[i].name, TypeOf(data, records[i].studentId), FormatPeriods(records[i].periods)]
    else ["", "", "", ""]
  }

  /** Row `i` holds, in columns `col`..`col`+3, the `i`-th record of `records`
      (looked up in `data`) when there is one, and blanks otherwise. */
  predicate HoldsTrack(row: seq<string>, col: nat, records: seq<AbsenceRecord>, i: nat, data: map<string, map<string, string>>) {
    && col + 4 <= |row|
    && (i < |records| ==>
          && row[col] == records[i].studentId
          && row[col + 1] == records[i].name
          && row[col + 2] == TypeOf(data, records[i].studentId)
          && row[col + 3] == FormatPeriods(records[i].periods))
    && (i >= |records| ==> row[col] == row[col + 1] == row[col + 2] == row[col + 3] == "")
  }

  /** `max(len(grade1), len(grade2))` rows: date, sequence number, then the
      two tracks packed by position. */
  function PackRows(date: string, next: nat, grade1: seq<AbsenceRecord>, grade2: seq<AbsenceRecord>,
                    grade1Data: map<string, map<string, string>>, grade2Data: map<string, map<string, string>>)
    : seq<seq<string>>
  {
    var n := Max(|grade1|, |grade2|);
    seq(n, i requires 0 <= i < n =>
      [date, NatToString(next + i)] + TrackCells(grade1, i, grade1Data) + TrackCells(grade2, i, grade2Data))
  }

  /** Every row has ten cells: column A the date, column B the sequence
      number `next + i`, then the two tracks packed by position. */
  predicate Packed(rows: seq<seq<string>>, date: string, next: nat,
                   grade1: seq<AbsenceRecord>, grade2: seq<AbsenceRecord>,
                   grade1Data: map<string, map<string, string>>, grade2Data: map<string, map<string, string>>) {
    forall i | 0 <= i < |rows| ::
      && |rows[i]| == 10
      && rows[i][0] == date
      && rows[i][1] == NatToString(next + i)
      && HoldsTrack(rows[i], 2, grade1, i, grade1Data)
      && HoldsTrack(rows[i], 6, grade2, i, grade2Data)
  }

  lemma PackRowsShape(date: string, next: nat, grade1: seq<AbsenceRecord>, grade2: seq<AbsenceRecord>,
                      grade1Data: map<string, map<string, string>>, grade2Data: map<string, map<string, string>>)
    ensures |PackRows(date, next, grade1, grade2, grade1Data, grade2Data)| == Max(|grade1|, |grade2|)
    ensures Packed(PackRows(date, next, grade1, grade2, grade1Data, grade2Data), date, next, grade1, grade2, grade1Data, grade2Data)
  {
    var rows := PackRows(date, next, grade1, grade2, grade1Data, grade2Data);
    forall i | 0 <= i < |rows|
      ensures |rows[i]| == 10 && rows[i][0] == date && rows[i][1] == NatToString(next + i)
      ensures HoldsTrack(rows[i], 2, grade1, i, grade1Data)
      ensures HoldsTrack(rows[i], 6, grade2, i, grade2Data)
    {
      var t1 := TrackCells(grade1, i, grade1Data);
      var t2 := TrackCells(grade2, i, grade2Data);
      assert rows[i] == [date, NatToString(next + i)] + t1 + t2;
      assert rows[i][2..6] == t1 && rows[i][6..10] == t2;
    }
  }

  /** The rows `write_absence_records` appends, and the count it returns. */
  datatype Written = Written(rows: seq<seq<string>>, count: nat)

  /** The pure part of `write_absence_records`: the rows appended to a ledger
      whose current content is `snapshot`, on `date`. */
  function WriteAbsenceRecords(records: seq<AbsenceRecord>, date: string, snapshot: seq<seq<string>>,
                               grade1Data: map<string, map<string, string>>,
                               grade2Data: map<string, map<string, string>>): (w: Written)
    ensures w.count == |w.rows|
    ensures w.count == Max(|GradeRecords(records, 1)|, |GradeRecords(records, 2)|)
    ensures w.count == 0 <==> forall x | x in records :: x.grade != 1 && x.grade != 2
    ensures Packed(w.rows, date, NextRowNumber(snapshot, date),
                   GradeRecords(records, 1), GradeRecords(records, 2), grade1Data, grade2Data)
  {
    if |records| == 0 then Written([], 0)
    else
      var grade1 := GradeRecords(records, 1);
      var grade2 := GradeRecords(records, 2);
      if Max(|grade1|, |grade2|) == 0 then
        assert forall x | x in records :: x !in grade1 && x !in grade2;
        Written([], 0)
      else
        assert grade1 != [] ==> grade1[0] in records;
        assert grade2 != [] ==> grade2[0] in records;
        var next := NextRowNumber(snapshot, date);
        PackRowsShape(date, next, grade1, grade2, grade1Data, grade2Data);
        var rows := PackRows(date, next, grade1, grade2, grade1Data, grade2Data);
        Written(rows, |rows|)
  }

  // ---------------------------------------------------------------------
  // Reading the ledger back
  // ---------------------------------------------------------------------

  /** What one row holds in the track starting at column `col`: a record
      of `grade` when its id cell is non-blank, nothing otherwise. */
  function ReadCells(row: seq<string>, col: nat, grade: nat): seq<AbsenceRecord> {
    if col + 4 <= |row| && |row[col]| > 0
    then [AbsenceRecord(row[col], row[col + 1], grade, ParsePeriods(row[col + 3]))]
    else []
  }

  /** The records one track of `rows` holds, top to bottom. */
  function ReadTrack(rows: seq<seq<string>>, col: nat, grade: nat): seq<AbsenceRecord> {
    if |rows| == 0 then []
    else ReadTrack(rows[..|rows| - 1], col, grade) + ReadCells(rows[|rows| - 1], col, grade)
  }

  /** A cell group written from a record reads back as that record. */
  lemma ReadCellsHeld(row: seq<string>, col: nat, grade: nat, records: seq<AbsenceRecord>, i: nat,
                      data: map<string, map<string, string>>)
    requires HoldsTrack(row, col, records, i, data)
    requires i < |records| ==> records[i].grade == grade && records[i].studentId != ""
    ensures ReadCells(row, col, grade) == if i < |records| then [records[i]] else []
  {
    if i < |records| {
      FormatParseRoundTrip(records[i].periods);
    }
  }

  /** A track filled by position is read back record by record. */
  lemma {:induction false} ReadTrackPacked(rows: seq<seq<string>>, col: nat, grade: nat,
                                           records: seq<AbsenceRecord>, data: map<string, map<string, string>>, k: nat)
    requires k <= |rows|
    requires forall i | 0 <= i < |rows| :: HoldsTrack(rows[i], col, records, i, data)
    requires forall i | 0 <= i < |records| :: records[i].grade == grade && records[i].studentId != ""
    ensures ReadTrack(rows[..k], col, grade) == records[..if k < |records| then k else |records|]
  {
    if k > 0 {
      ReadTrackPacked(rows, col, grade, records, data, k - 1);
      var m := if k - 1 < |records| then k - 1 else |records|;
      var before := records[..m];
      ReadTrackSnoc(rows, k, col, grade);
      ReadCellsHeld(rows[k - 1], col, grade, records, k - 1, data);
      if k - 1 < |records| {
        TakeSnoc(records, k);
      } else {
        AppendEmpty(before);
      }
    }
  }

  lemma ReadTrackSnoc(rows: seq<seq<string>>, k: nat, col: nat, grade: nat)
    requires 0 < k <= |rows|
    ensures ReadTrack(rows[..k], col, grade) == ReadTrack(rows[..k - 1], col, grade) + ReadCells(rows[k - 1], col, grade)
  {
    assert rows[..k][..k - 1] == rows[..k - 1];
    assert rows[..k][k - 1] == rows[k - 1];
  }

  /** Both tracks of packed rows read back as the lists packed into them. */
  lemma PackedReadBack(rows: seq<seq<string>>, date: string, next: nat,
                       grade1: seq<AbsenceRecord>, grade2: seq<AbsenceRecord>,
                       grade1Data: map<string, map<string, string>>, grade2Data: map<string, map<string, string>>)
    requires Packed(rows, date, next, grade1, grade2, grade1Data, grade2Data)
    requires |grade1| <= |rows| && |grade2| <= |rows|
    requires forall i | 0 <= i < |grade1| :: grade1[i].grade == 1 && grade1[i].studentId != ""
    requires forall i | 0 <= i < |grade2| :: grade2[i].grade == 2 && grade2[i].studentId != ""
    ensures ReadTrack(rows, 2, 1) == grade1
    ensures ReadTrack(rows, 6, 2) == grade2
  {
    TrackReadBack(rows, 2, 1, grade1, grade1Data);
    TrackReadBack(rows, 6, 2, grade2, grade2Data);
  }

  /** A whole track filled by position reads back as its records. */
  lemma TrackReadBack(rows: seq<seq<string>>, col: nat, grade: nat,
                      records: seq<AbsenceRecord>, data: map<string, map<string, string>>)
    requires |records| <= |rows|
    requires forall i | 0 <= i < |rows| :: HoldsTrack(rows[i], col, records, i, data)
    requires forall i | 0 <= i < |records| :: records[i].grade == grade && records[i].studentId != ""
    ensures ReadTrack(rows, col, grade) == records
  {
    assert rows[..|rows|] == rows;
    ReadTrackPacked(rows, col, grade, records, data, |rows|);
    assert records[..|records|] == records;
  }

  /** Reading the appended rows back recovers each grade's records, in
      input order, each exactly once; records of other grades appear in
      neither track. */
  lemma PackingRoundTrip(records: seq<AbsenceRecord>, date: string, snapshot: seq<seq<string>>,
                         grade1Data: map<string, map<string, string>>,
                         grade2Data: map<string, map<string, string>>)
    requires forall k | 0 <= k < |records| :: records[k].studentId != ""
    ensures ReadTrack(WriteAbsenceRecords(records, date, snapshot, grade1Data, grade2Data).rows, 2, 1)
         == GradeRecords(records, 1)
    ensures ReadTrack(WriteAbsenceRecords(records, date, snapshot, grade1Data, grade2Data).rows, 6, 2)
         == GradeRecords(records, 2)
  {
    var w := WriteAbsenceRecords(records, date, snapshot, grade1Data, grade2Data);
    GradeRecordsIds(records, 1);
    GradeRecordsIds(records, 2);
    PackedReadBack(w.rows, date, NextRowNumber(snapshot, date), GradeRecords(records, 1), GradeRecords(records, 2),
                   grade1Data, grade2Data);
  }

  /** A grade's records keep the non-blank ids of the input. */
  lemma GradeRecordsIds(records: seq<AbsenceRecord>, grade: nat)
    requires forall k | 0 <= k < |records| :: records[k].studentId != ""
    ensures forall i | 0 <= i < |GradeRecords(records, grade)| :: GradeRecords(records, grade)[i].studentId != ""
  {
    var r := GradeRecords(records, grade);
    forall i | 0 <= i < |r| ensures r[i].studentId != "" {
      assert r[i] in records;
    }
  }

  /** Appending rows numbered `next`, `next + 1`, ... for `date` to a ledger
      with a header row moves the next number past them. */
  lemma NextAfterAppend(snapshot: seq<seq<string>>, rows: seq<seq<string>>, date: string)
    requires |snapshot| > 0 && |rows| > 0
    requires forall j | 0 <= j < |rows| :: SequenceOf(rows[j], date) == Some(NextRowNumber(snapshot, date) + j)
    ensures NextRowNumber(snapshot + rows, date) == NextRowNumber(snapshot, date) + |rows|
  {
    var n0 := NextRowNumber(snapshot, date);
    var ledger := snapshot + rows;
    var top := n0 + |rows| - 1;
    forall i | 1 <= i < |ledger| && SequenceOf(ledger[i], date).Some?
      ensures SequenceOf(ledger[i], date).value <= top
    {
      if i < |snapshot| {
        assert ledger[i] == snapshot[i];
      } else {
        assert ledger[i] == rows[i - |snapshot|];
      }
    }
    NextRowNumberAtMost(ledger, date, top);
    assert ledger[|ledger| - 1] == rows[|rows| - 1];
  }

  /** `NextAfterAppend`, including the case of no rows. */
  lemma NextAfterRows(snapshot: seq<seq<string>>, rows: seq<seq<string>>, date: string)
    requires |snapshot| > 0
    requires forall j | 0 <= j < |rows| :: SequenceOf(rows[j], date) == Some(NextRowNumber(snapshot, date) + j)
    ensures NextRowNumber(snapshot + rows, date) == NextRowNumber(snapshot, date) + |rows|
  {
    if |rows| == 0 {
      AppendEmpty(snapshot);
    } else {
      NextAfterAppend(snapshot, rows, date);
    }
  }

  /** A bound on every sequence number of `date` below the header bounds
      the next number. */
  lemma NextRowNumberAtMost(snapshot: seq<seq<string>>, date: string, bound: nat)
    requires forall i | 1 <= i < |snapshot| && SequenceOf(snapshot[i], date).Some? :: SequenceOf(snapshot[i], date).value <= bound
    ensures NextRowNumber(snapshot, date) <= bound + 1
  {
    var n := NextRowNumber(snapshot, date);
    if n != 1 {
      var i :| 1 <= i < |snapshot| && SequenceOf(snapshot[i], date) == Some(n - 1);
    }
  }

  /** Packed rows carry their sequence numbers in column B. */
  lemma PackedSequence(rows: seq<seq<string>>, date: string, next: nat,
                       grade1: seq<AbsenceRecord>, grade2: seq<AbsenceRecord>,
                       grade1Data: map<string, map<string, string>>, grade2Data: map<string, map<string, string>>)
    requires Packed(rows, date, next, grade1, grade2, grade1Data, grade2Data)
    ensures forall j | 0 <= j < |rows| :: SequenceOf(rows[j], date) == Some(next + j)
  {
    forall j | 0 <= j < |rows|
      ensures SequenceOf(rows[j], date) == Some(next + j)
    {
      ParseNatToString(next + j);
    }
  }

  /** After the rows are appended to a ledger that has its header row, the
      next run continues the numbering of `date` right after them. */
  lemma NumberingContinues(records: seq<AbsenceRecord>, date: string, snapshot: seq<seq<string>>,
                           grade1Data: map<string, map<string, string>>,
                           grade2Data: map<string, map<string, string>>)
    requires |snapshot| > 0
    ensures NextRowNumber(snapshot + WriteAbsenceRecords(records, date, snapshot, grade1Data, grade2Data).rows, date)
         == NextRowNumber(snapshot, date) + WriteAbsenceRecords(records, date, snapshot, grade1Data, grade2Data).count
  {
    var w := WriteAbsenceRecords(records, date, snapshot, grade1Data, grade2Data);
    PackedSequence(w.rows, date, NextRowNumber(snapshot, date), GradeRecords(records, 1), GradeRecords(records, 2),
                   grade1Data, grade2Data);
    NextAfterRows(snapshot, w.rows, date);
  }
}
