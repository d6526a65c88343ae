# Absence roster and ledger core, in Dafny

The repository scrapes a school's attendance page for absent students. It
then appends one block of rows per run to a shared spreadsheet, the
"ledger". This project models the two pure cores inside that I/O code and
proves their properties.

* **Roster normalizer** (`src/scraper.py`) has four string parsers:
  * `parse_periods` reads `"1,2교시"`;
  * `parse_grade` reads the `[N학년` / `[N+M학년` grade marker;
  * `parse_period_from_course` reads the `…1,2교시]` clause;
  * `parse_students` reads `이름(12345)` entries.

  Each regular expression is written as a small scanner over
  `seq<char>`. For the two `re.search` calls and for the student
  `re.findall`, a separate lemma states the leftmost-match semantics:
  `FindGradeMarkerSpec`, `FindPeriodClauseSpec`, and `NoStudentsSpec`
  with `ParseStudentsSpec`. The `\d+` scan of `parse_periods` is pinned
  down by two lemmas. `DigitRunsCons` covers a maximal digit run at the
  front and `DigitRunsSkip` covers skipped non-digits; together they fix
  the result on every text.
  The aggregation loop of `scrape_absence_data` is modelled over a
  sequence of `(course descriptor, student text)` rows and a time slot.
  It keeps the time window and the grade filter. It folds the surviving
  sightings into one tally per student id, then converts each tally into
  an `AbsenceRecord` with sorted periods.
* **Ledger row builder** (`src/sheets.py`):
  * `format_periods`;
  * `get_next_row_number`, over a snapshot of the sheet given as
    `seq<seq<string>>`;
  * the grade split and positional packing of `write_absence_records` into
    10-cell rows (A date, B sequence number, C–F grade 1, G–J grade 2).

Modules, one per file:

| file | module |
|---|---|
| `wrappers.dfy` | `Wrappers`: `Option` |
| `seqs.dfy` | `Seqs`: small sequence identities |
| `digits.dfy` | `Digits`: ASCII digits, decimal value and rendering, `ParseNat` |
| `scraper.dfy` | `Scraper`: `AbsenceRecord` (`src/scraper.py` lines 9-15) and the four parsers |
| `roster.dfy` | `Roster`: the aggregation loop of `scrape_absence_data` |
| `sheets.dfy` | `Sheets`: period text, next row number, row packing and reading the rows back |

The aggregation has a reference definition, built from these pieces:

* `Sightings`: the flat list of surviving `(id, name, grade, periods)`
  sightings, in row order and then student order;
* `Dedup`: the ids in order of first sighting;
* `FirstSighting`: the sighting that fixes the name and the grade;
* `PeriodUnion`: the union of all periods of one id.

The imperative loop `Roster.ScrapeAbsenceData` is proved to produce
exactly that. The row builder is proved correct by reading the rows back:
`Sheets.ReadTrack` recovers each grade's records from the written cells.

## Model

| member | source | states |
|---|---|---|
| Scraper.BeforeFirst | src/scraper.py:41 | `split('교시')[0]`: the result is a prefix of the text, no occurrence of the separator starts inside it, and the separator follows it unless the whole text is returned |
| Scraper.DigitRuns | src/scraper.py:41-42 | `re.findall(r'\d+', …)` as integers: a scanner with no contract of its own; `DigitRunsCons` and `DigitRunsSkip` fix its result |
| Scraper.ParsePeriods | src/scraper.py:34-42 | `parse_periods`: the digit runs of the text before the first `교시`; characterised by `ParsePeriodsBeforeUnit`, `ParsePeriodsNoUnit` and `Sheets.FormatParseRoundTrip` |
| Scraper.DigitRunsCons | src/scraper.py:41-42 | a maximal digit run at the front contributes its decimal value as the first number |
| Scraper.DigitRunsSkip | src/scraper.py:41-42 | characters that are not digits contribute no numbers |
| Scraper.BeforeFirstOf | src/scraper.py:41 | the text before the first `교시` is exactly the part written before it when that part holds no `교` |
| Scraper.ParsePeriodsBeforeUnit | src/scraper.py:34-42 | the numbers of `x + "교시" + rest` are the digit runs of `x`, left to right, when `x` holds no `교`; the rest is ignored |
| Scraper.ParsePeriodsNoUnit | src/scraper.py:34-42 | a text without `교시` gives the digit runs of the whole text |
| Scraper.GradeMarkerAt | src/scraper.py:52 | the grade-marker pattern anchored at one position; characterised in both directions by `GradeMarkerAtSpec` |
| Scraper.GradeMarkerAtSpec | src/scraper.py:52-56 | the anchored pattern matches iff the text starts with one of the shapes `[N학년`, `[N+학년`, `[NM학년`, `[N+M학년`, and then gives N for the one-digit shapes and 0 for the two-digit ones |
| Scraper.MarkerGivesValue | src/scraper.py:52-56 | a marker of a given shape is read with that shape: the optional `+` and second digit are taken exactly when present |
| Scraper.FindGradeMarker | src/scraper.py:52 | `re.search` for the marker: a found value is a single digit; its leftmost-match meaning is `FindGradeMarkerSpec` |
| Scraper.FindGradeMarkerSpec | src/scraper.py:52 | `re.search` for the grade marker: no match iff no position starts a marker; otherwise the value comes from the leftmost position that does |
| Scraper.ParseGrade | src/scraper.py:45-57 | the grade is always a single digit (0-9) |
| Scraper.ParseGradeSingle | src/scraper.py:52-56 | `[N학년` or `[N+학년` as the first marker gives N |
| Scraper.ParseGradeCombined | src/scraper.py:52-55 | `[N+M학년` or `[NM학년` as the first marker gives 0, the shared-course grade |
| Scraper.ParseGradeSpec | src/scraper.py:52-56 | the grade is the value of the leftmost marker in the descriptor |
| Scraper.ParseGradeNoMarker | src/scraper.py:52-57 | a descriptor in which no position starts a marker gives 0 |
| Scraper.NoBracketNoGrade | src/scraper.py:57 | a descriptor with no `[` gives 0 |
| Scraper.BracketWithoutMarker | src/scraper.py:52-57 | `[국어 1,2교시]` gives 0: a bracket that opens no marker names no grade |
| Scraper.MarkerAfterBracket | src/scraper.py:52-56 | `[1반] [2학년 국어]` gives 2: a bracket that opens no marker is passed over |
| Scraper.GradeSkip | src/scraper.py:52 | text without `[` in front of the descriptor does not change the marker found |
| Scraper.NumberListLength | src/scraper.py:65 | `\d+(?:,\d+)*` at a digit: the match is a comma-separated number list and is maximal, so no digit, and no comma followed by a digit, comes after it |
| Scraper.NumberListMaximal | src/scraper.py:65 | a number list followed by a character that is neither a digit nor a comma is exactly the match |
| Scraper.PeriodClauseAt | src/scraper.py:65-67 | the period-clause pattern anchored at one position, giving the first group's integers; characterised by `PeriodClauseAtSpec` |
| Scraper.PeriodClauseAtSpec | src/scraper.py:65-67 | a period clause starts at a position iff some number list there is followed by `교시]`, and then the result is that list's numbers |
| Scraper.FindPeriodClauseSpec | src/scraper.py:65 | `re.search` for the period clause: no match iff no position starts a clause; otherwise the result is the leftmost clause's numbers |
| Scraper.FindPeriodClause | src/scraper.py:65 | `re.search` for the clause; its leftmost-match meaning is `FindPeriodClauseSpec` |
| Scraper.ParsePeriodFromCourse | src/scraper.py:60-68 | `parse_period_from_course`: the found clause's numbers or `[]`; characterised by `ParsePeriodFromCourseSpec`, `NoClauseNoPeriods` and `Sheets.CourseClauseRoundTrip` |
| Scraper.ParsePeriodFromCourseSpec | src/scraper.py:60-67 | when the first clause starts at position i, the result is the numbers of that clause, in order |
| Scraper.NoClauseNoPeriods | src/scraper.py:68 | with no `…교시]` clause anywhere, the result is `[]` |
| Scraper.NoDigitsNoPeriods | src/scraper.py:65-68 | a descriptor without digits gives `[]` |
| Scraper.NoClauseInside | src/scraper.py:65 | no clause starts inside text that holds no `]` and does not end in a digit or a comma, when a digit follows that text |
| Scraper.ClauseFreeSkip | src/scraper.py:65 | such text in front of a number list does not change the clause `re.search` finds |
| Scraper.HangulRun | src/scraper.py:78 | `[가-힣]+`: the run is all Hangul (U+AC00..U+D7A3) and maximal |
| Scraper.StudentAt | src/scraper.py:78 | a match at the front is a valid entry: a non-empty Hangul name, `(`, a 5-digit id and `)`, spelled exactly as `Entry` |
| Scraper.EntryMatched | src/scraper.py:78 | conversely, a valid entry `이름(12345)` at the front is matched there, whole, as that student |
| Scraper.StudentAtSpec | src/scraper.py:78 | the anchored match succeeds exactly when the text starts with a valid entry |
| Scraper.ParseStudents | src/scraper.py:71-82 | every parsed student has a non-empty Hangul name and a 5-digit id; which students are found is `NoStudentsSpec` and `ParseStudentsSpec` |
| Scraper.NoStudentsSpec | src/scraper.py:78-79 | `re.findall` finds no entry iff no position of the text starts one |
| Scraper.StudentsDrop | src/scraper.py:79 | positions that start no entry are skipped |
| Scraper.ParseStudentsSpec | src/scraper.py:78-81 | when position i is the leftmost one starting an entry, that entry is the first student and the search resumes right after its match |
| Scraper.StudentsSkip | src/scraper.py:79 | text without Hangul contributes no students |
| Scraper.WordSkip | src/scraper.py:79 | a Hangul word followed by a character that is neither Hangul nor `(` contributes no students, such as `결석` before a space |
| Scraper.StudentsEntry | src/scraper.py:79-81 | an entry `이름(12345)` at the front gives that student first, followed by the students of the rest |
| Scraper.StudentsSeparated | src/scraper.py:79-81 | an entry followed by `", "` gives that student, then the students of the rest |
| Scraper.ParseStudentsRoundTrip | src/scraper.py:71-82 | rendering valid students as `이름(12345), …` and parsing gives back the same list, in order |
| Roster.ValidPeriods | src/scraper.py:112-115 | the active window: {1,2,3,4} for `"morning"`, {5,6,7,8} for any other slot; used by `Sightings` and `SummaryFacts` |
| Roster.InWindow | src/scraper.py:138 | the filtered periods are exactly the periods that lie in the window |
| Roster.ActualGrade | src/scraper.py:147 | the grade an id implies: 1 for an id starting with `1`, else 2; used by `Admit` and `SummaryFacts` |
| Roster.RowSightings | src/scraper.py:128-151 | one row's surviving sightings: none for an empty cell or an empty window, else the admitted students with the filtered periods; characterised by `Sightings`, `SilentRow`, `Admit` and `AdmitKeeps` |
| Roster.Admit | src/scraper.py:145-151 | every kept sighting is a student of the row whose id-derived grade (1 for ids starting with `1`, else 2) equals the course grade or the course grade is 0, and it carries the row's filtered periods |
| Roster.AdmitKeeps | src/scraper.py:145-151 | conversely, every student of the row that passes the grade filter is kept, with the id's grade and the row's filtered periods |
| Roster.Sightings | src/scraper.py:112-151 | every sighting has a valid student, its id-derived grade and non-empty periods inside the active window ({1,2,3,4} for `"morning"`, {5,6,7,8} otherwise) |
| Roster.SilentRow | src/scraper.py:128-140 | a row with empty descriptor or student text, or with no period in the window, contributes nothing anywhere in the input |
| Roster.SightingsAppend | src/scraper.py:117 | the rows are processed independently and in order |
| Roster.DedupSpec | src/scraper.py:153 | the first-sighting order holds each sighted id exactly once |
| Roster.FirstIndex | src/scraper.py:153 | the position where an id is first seen: it holds the id and no earlier position does |
| Roster.DedupOrder | src/scraper.py:153 | the ids are listed by increasing position of first sighting, as the dictionary's insertion order lists them |
| Roster.PeriodUnionMembers | src/scraper.py:160 | a period belongs to a student's union iff some sighting of that id carries it |
| Roster.FirstSighting | src/scraper.py:153-158 | the first sighting of a seen id exists and carries that id |
| Roster.FirstSightingEarliest | src/scraper.py:153-158 | it is the earliest sighting: no sighting before it carries that id |
| Roster.FirstSightingSnoc | src/scraper.py:153-158 | later sightings never change the name and grade fixed by the first one |
| Roster.Absorb | src/scraper.py:153-160 | one sighting folded into the tallies; characterised by `AbsorbKeeps` |
| Roster.Collect | src/scraper.py:153-160 | the fold of all sightings into tallies; characterised by `CollectSpec` |
| Roster.CollectSpec | src/scraper.py:153-160 | the fold of sightings keeps one tally per distinct id, in order of first sighting, with name and grade from that sighting and the union of all its periods |
| Roster.AbsorbKeeps | src/scraper.py:153-160 | one more sighting keeps that invariant: it updates the existing tally or appends a new one |
| Roster.SummaryFacts | src/scraper.py:147-160 | a tally's grade is 1 or 2 and matches its id, and its period set is non-empty and inside the window |
| Roster.SortedElements | src/scraper.py:169 | `sorted(list(set))`: strictly ascending, hence duplicate-free, with exactly the set's members |
| Roster.ToRecord | src/scraper.py:164-170 | one tally converted to an `AbsenceRecord`; characterised by `TallyRecord` |
| Roster.TallyRecord | src/scraper.py:164-170 | the record built from a tally has the fixed name and grade and the sorted union of periods |
| Roster.RecordsAggregate | src/scraper.py:162-172 | converting the tallies gives one record per distinct surviving id, in order of first sighting, with distinct ids, ascending non-empty periods inside the window, and grade 1 or 2 |
| Roster.AbsorbRow | src/scraper.py:142-160 | the inner loop over one row's students extends the tallies exactly as the reference fold does over that row's sightings |
| Roster.ToRecords | src/scraper.py:163-170 | the conversion loop yields one record per tally, in tally order |
| Roster.ScrapeAbsenceData | src/scraper.py:108-172 | the result aggregates the surviving sightings: one record per distinct id in first-sighting order, name and grade from the first sighting, periods the ascending union |
| Sheets.JoinNumbers | src/sheets.py:87 | the joined numbers start with a digit and hold only digits and commas |
| Sheets.FormatPeriods | src/sheets.py:79-87 | the text is `""` exactly when there are no periods |
| Sheets.DigitRunsJoin | src/sheets.py:87 | reading the digit runs of `"1,2,…"` gives the numbers back, whatever follows when that does not start with a digit |
| Sheets.FormatParseRoundTrip | src/sheets.py:79-87 | `parse_periods(format_periods(ps)) == ps` for every list of naturals, including the empty one |
| Sheets.NumberListJoin | src/sheets.py:87 | the joined numbers form one maximal number list |
| Sheets.CourseClauseRoundTrip | src/scraper.py:60-67 | a formatted non-empty period list followed by `]` parses back from a course descriptor, when the text before it holds no `]` and does not end in a digit or a comma |
| Sheets.SharedCourseClause | src/scraper.py:60-67 | `[2학년 국제교육부 수목 1,2교시]` gives periods 1 and 2: the grade digit in front does not disturb the clause |
| Sheets.SequenceOf | src/sheets.py:69-71 | the column-B number a row contributes for the date, when the row has two cells, column A is the date and B is an integer; used by `MaxSequence` and `NextRowNumber` |
| Sheets.MaxSequence | src/sheets.py:67-74 | the largest column-B number among rows of the date, or 0: an upper bound that is attained |
| Sheets.NextRowNumber | src/sheets.py:60-76 | skipping the header, the result is at least 1, exceeds every sequence number of the date, and is 1 or one more than an existing number |
| Sheets.NextRowNumberAtMost | src/sheets.py:67-76 | a bound on the date's sequence numbers bounds the next number |
| Sheets.GradeRecords | src/sheets.py:126-127 | a grade's list holds exactly the input records of that grade |
| Sheets.GradeRecordsAppend | src/sheets.py:126-127 | the split keeps input order |
| Sheets.TypeOf | src/sheets.py:152-155 | the student's `type` in the grade's table, or `""` when the id or the key is missing; used by `PackRowsShape` |
| Sheets.TrackCells | src/sheets.py:149-165 | the cells of one grade in row i are four; their contents (id, name, type and formatted periods, or blanks past the end of the list) are characterised by `PackRowsShape` |
| Sheets.PackRows | src/sheets.py:142-167 | the rows as written; characterised by `PackRowsShape` and `PackingRoundTrip` |
| Sheets.PackRowsShape | src/sheets.py:130-167 | `max(#grade1, #grade2)` rows of 10 cells: date, `next + i`, and the i-th record of each grade (id, name, looked-up type or `""`, formatted periods) or blanks |
| Sheets.WriteAbsenceRecords | src/sheets.py:105-173 | the count equals the number of rows and `max(#grade1, #grade2)`; it is 0 iff no record has grade 1 or 2; the rows are packed from the next row number |
| Sheets.ReadCellsHeld | src/sheets.py:149-165 | a written cell group reads back as its record, and a blank one as nothing |
| Sheets.PackingRoundTrip | src/sheets.py:125-167 | reading columns C–F and G–J back gives exactly the grade-1 and grade-2 records in input order, so each appears in exactly one row and records of other grades appear nowhere |
| Sheets.PackedSequence | src/sheets.py:145-147 | row j's column B reads back as `next + j` |
| Sheets.NextAfterAppend | src/sheets.py:60-76 | appending rows numbered consecutively from the next number moves the next number forward by the number of rows |
| Sheets.NumberingContinues | src/sheets.py:137-147 | after the rows are appended, the next run's number is the old next number plus the returned count |
| Digits.NatToString | src/sheets.py:87 | `str(p)`: a non-empty digit string without a leading zero whose decimal value is `p` |
| Digits.ParseNat | src/sheets.py:71 | the parse succeeds iff the cell is a non-empty digit string |
| Digits.ParseNatToString | src/sheets.py:71 | a number written by `str` parses back to itself |

## Left out

- Browser work, Sheets API access, credentials and JSON loading are not modelled. This covers login, navigation, the radio click, cell extraction, `get_client`, worksheet selection and `load_student_data`. The model instead takes:
  - the `(cells[3], cells[5])` text pairs of the table;
  - the sheet snapshot as `seq<seq<string>>`;
  - the two id→type tables as maps;
  - the date string in place of `datetime.now()`.
- The Sheets API call itself is not modelled: `write_absence_records` returns the rows it would append together with the count. `Sheets.NextAfterAppend` and `Sheets.NumberingContinues` model the sheet after the append as the old snapshot followed by those rows, cell for cell.
- The `len(cells) < 6` skip is not modelled: a `RosterRow` already holds the two cells.
- `strip()` is not modelled. The model takes the stripped texts, and whitespace alone yields neither periods nor students.
- `\d` is modelled as the ASCII digits `0`–`9`. Python's `\d` also matches other Unicode decimal digits, which `int()` accepts too.
- `int()` leniency in `get_next_row_number` is not modelled: surrounding whitespace, signs and underscores. `Digits.ParseNat` accepts plain digit strings only, so a negative column-B value is ignored rather than compared with 0, which gives the same result.
- Column B is written as the decimal text of `next_num + i`, while Python writes an int that the sheet shows as that same text.
- The `time_slot=` keyword that `src/app.py` and `src/main.py` pass to `write_absence_records` is not modelled. The signature has no such parameter, so that call boundary is outside the model.
- The code has no merge-into-existing-row step, cancellation list or notification message, so none is modelled.
- Sheets.NumberingContinues assumes the appended cells read back exactly as written. The rows are appended with `value_input_option="USER_ENTERED"` (src/sheets.py:170), so the sheet parses the date and the numbers, and `get_all_values()` (src/sheets.py:65) returns their displayed text. The date test `row[0] == today_date` (src/sheets.py:69) then holds on the next run only if the sheet displays the date exactly as `today_date` was written.
- Sheets.NextAfterAppend makes the same read-back assumption: its snapshot after the append is the old one followed by the written rows.
- Sheets.NumberingContinues requires a non-empty snapshot. `get_next_row_number` always skips the first row as the header, so freshly appended rows only count on the next run if a header row is already present.
- Sheets.PackingRoundTrip requires non-empty student ids. The read-back treats a blank id cell as "no record". Every id the roster produces is five digits.
- Scraper.ParseGradeSingle states the result only for a single-digit marker that follows text without `[`. Scraper.ParseGradeSpec states the general leftmost-marker case.
- Scraper.ParseGradeCombined states the result only for a combined marker that follows text without `[`. Scraper.ParseGradeSpec states the general leftmost-marker case.
