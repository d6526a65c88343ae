/** The aggregation loop of `scrape_absence_data` (src/scraper.py): roster
    rows are filtered by time window and grade scope, and every student
    sighted is folded into one absence record. */
module Roster {
  import opened Digits
  import opened Scraper
  import opened Seqs

  /** The two cells of a portal roster row that the scraper reads: the
      course descriptor (fourth cell) and the absent-student list (sixth
      cell), both already stripped. */
  datatype RosterRow = RosterRow(courseInfo: string, studentText: string)

  /** One surviving (course, student) pairing: the student, the grade read
      from the id, and the course's in-window periods. */
  datatype Sighting = Sighting(id: string, name: string, grade: nat, periods: seq<nat>)

  /** The value `scrape_absence_data`'s per-student dictionary holds for one id. */
  datatype Tally = Tally(id: string, name: string, grade: nat, periods: set<nat>)

  /** The active time window: periods 1-4 in the morning, 5-8 for any other slot. */
  function ValidPeriods(timeSlot: string): set<nat> {
    if timeSlot == "morning" then {1, 2, 3, 4} else {5, 6, 7, 8}
  }

  /** The grade an id stands for: 1 for ids starting with '1', 2 otherwise. */
  function ActualGrade(id: string): nat {
    if |id| > 0 && id[0] == '1' then 1 else 2
  }

  /** The periods of `periods` that lie in `window`, in their original order. */
  function InWindow(periods: seq<nat>, window: set<nat>): (r: seq<nat>)
    ensures forall p :: p in r <==> p in periods && p in window
  {
    if |periods| == 0 then []
    else (if periods[0] in window then [periods[0]] else []) + InWindow(periods[1..], window)
  }

  /** The students of one row that pass the grade filter, each with the id's
      grade and the row's in-window periods. */
  function Admit(students: seq<Student>, grade: nat, periods: seq<nat>): (r: seq<Sighting>)
    ensures forall k | 0 <= k < |r| ::
      && Student(r[k].id, r[k].name) in students
      && r[k].grade == ActualGrade(r[k].id)
      && (grade == 0 || grade == r[k].grade)
      && r[k].periods == periods
  {
    if |students| == 0 then []
    else
      var st := students[|students| - 1];
      var actual := ActualGrade(st.id);
      var prior := students[..|students| - 1];
      assert students == prior + [st];
      Admit(prior, grade, periods)
        + (if grade != 0 && grade != actual then [] else [Sighting(st.id, st.name, actual, periods)])
  }

  /** Every student that passes the grade filter is kept, with the id's
      grade and the row's in-window periods. */
  lemma {:induction false} AdmitKeeps(students: seq<Student>, grade: nat, periods: seq<nat>, st: Student)
    requires st in students && (grade == 0 || grade == ActualGrade(st.id))
    ensures Sighting(st.id, st.name, ActualGrade(st.id), periods) in Admit(students, grade, periods)
  {
    var last := students[|students| - 1];
    var prior := students[..|students| - 1];
    assert students == prior + [last];
    if st != last {
      AdmitKeeps(prior, grade, periods, st);
    }
  }

  /** What one roster row contributes, in the order the loop visits it. */
  function RowSightings(row: RosterRow, timeSlot: string): seq<Sighting> {
    if |row.courseInfo| == 0 || |row.studentText| == 0 then []
    else
      var filtered := InWindow(ParsePeriodFromCourse(row.courseInfo), ValidPeriods(timeSlot));
      if |filtered| == 0 then []
      else Admit(ParseStudents(row.studentText), ParseGrade(row.courseInfo), filtered)
  }

  /** What a sighting is guaranteed to be: a well-formed student, the id's
      grade, and a non-empty set of periods from the window. */
  predicate SightingOk(x: Sighting, window: set<nat>) {
    && ValidStudent(Student(x.id, x.name))
    && x.grade == ActualGrade(x.id)
    && |x.periods| > 0
    && forall p | p in x.periods :: p in window
  }

  /** Every surviving sighting of a run, row by row. */
  function Sightings(rows: seq<RosterRow>, timeSlot: string): (r: seq<Sighting>)
    ensures forall k | 0 <= k < |r| :: SightingOk(r[k], ValidPeriods(timeSlot))
  {
    if |rows| == 0 then []
    else Sightings(rows[..|rows| - 1], timeSlot) + RowSightings(rows[|rows| - 1], timeSlot)
  }

  // ---------------------------------------------------------------------
  // Reference definitions of the aggregate
  // ---------------------------------------------------------------------

  /** The ids of the sightings, in order. */
  function Ids(s: seq<Sighting>): (r: seq<string>)
    ensures |r| == |s|
    ensures forall i | 0 <= i < |s| :: r[i] == s[i].id
  {
    if |s| == 0 then [] else Ids(s[..|s| - 1]) + [s[|s| - 1].id]
  }

  /** The ids of the tallies, in order. Written, like `Ids`, as a recursion
      of its own rather than as a sequence comprehension: comprehensions over
      these two record types, whose fields share names, made the verifier
      report contradictory assumptions. */
  function TallyIds(t: seq<Tally>): (r: seq<string>)
    ensures |r| == |t|
    ensures forall i | 0 <= i < |t| :: r[i] == t[i].id
  {
    if |t| == 0 then [] else TallyIds(t[..|t| - 1]) + [t[|t| - 1].id]
  }

  /** Each element at its first occurrence, in order. */
  function Dedup(xs: seq<string>): seq<string> {
    if |xs| == 0 then []
    else
      var prior := xs[..|xs| - 1];
      if xs[|xs| - 1] in prior then Dedup(prior) else Dedup(prior) + [xs[|xs| - 1]]
  }

  predicate Distinct(xs: seq<string>) {
    forall i, j | 0 <= i < j < |xs| :: xs[i] != xs[j]
  }

  /** The earliest sighting of `id`. */
  function FirstSighting(s: seq<Sighting>, id: string): (x: Sighting)
    requires id in Ids(s)
    ensures x in s && x.id == id
  {
    var prior := s[..|s| - 1];
    if id in Ids(prior) then FirstSighting(prior, id) else s[|s| - 1]
  }

  function Elements(ps: seq<nat>): set<nat> {
    set p | p in ps
  }

  /** The union of the periods of every sighting of `id`. */
  function PeriodUnion(s: seq<Sighting>, id: string): set<nat> {
    if |s| == 0 then {}
    else
      PeriodUnion(s[..|s| - 1], id)
        + (if s[|s| - 1].id == id then Elements(s[|s| - 1].periods) else {})
  }

  /** What the dictionary entry of an id must hold after seeing `s`. */
  predicate Summarizes(s: seq<Sighting>, t: Tally) {
    && t.id in Ids(s)
    && t.name == FirstSighting(s, t.id).name
    && t.grade == FirstSighting(s, t.id).grade
    && t.periods == PeriodUnion(s, t.id)
  }

  // ---------------------------------------------------------------------
  // The dictionary fold
  // ---------------------------------------------------------------------

  /** The position of `id` among the tallies, or `|t|` when it is absent. */
  function Find(t: seq<Tally>, id: string): (k: nat)
    ensures k <= |t|
    ensures k < |t| ==> t[k].id == id
    ensures forall j | 0 <= j < k :: t[j].id != id
  {
    if |t| == 0 then 0
    else if t[0].id == id then 0
    else 1 + Find(t[1..], id)
  }

  /** One pass of the inner loop body: create the entry on first sighting
      (fixing name and grade), then add the row's periods. */
  function Absorb(t: seq<Tally>, x: Sighting): seq<Tally> {
    var k := Find(t, x.id);
    if k < |t| then t[k := t[k].(periods := t[k].periods + Elements(x.periods))]
    else t + [Tally(x.id, x.name, x.grade, Elements(x.periods))]
  }

  /** The dictionary after folding every sighting of `s`. */
  function Collect(s: seq<Sighting>): seq<Tally> {
    if |s| == 0 then [] else Absorb(Collect(s[..|s| - 1]), s[|s| - 1])
  }

  predicate StrictlyIncreasing(ps: seq<nat>) {
    forall i, j | 0 <= i < j < |ps| :: ps[i] < ps[j]
  }

  /** The least element of a non-empty set. */
  ghost function Least(s: set<nat>): (m: nat)
    requires s != {}
    ensures m in s
    ensures forall p | p in s :: m <= p
    decreases |s|
  {
    var x :| x in s;
    if s == {x} then x
    else
      var rest := s - {x};
      var m := Least(rest);
      assert forall p | p in s :: p == x || p in rest;
      if x < m then x else m
  }

  /** `min(s)`: the least element, unique, so it can be chosen in compiled code. */
  function Min(s: set<nat>): (m: nat)
    requires s != {}
    ensures m in s
    ensures forall p | p in s :: m <= p
  {
    ghost var least := Least(s);
    var m :| m in s && forall p | p in s :: m <= p;
    m
  }

  lemma ConsMembers(m: nat, rest: seq<nat>, s: set<nat>)
    requires m in s
    requires forall p :: p in rest <==> p in s - {m}
    ensures forall p :: p in [m] + rest <==> p in s
  {
    forall p
      ensures p in [m] + rest <==> p in s
    {
      assert p in [m] + rest <==> p == m || p in rest;
    }
  }

  lemma ConsIncreasing(m: nat, rest: seq<nat>)
    requires StrictlyIncreasing(rest)
    requires forall p | p in rest :: m < p
    ensures StrictlyIncreasing([m] + rest)
  {
    var r := [m] + rest;
    forall i, j | 0 <= i < j < |r|
      ensures r[i] < r[j]
    {
      assert r[j] == rest[j - 1] && rest[j - 1] in rest;
      if i > 0 {
        assert r[i] == rest[i - 1];
      }
    }
  }

  /** `sorted(list(s))`. */
  function SortedElements(s: set<nat>): (r: seq<nat>)
    ensures StrictlyIncreasing(r)
    ensures forall p :: p in r <==> p in s
    decreases |s|
  {
    if s == {} then []
    else
      var m := Min(s);
      var rest := SortedElements(s - {m});
      assert forall p | p in rest :: m < p;
      ConsMembers(m, rest, s);
      ConsIncreasing(m, rest);
      [m] + rest
  }

  function ToRecord(t: Tally): AbsenceRecord {
    AbsenceRecord(t.id, t.name, t.grade, SortedElements(t.periods))
  }

  // ---------------------------------------------------------------------
  // Properties of the fold
  // ---------------------------------------------------------------------

  /** `Dedup` keeps exactly the elements of its input, each once. */
  lemma {:induction false} DedupSpec(xs: seq<string>)
    ensures forall x :: x in Dedup(xs) <==> x in xs
    ensures Distinct(Dedup(xs))
  {
    if |xs| > 0 {
      var prior := xs[..|xs| - 1];
      assert xs == prior + [xs[|xs| - 1]];
      DedupSpec(prior);
    }
  }

  /** The position of the first occurrence of `x` in `xs`. */
  function FirstIndex(xs: seq<string>, x: string): (k: nat)
    requires x in xs
    ensures k < |xs| && xs[k] == x
    ensures forall j | 0 <= j < k :: xs[j] != x
  {
    var prior := xs[..|xs| - 1];
    if x in prior then FirstIndex(prior, x) else |xs| - 1
  }

  /** The first-sighting order lists the ids by the position where each is
      first seen. */
  lemma {:induction false} DedupOrder(xs: seq<string>)
    ensures forall x | x in Dedup(xs) :: x in xs
    ensures forall a, b | 0 <= a < b < |Dedup(xs)| :: FirstIndex(xs, Dedup(xs)[a]) < FirstIndex(xs, Dedup(xs)[b])
  {
    DedupSpec(xs);
    if |xs| > 0 {
      var prior := xs[..|xs| - 1];
      var last := xs[|xs| - 1];
      DedupOrder(prior);
      DedupSpec(prior);
      var d := Dedup(prior);
      forall x | x in prior
        ensures FirstIndex(xs, x) == FirstIndex(prior, x)
      {
      }
      if last !in prior {
        forall a | 0 <= a < |d|
          ensures FirstIndex(xs, Dedup(xs)[a]) < FirstIndex(xs, last)
        {
        }
      }
    }
  }

  /** The first sighting of an id is the earliest one: no sighting before it
      carries that id. */
  lemma {:induction false} FirstSightingEarliest(s: seq<Sighting>, id: string)
    requires id in Ids(s)
    ensures exists j | 0 <= j < |s| :: s[j] == FirstSighting(s, id) && forall k | 0 <= k < j :: s[k].id != id
  {
    var prior := s[..|s| - 1];
    if id in Ids(prior) {
      FirstSightingEarliest(prior, id);
      var j :| 0 <= j < |prior| && prior[j] == FirstSighting(prior, id) && forall k | 0 <= k < j :: prior[k].id != id;
    } else {
      assert forall k | 0 <= k < |prior| :: Ids(prior)[k] == prior[k].id;
    }
  }

  /** An id never sighted has no periods. */
  lemma {:induction false} PeriodUnionAbsent(s: seq<Sighting>, id: string)
    requires id !in Ids(s)
    ensures PeriodUnion(s, id) == {}
  {
    if |s| > 0 {
      var prior := s[..|s| - 1];
      PeriodUnionAbsent(prior, id);
    }
  }

  /** A period belongs to an id's union exactly when some sighting of that
      id lists it. */
  lemma {:induction false} PeriodUnionMembers(s: seq<Sighting>, id: string)
    ensures forall p :: p in PeriodUnion(s, id) <==> exists j | 0 <= j < |s| :: s[j].id == id && p in s[j].periods
  {
    if |s| > 0 {
      var prior := s[..|s| - 1];
      PeriodUnionMembers(prior, id);
      forall p
        ensures p in PeriodUnion(s, id) <==> exists j | 0 <= j < |s| :: s[j].id == id && p in s[j].periods
      {
        if exists j | 0 <= j < |s| :: s[j].id == id && p in s[j].periods {
          var j :| 0 <= j < |s| && s[j].id == id && p in s[j].periods;
          if j < |s| - 1 {
            assert prior[j] == s[j];
          }
        }
      }
    }
  }

  /** Appending one sighting updates the first-sighting table only for a
      new id. */
  lemma FirstSightingSnoc(s: seq<Sighting>, x: Sighting, id: string)
    requires id in Ids(s)
    ensures id in Ids(s + [x]) && FirstSighting(s + [x], id) == FirstSighting(s, id)
  {
    assert (s + [x])[..|s|] == s;
  }

  /** The dictionary holds one entry per distinct id, in order of first
      sighting, and each entry summarizes exactly the sightings of its id. */
  predicate CollectInv(s: seq<Sighting>, c: seq<Tally>) {
    && TallyIds(c) == Dedup(Ids(s))
    && forall k | 0 <= k < |c| :: Summarizes(s, c[k])
  }

  lemma {:induction false} CollectSpec(s: seq<Sighting>)
    ensures TallyIds(Collect(s)) == Dedup(Ids(s))
    ensures forall k | 0 <= k < |Collect(s)| :: Summarizes(s, Collect(s)[k])
  {
    if |s| > 0 {
      var prior := s[..|s| - 1];
      var x := s[|s| - 1];
      assert s == prior + [x];
      CollectSpec(prior);
      AbsorbKeeps(prior, x, Collect(prior));
    }
  }

  /** Ids, distinct ids and period unions after one more sighting. */
  lemma SnocIds(prior: seq<Sighting>, x: Sighting)
    ensures Ids(prior + [x]) == Ids(prior) + [x.id]
    ensures Dedup(Ids(prior + [x])) == if x.id in Ids(prior) then Dedup(Ids(prior)) else Dedup(Ids(prior)) + [x.id]
  {
  }

  lemma SnocUnion(prior: seq<Sighting>, x: Sighting, id: string)
    ensures PeriodUnion(prior + [x], id) == PeriodUnion(prior, id) + (if x.id == id then Elements(x.periods) else {})
  {
    assert (prior + [x])[..|prior|] == prior;
  }

  /** One `Absorb` step keeps the invariant. */
  lemma AbsorbKeeps(prior: seq<Sighting>, x: Sighting, c: seq<Tally>)
    requires CollectInv(prior, c)
    ensures CollectInv(prior + [x], Absorb(c, x))
  {
    SnocIds(prior, x);
    DedupSpec(Ids(prior));
    var k := Find(c, x.id);
    if k < |c| {
      var c' := c[k := c[k].(periods := c[k].periods + Elements(x.periods))];
      assert Absorb(c, x) == c';
      TallyIdsUpdate(c, k, c'[k]);
      forall m | 0 <= m < |c| && m != k
        ensures c[m].id != x.id
      {
      }
      FoundSummaries(prior, x, c, k, c');
    } else {
      var t := Tally(x.id, x.name, x.grade, Elements(x.periods));
      assert Absorb(c, x) == c + [t];
      TallyIdsSnoc(c, t);
      NewSummaries(prior, x, c, c + [t]);
    }
  }

  lemma TallyIdsUpdate(c: seq<Tally>, k: nat, t: Tally)
    requires k < |c| && t.id == c[k].id
    ensures TallyIds(c[k := t]) == TallyIds(c)
  {
    assert forall i | 0 <= i < |c| :: TallyIds(c[k := t])[i] == TallyIds(c)[i];
  }

  lemma TallyIdsSnoc(c: seq<Tally>, t: Tally)
    ensures TallyIds(c + [t]) == TallyIds(c) + [t.id]
  {
    assert (c + [t])[..|c|] == c;
  }

  /** An entry extended by one sighting still summarizes its id. */
  lemma SummarizesSnoc(prior: seq<Sighting>, x: Sighting, t: Tally, t': Tally)
    requires Summarizes(prior, t)
    requires t'.id == t.id && t'.name == t.name && t'.grade == t.grade
    requires t'.periods == t.periods + (if x.id == t.id then Elements(x.periods) else {})
    ensures Summarizes(prior + [x], t')
  {
    FirstSightingSnoc(prior, x, t.id);
    SnocUnion(prior, x, t.id);
  }

  /** The entry created for a new id summarizes its one sighting. */
  lemma SummarizesNew(prior: seq<Sighting>, x: Sighting)
    requires x.id !in Ids(prior)
    ensures Summarizes(prior + [x], Tally(x.id, x.name, x.grade, Elements(x.periods)))
  {
    SnocIds(prior, x);
    assert (Ids(prior) + [x.id])[|prior|] == x.id;
    PeriodUnionAbsent(prior, x.id);
    SnocUnion(prior, x, x.id);
  }

  /** Adding a sighting to the entry of its id keeps every entry a summary. */
  lemma FoundSummaries(prior: seq<Sighting>, x: Sighting, c: seq<Tally>, k: nat, c': seq<Tally>)
    requires k < |c| && c[k].id == x.id
    requires forall m | 0 <= m < |c| :: Summarizes(prior, c[m])
    requires forall m | 0 <= m < |c| && m != k :: c[m].id != x.id
    requires c' == c[k := c[k].(periods := c[k].periods + Elements(x.periods))]
    ensures forall m | 0 <= m < |c'| :: Summarizes(prior + [x], c'[m])
  {
    forall m | 0 <= m < |c|
      ensures Summarizes(prior + [x], c'[m])
    {
      if m == k {
        SummarizesSnoc(prior, x, c[k], c'[k]);
      } else {
        SummarizesSnoc(prior, x, c[m], c'[m]);
      }
    }
  }

  /** Appending the entry of a new id keeps every entry a summary. */
  lemma NewSummaries(prior: seq<Sighting>, x: Sighting, c: seq<Tally>, c': seq<Tally>)
    requires x.id !in Ids(prior)
    requires forall m | 0 <= m < |c| :: Summarizes(prior, c[m])
    requires c' == c + [Tally(x.id, x.name, x.grade, Elements(x.periods))]
    ensures forall m | 0 <= m < |c'| :: Summarizes(prior + [x], c'[m])
  {
    SummarizesNew(prior, x);
    forall m | 0 <= m < |c|
      ensures Summarizes(prior + [x], c'[m])
    {
      SummarizesSnoc(prior, x, c[m], c'[m]);
    }
  }

  /** Facts every entry inherits from the sightings it summarizes. */
  lemma SummaryFacts(s: seq<Sighting>, t: Tally, window: set<nat>)
    requires forall k | 0 <= k < |s| :: SightingOk(s[k], window)
    requires Summarizes(s, t)
    ensures ValidStudent(Student(t.id, t.name))
    ensures t.grade == ActualGrade(t.id) && (t.grade == 1 || t.grade == 2)
    ensures t.periods != {} && t.periods <= window
  {
    var first := FirstSighting(s, t.id);
    PeriodUnionMembers(s, t.id);
    var j :| 0 <= j < |s| && s[j] == first;
    assert first.periods[0] in t.periods;
  }

  /** Sightings distribute over the rows. */
  lemma {:induction false} SightingsAppend(a: seq<RosterRow>, b: seq<RosterRow>, timeSlot: string)
    ensures Sightings(a + b, timeSlot) == Sightings(a, timeSlot) + Sightings(b, timeSlot)
    decreases |b|
  {
    if |b| == 0 {
      assert a + b == a;
    } else {
      var b' := b[..|b| - 1];
      var last := b[|b| - 1];
      var ab := a + b;
      assert ab[..|ab| - 1] == a + b';
      assert ab[|ab| - 1] == last;
      var sa, sb', r := Sightings(a, timeSlot), Sightings(b', timeSlot), RowSightings(last, timeSlot);
      SightingsAppend(a, b', timeSlot);
      ConcatAssoc(sa, sb', r);
    }
  }

  lemma {:induction false} InWindowNone(periods: seq<nat>, window: set<nat>)
    requires forall p | p in periods :: p !in window
    ensures InWindow(periods, window) == []
  {
    if |periods| > 0 {
      assert periods[0] in periods;
      assert forall p | p in periods[1..] :: p in periods;
      InWindowNone(periods[1..], window);
    }
  }

  /** A row with an empty descriptor or student list, or with no period in
      the window, contributes nothing wherever it stands. */
  lemma SilentRow(a: seq<RosterRow>, row: RosterRow, b: seq<RosterRow>, timeSlot: string)
    requires || row.courseInfo == ""
             || row.studentText == ""
             || forall p | p in ParsePeriodFromCourse(row.courseInfo) :: p !in ValidPeriods(timeSlot)
    ensures RowSightings(row, timeSlot) == []
    ensures Sightings(a + [row] + b, timeSlot) == Sightings(a + b, timeSlot)
  {
    if row.courseInfo != "" && row.studentText != "" {
      InWindowNone(ParsePeriodFromCourse(row.courseInfo), ValidPeriods(timeSlot));
    }
    assert [row][..0] == [];
    SightingsAppend(a + [row], b, timeSlot);
    SightingsAppend(a, [row], timeSlot);
    SightingsAppend(a, b, timeSlot);
    var sa, sb := Sightings(a, timeSlot), Sightings(b, timeSlot);
    assert sa + [] == sa;
  }

  // ---------------------------------------------------------------------
  // scrape_absence_data
  // ---------------------------------------------------------------------

  /** What the records of a run promise, given the run's sightings `s` and
      its window: one record per distinct id, in order of first sighting;
      name and grade from the first sighting, the grade being the id's
      (1 or 2); periods the ascending, duplicate-free union of that id's
      sightings, non-empty and inside the window. */
  ghost predicate Aggregates(s: seq<Sighting>, window: set<nat>, records: seq<AbsenceRecord>) {
    && |records| == |Dedup(Ids(s))|
    && (forall k | 0 <= k < |records| :: records[k].studentId == Dedup(Ids(s))[k])
    && (forall i, j | 0 <= i < j < |records| :: records[i].studentId != records[j].studentId)
    && (forall k | 0 <= k < |records| :: RecordOk(s, window, records[k]))
  }

  /** One record of a run: a sighted id with the name of its first
      sighting, the id's grade (1 or 2), and the ascending periods that
      make up the union of its sightings, non-empty and inside the window. */
  ghost predicate RecordOk(s: seq<Sighting>, window: set<nat>, r: AbsenceRecord) {
    && r.studentId in Ids(s)
    && r.name == FirstSighting(s, r.studentId).name
    && r.grade == ActualGrade(r.studentId)
    && (r.grade == 1 || r.grade == 2)
    && ValidStudent(Student(r.studentId, r.name))
    && StrictlyIncreasing(r.periods)
    && |r.periods| > 0
    && (forall p :: p in r.periods <==> p in PeriodUnion(s, r.studentId))
    && (forall p | p in r.periods :: p in window)
  }

  /** An entry that summarizes its sightings converts to a sound record. */
  lemma TallyRecord(s: seq<Sighting>, window: set<nat>, t: Tally)
    requires forall k | 0 <= k < |s| :: SightingOk(s[k], window)
    requires Summarizes(s, t)
    ensures RecordOk(s, window, ToRecord(t))
  {
    SummaryFacts(s, t, window);
    var e :| e in t.periods;
    assert e in ToRecord(t).periods;
  }

  /** Converting the final dictionary entry by entry meets `Aggregates`. */
  lemma RecordsAggregate(s: seq<Sighting>, window: set<nat>, records: seq<AbsenceRecord>)
    requires forall k | 0 <= k < |s| :: SightingOk(s[k], window)
    requires |records| == |Collect(s)|
    requires forall k | 0 <= k < |records| :: records[k] == ToRecord(Collect(s)[k])
    ensures Aggregates(s, window, records)
  {
    var c := Collect(s);
    CollectSpec(s);
    DedupSpec(Ids(s));
    forall k | 0 <= k < |records|
      ensures records[k].studentId == Dedup(Ids(s))[k]
      ensures RecordOk(s, window, records[k])
    {
      TallyRecord(s, window, c[k]);
    }
  }

  lemma CollectSnoc(s: seq<Sighting>, x: Sighting)
    ensures Collect(s + [x]) == Absorb(Collect(s), x)
  {
    assert (s + [x])[..|s|] == s;
  }

  lemma CollectExtend(before: seq<Sighting>, admitted: seq<Sighting>, x: Sighting)
    ensures Collect(before + (admitted + [x])) == Absorb(Collect(before + admitted), x)
  {
    assert before + (admitted + [x]) == (before + admitted) + [x];
    CollectSnoc(before + admitted, x);
  }

  lemma AdmitStep(students: seq<Student>, j: nat, grade: nat, periods: seq<nat>)
    requires j < |students|
    ensures Admit(students[..j + 1], grade, periods)
         == Admit(students[..j], grade, periods)
            + (if grade != 0 && grade != ActualGrade(students[j].id) then []
               else [Sighting(students[j].id, students[j].name, ActualGrade(students[j].id), periods)])
  {
    assert students[..j + 1][..j] == students[..j];
  }

  lemma SightingsStep(rows: seq<RosterRow>, i: nat, timeSlot: string)
    requires i < |rows|
    ensures Sightings(rows[..i + 1], timeSlot) == Sightings(rows[..i], timeSlot) + RowSightings(rows[i], timeSlot)
  {
    assert rows[..i + 1][..i] == rows[..i];
  }

  /** The body of the outer loop for one row: the emptiness check, the
      window filter, then the inner loop over the parsed students. */
  method AbsorbRow(tallies: seq<Tally>, ghost before: seq<Sighting>, row: RosterRow, timeSlot: string)
    returns (result: seq<Tally>)
    requires tallies == Collect(before)
    ensures result == Collect(before + RowSightings(row, timeSlot))
  {
    result := tallies;
    if |row.courseInfo| == 0 || |row.studentText| == 0 {
      AppendEmpty(before);
      return;
    }
    var grade := ParseGrade(row.courseInfo);
    var periods := ParsePeriodFromCourse(row.courseInfo);
    var filtered := InWindow(periods, ValidPeriods(timeSlot));
    if |filtered| == 0 {
      AppendEmpty(before);
      return;
    }
    var students := ParseStudents(row.studentText);
    ghost var admitted: seq<Sighting> := [];
    AppendEmpty(before);
    var j := 0;
    while j < |students|
      invariant 0 <= j <= |students|
      invariant admitted == Admit(students[..j], grade, filtered)
      invariant result == Collect(before + admitted)
    {
      var st := students[j];
      AdmitStep(students, j, grade, filtered);
      var actual := ActualGrade(st.id);
      if grade == 0 || grade == actual {
        var x := Sighting(st.id, st.name, actual, filtered);
        CollectExtend(before, admitted, x);
        result := Absorb(result, x);
        admitted := admitted + [x];
      } else {
        AppendEmpty(admitted);
      }
      j := j + 1;
    }
    assert students[..|students|] == students;
  }

  /** The final conversion of the tallies into records, in order. */
  method ToRecords(tallies: seq<Tally>) returns (records: seq<AbsenceRecord>)
    ensures |records| == |tallies|
    ensures forall m | 0 <= m < |tallies| :: records[m] == ToRecord(tallies[m])
  {
    records := [];
    var k := 0;
    while k < |tallies|
      invariant 0 <= k <= |tallies|
      invariant |records| == k
      invariant forall m | 0 <= m < k :: records[m] == ToRecord(tallies[m])
    {
      records := records + [ToRecord(tallies[k])];
      k := k + 1;
    }
  }

  /** The aggregation loop of `scrape_absence_data`, over the rows the
      portal table yields, for the given time slot. */
  method ScrapeAbsenceData(rows: seq<RosterRow>, timeSlot: string) returns (records: seq<AbsenceRecord>)
    ensures Aggregates(Sightings(rows, timeSlot), ValidPeriods(timeSlot), records)
  {
    var tallies: seq<Tally> := [];
    var i := 0;
    while i < |rows|
      invariant 0 <= i <= |rows|
      invariant tallies == Collect(Sightings(rows[..i], timeSlot))
    {
      SightingsStep(rows, i, timeSlot);
      tallies := AbsorbRow(tallies, Sightings(rows[..i], timeSlot), rows[i], timeSlot);
      i := i + 1;
    }
    assert rows[..|rows|] == rows;
    records := ToRecords(tallies);
    RecordsAggregate(Sightings(rows, timeSlot), ValidPeriods(timeSlot), records);
  }
}
