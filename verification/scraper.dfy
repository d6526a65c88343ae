/** The string parsers of the roster scraper (src/scraper.py): the period
    text, the grade marker and the period clause of a course descriptor, and
    the `name(id)` entries of a student list. Each regular expression there is a
    small scanner over the remaining suffix of the text. */
module Scraper {
  import opened Wrappers
  import opened Digits

  /** One student's absence in one run: id, name, grade (1 or 2) and the
      periods missed, ascending. */
  datatype AbsenceRecord = AbsenceRecord(studentId: string, name: string, grade: nat, periods: seq<nat>)

  /** One `name(id)` entry of a roster's student list. */
  datatype Student = Student(id: string, name: string)

  /** The period unit that ends a period list, as in "1,2교시". */
  const PeriodUnit: string := "교시"

  /** The grade unit of a course's grade marker, as in "[2학년". */
  const GradeUnit: string := "학년"

  /** The regex class `[가-힣]`: a precomposed Hangul syllable. */
  predicate IsHangul(c: char) {
    '\U{AC00}' <= c <= '\U{D7A3}'
  }

  predicate AllHangul(s: string) {
    forall i | 0 <= i < |s| :: IsHangul(s[i])
  }

  predicate StartsWith(s: string, p: string) {
    |p| <= |s| && s[..|p|] == p
  }

  // ---------------------------------------------------------------------
  // parse_periods
  // ---------------------------------------------------------------------

  /** `s.split(sep)[0]`: the text before the first occurrence of `sep`, or
      all of `s` when `sep` does not occur. */
  function BeforeFirst(s: string, sep: string): (r: string)
    requires |sep| > 0
    ensures |r| <= |s| && r == s[..|r|]
    ensures |r| < |s| ==> StartsWith(s[|r|..], sep)
    ensures forall i | 0 <= i < |r| :: !StartsWith(s[i..], sep)
  {
    if |s| < |sep| then s
    else if s[..|sep|] == sep then ""
    else
      var r := [s[0]] + BeforeFirst(s[1..], sep);
      assert forall i | 1 <= i < |r| :: s[i..] == s[1..][i - 1..];
      r
  }

  /** `re.findall(r'\d+', s)` followed by `int()` of each match: the values
      of the maximal digit runs of `s`, left to right. */
  function DigitRuns(s: string): seq<nat>
    decreases |s|
  {
    if |s| == 0 then []
    else if IsDigit(s[0]) then
      var k := DigitRun(s);
      [Value(s[..k])] + DigitRuns(s[k..])
    else DigitRuns(s[1..])
  }

  /** `parse_periods`: the numbers written before the first "교시". */
  function ParsePeriods(periodText: string): seq<nat> {
    DigitRuns(BeforeFirst(periodText, PeriodUnit))
  }

  /** `split(sep)[0]` stops at the separator when the text before it cannot
      start one. */
  lemma BeforeFirstOf(x: string, sep: string, post: string)
    requires |sep| > 0
    requires forall i | 0 <= i < |x| :: x[i] != sep[0]
    ensures BeforeFirst(x + sep + post, sep) == x
  {
    var s := x + sep + post;
    var r := BeforeFirst(s, sep);
    assert s[|x|..][..|sep|] == sep;
    assert forall i | 0 <= i < |x| :: s[i] == x[i];
  }

  /** `parse_periods` reads the numbers written before the first "교시" and
      ignores everything after it. */
  lemma ParsePeriodsBeforeUnit(x: string, post: string)
    requires forall i | 0 <= i < |x| :: x[i] != PeriodUnit[0]
    ensures ParsePeriods(x + PeriodUnit + post) == DigitRuns(x)
  {
    BeforeFirstOf(x, PeriodUnit, post);
  }

  /** Without any "교시", `parse_periods` reads the numbers of the whole text. */
  lemma ParsePeriodsNoUnit(s: string)
    requires forall i | 0 <= i < |s| :: !StartsWith(s[i..], PeriodUnit)
    ensures ParsePeriods(s) == DigitRuns(s)
  {
    var r := BeforeFirst(s, PeriodUnit);
    assert |r| == |s|;
    assert s[..|s|] == s;
  }

  /** A digit string followed by a non-digit contributes exactly its value. */
  lemma DigitRunsCons(d: string, t: string)
    requires |d| > 0 && AllDigits(d)
    requires |t| == 0 || !IsDigit(t[0])
    ensures DigitRuns(d + t) == [Value(d)] + DigitRuns(t)
  {
    DigitRunOf(d, t);
    assert (d + t)[..|d|] == d;
    assert (d + t)[|d|..] == t;
  }

  /** Characters that are not digits contribute nothing. */
  lemma {:induction false} DigitRunsSkip(junk: string, t: string)
    requires forall i | 0 <= i < |junk| :: !IsDigit(junk[i])
    ensures DigitRuns(junk + t) == DigitRuns(t)
    decreases |junk|
  {
    if |junk| > 0 {
      assert (junk + t)[1..] == junk[1..] + t;
      DigitRunsSkip(junk[1..], t);
    } else {
      assert junk + t == t;
    }
  }

  // ---------------------------------------------------------------------
  // parse_grade
  // ---------------------------------------------------------------------

  /** The regex `\[(\d)\+?(\d)?학년` anchored at the start of `s`, giving the
      value `parse_grade` returns for it: the first digit, or 0 when a second
      digit is present. Taking `+` and the second digit greedily loses no
      match: when either is present but skipped, the next character is `+`
      or a digit, which cannot start "학년". */
  function GradeMarkerAt(s: string): Option<nat> {
    if 2 <= |s| && s[0] == '[' && IsDigit(s[1]) then
      var i := if 2 < |s| && s[2] == '+' then 3 else 2;
      var second := i < |s| && IsDigit(s[i]);
      var j := if second then i + 1 else i;
      if StartsWith(s[j..], GradeUnit) then Some(if second then 0 else DigitValue(s[1])) else None
    else None
  }

  /** The text of a grade marker: `[`, the digit `d`, an optional `+`, an
      optional second digit, then "학년" — `[N학년`, `[N+학년`, `[NM학년` or
      `[N+M학년`. */
  function MarkerText(d: char, plus: bool, second: Option<char>): string {
    "[" + [d] + (if plus then "+" else "") + (if second.Some? then [second.value] else "") + GradeUnit
  }

  /** `s` starts with a grade marker of that shape. */
  predicate GradeMarker(s: string, d: char, plus: bool, second: Option<char>) {
    IsDigit(d) && (second.Some? ==> IsDigit(second.value)) && StartsWith(s, MarkerText(d, plus, second))
  }

  /** What `parse_grade` returns for a marker: 0 when it names two grades,
      else its digit. */
  function MarkerValue(d: char, second: Option<char>): nat
    requires IsDigit(d)
  {
    if second.Some? then 0 else DigitValue(d)
  }

  /** The anchored scanner matches exactly when `s` starts with a marker of
      one of the four shapes, and then gives that marker's value. */
  lemma GradeMarkerAtSpec(s: string)
    ensures GradeMarkerAt(s).Some? <==> exists d, plus, second :: GradeMarker(s, d, plus, second)
    ensures forall d, plus, second | GradeMarker(s, d, plus, second) :: GradeMarkerAt(s) == Some(MarkerValue(d, second))
  {
    forall d, plus, second | GradeMarker(s, d, plus, second)
      ensures GradeMarkerAt(s) == Some(MarkerValue(d, second))
    {
      MarkerGivesValue(s, d, plus, second);
    }
    if GradeMarkerAt(s).Some? {
      var plus := 2 < |s| && s[2] == '+';
      var i := if plus then 3 else 2;
      var second := if i < |s| && IsDigit(s[i]) then Some(s[i]) else None;
      var j := if second.Some? then i + 1 else i;
      var p := MarkerText(s[1], plus, second);
      assert |p| == j + 2;
      assert s[j..][..2] == GradeUnit;
      assert s[..|p|] == p;
      assert GradeMarker(s, s[1], plus, second);
    }
  }

  /** A marker of a given shape is read with that shape: the scanner's
      greedy choices agree with it, since `+`, a digit and "학" are distinct. */
  lemma MarkerGivesValue(s: string, d: char, plus: bool, second: Option<char>)
    requires GradeMarker(s, d, plus, second)
    ensures GradeMarkerAt(s) == Some(MarkerValue(d, second))
  {
    var p := MarkerText(d, plus, second);
    var i := if plus then 3 else 2;
    var j := if second.Some? then i + 1 else i;
    assert |p| == j + 2;
    forall k | 0 <= k < |p|
      ensures s[k] == p[k]
    {
      assert s[..|p|][k] == s[k];
    }
    assert s[2] == (if plus then '+' else if second.Some? then second.value else '학');
    assert s[i] == (if second.Some? then second.value else '학');
    assert s[j..][..2] == p[j..];
  }

  /** `re.search` for the grade marker: the value at the leftmost position
      where it matches (see FindGradeMarkerSpec). */
  function FindGradeMarker(s: string): (r: Option<nat>)
    ensures r.Some? ==> r.value < 10
    decreases |s|
  {
    if |s| == 0 then None
    else if GradeMarkerAt(s).Some? then GradeMarkerAt(s)
    else FindGradeMarker(s[1..])
  }

  /** No match iff no position starts a marker; otherwise the value comes
      from the leftmost position that does. */
  lemma {:induction false} FindGradeMarkerSpec(s: string)
    ensures FindGradeMarker(s).None? <==> forall i | 0 <= i < |s| :: GradeMarkerAt(s[i..]).None?
    ensures FindGradeMarker(s).Some? ==> exists i | 0 <= i < |s| ::
      GradeMarkerAt(s[i..]) == FindGradeMarker(s) && forall j | 0 <= j < i :: GradeMarkerAt(s[j..]).None?
    decreases |s|
  {
    if |s| > 0 {
      assert s[0..] == s;
      if GradeMarkerAt(s).None? {
        FindGradeMarkerSpec(s[1..]);
        GradeShift(s, FindGradeMarker(s[1..]));
      }
    }
  }

  lemma GradeShift(s: string, r: Option<nat>)
    requires |s| > 0 && GradeMarkerAt(s).None?
    requires r.None? <==> forall i | 0 <= i < |s| - 1 :: GradeMarkerAt(s[1..][i..]).None?
    requires r.Some? ==> exists i | 0 <= i < |s| - 1 ::
      GradeMarkerAt(s[1..][i..]) == r && forall j | 0 <= j < i :: GradeMarkerAt(s[1..][j..]).None?
    ensures r.None? <==> forall i | 0 <= i < |s| :: GradeMarkerAt(s[i..]).None?
    ensures r.Some? ==> exists i | 0 <= i < |s| ::
      GradeMarkerAt(s[i..]) == r && forall j | 0 <= j < i :: GradeMarkerAt(s[j..]).None?
  {
    assert s[0..] == s;
    assert forall i | 1 <= i < |s| :: s[1..][i - 1..] == s[i..];
    if r.Some? {
      var i :| 0 <= i < |s| - 1 && GradeMarkerAt(s[1..][i..]) == r && forall j | 0 <= j < i :: GradeMarkerAt(s[1..][j..]).None?;
      assert GradeMarkerAt(s[i + 1..]) == r;
      forall j | 0 <= j < i + 1
        ensures GradeMarkerAt(s[j..]).None?
      {
        if j > 0 {
          assert s[1..][j - 1..] == s[j..];
        }
      }
    }
  }

  /** `parse_grade`: the course's grade scope, 0 meaning common to both grades. */
  function ParseGrade(courseInfo: string): (g: nat)
    ensures g < 10
  {
    FindGradeMarker(courseInfo).GetOr(0)
  }

  /** Text without a `[` cannot hold a grade marker, so it is skipped. */
  lemma {:induction false} GradeSkip(pre: string, t: string)
    requires forall i | 0 <= i < |pre| :: pre[i] != '['
    ensures FindGradeMarker(pre + t) == FindGradeMarker(t)
    decreases |pre|
  {
    if |pre| > 0 {
      assert (pre + t)[0] == pre[0];
      assert (pre + t)[1..] == pre[1..] + t;
      GradeSkip(pre[1..], t);
    } else {
      assert pre + t == t;
    }
  }

  /** `[N학년` (or `[N+학년`) as the first marker gives grade N. */
  lemma ParseGradeSingle(pre: string, n: nat, plus: bool, post: string)
    requires n < 10
    requires forall i | 0 <= i < |pre| :: pre[i] != '['
    ensures ParseGrade(pre + "[" + [DigitChar(n)] + (if plus then "+" else "") + GradeUnit + post) == n
  {
    var m := "[" + [DigitChar(n)] + (if plus then "+" else "") + GradeUnit + post;
    assert pre + "[" + [DigitChar(n)] + (if plus then "+" else "") + GradeUnit + post == pre + m;
    GradeSkip(pre, m);
    SingleMarker(n, plus, post);
    MarkerAtFront(m);
  }

  lemma SingleMarker(n: nat, plus: bool, post: string)
    requires n < 10
    ensures GradeMarkerAt("[" + [DigitChar(n)] + (if plus then "+" else "") + GradeUnit + post) == Some(n)
  {
    var m := "[" + [DigitChar(n)] + (if plus then "+" else "") + GradeUnit + post;
    var j := if plus then 3 else 2;
    assert m[j..][..|GradeUnit|] == GradeUnit;
  }

  /** `[N+M학년` (or `[NM학년`) as the first marker gives the common scope 0. */
  lemma ParseGradeCombined(pre: string, n: nat, m: nat, plus: bool, post: string)
    requires n < 10 && m < 10
    requires forall i | 0 <= i < |pre| :: pre[i] != '['
    ensures ParseGrade(pre + "[" + [DigitChar(n)] + (if plus then "+" else "") + [DigitChar(m)] + GradeUnit + post) == 0
  {
    var t := "[" + [DigitChar(n)] + (if plus then "+" else "") + [DigitChar(m)] + GradeUnit + post;
    assert pre + "[" + [DigitChar(n)] + (if plus then "+" else "") + [DigitChar(m)] + GradeUnit + post == pre + t;
    GradeSkip(pre, t);
    CombinedMarker(n, m, plus, post);
    MarkerAtFront(t);
  }

  lemma CombinedMarker(n: nat, m: nat, plus: bool, post: string)
    requires n < 10 && m < 10
    ensures GradeMarkerAt("[" + [DigitChar(n)] + (if plus then "+" else "") + [DigitChar(m)] + GradeUnit + post) == Some(0)
  {
    var t := "[" + [DigitChar(n)] + (if plus then "+" else "") + [DigitChar(m)] + GradeUnit + post;
    var j := if plus then 4 else 3;
    assert t[j..][..|GradeUnit|] == GradeUnit;
  }

  /** A marker at the very start is the one `re.search` finds. */
  lemma MarkerAtFront(t: string)
    requires GradeMarkerAt(t).Some?
    ensures FindGradeMarker(t) == GradeMarkerAt(t)
  {
  }

  /** `parse_grade` gives the value of the leftmost marker. */
  lemma ParseGradeSpec(s: string, i: nat, d: char, plus: bool, second: Option<char>)
    requires i < |s| && GradeMarker(s[i..], d, plus, second)
    requires forall j: nat, d', plus', second' | j < i :: !GradeMarker(s[j..], d', plus', second')
    ensures ParseGrade(s) == MarkerValue(d, second)
  {
    GradeMarkerAtSpec(s[i..]);
    forall j | 0 <= j < i
      ensures GradeMarkerAt(s[j..]).None?
    {
      GradeMarkerAtSpec(s[j..]);
    }
    var r := FindGradeMarker(s);
    FindGradeMarkerSpec(s);
    var i' :| 0 <= i' < |s| && GradeMarkerAt(s[i'..]) == r && forall j | 0 <= j < i' :: GradeMarkerAt(s[j..]).None?;
    assert i' == i;
  }

  /** With no marker at any position, `parse_grade` gives 0, the common scope. */
  lemma ParseGradeNoMarker(s: string)
    requires forall i: nat, d, plus, second | i < |s| :: !GradeMarker(s[i..], d, plus, second)
    ensures ParseGrade(s) == 0
  {
    forall i | 0 <= i < |s|
      ensures GradeMarkerAt(s[i..]).None?
    {
      GradeMarkerAtSpec(s[i..]);
    }
    FindGradeMarkerSpec(s);
  }

  /** A bracket that opens no marker names no grade. */
  lemma BracketWithoutMarker()
    ensures ParseGrade("[국어 1,2교시]") == 0
  {
    var a := "[국어 1,2교시]";
    assert GradeMarkerAt(a).None?;
    assert a[1..] + "" == a[1..];
    GradeSkip(a[1..], "");
  }

  /** A bracket that opens no marker is passed over: the next one gives the
      grade. */
  lemma MarkerAfterBracket()
    ensures ParseGrade("[1반] " + "[2학년 국어]") == 2
  {
    var m := "[" + [DigitChar(2)] + (if false then "+" else "") + GradeUnit + " 국어]";
    SingleMarker(2, false, " 국어]");
    MarkerAtFront(m);
    var pre := "1반] ";
    GradeSkip(pre, m);
    var b := "[" + (pre + m);
    assert b[1..] == pre + m;
    assert GradeMarkerAt(b).None? by {
      assert b[..3] == "[1반";
    }
    assert m == "[2학년 국어]";
    assert b == "[1반] " + "[2학년 국어]";
  }

  /** A descriptor with no `[` has no marker: common scope. */
  lemma NoBracketNoGrade(s: string)
    requires forall i | 0 <= i < |s| :: s[i] != '['
    ensures ParseGrade(s) == 0
  {
    GradeSkip(s, "");
    assert s + "" == s;
  }

  // ---------------------------------------------------------------------
  // parse_period_from_course
  // ---------------------------------------------------------------------

  /** Text of the form `\d+(?:,\d+)*`: digit runs separated by single commas. */
  predicate NumberList(t: string) {
    && |t| > 0 && IsDigit(t[0]) && IsDigit(t[|t| - 1])
    && forall i | 0 <= i < |t| :: IsDigit(t[i]) || (t[i] == ',' && i + 1 < |t| && IsDigit(t[i + 1]))
  }

  /** Length of the longest prefix of `s` of the form `\d+(?:,\d+)*`, where
      `s` starts with a digit. Each run is maximal, so a comma is taken
      exactly when a digit follows it. */
  function NumberListLength(s: string): (k: nat)
    requires |s| > 0 && IsDigit(s[0])
    ensures 0 < k <= |s| && NumberList(s[..k])
    ensures k < |s| ==> !IsDigit(s[k]) && (s[k] != ',' || k + 1 == |s| || !IsDigit(s[k + 1]))
    decreases |s|
  {
    var d := DigitRun(s);
    if d + 1 < |s| && s[d] == ',' && IsDigit(s[d + 1]) then
      var k := d + 1 + NumberListLength(s[d + 1..]);
      NumberListCons(s, d, k);
      k
    else
      d
  }

  /** A digit run, a comma and a number list form a number list. */
  lemma NumberListCons(s: string, d: nat, k: nat)
    requires 0 < d < k <= |s|
    requires AllDigits(s[..d]) && s[d] == ','
    requires NumberList(s[d + 1..][..k - d - 1])
    ensures NumberList(s[..k])
  {
    var u := s[d + 1..][..k - d - 1];
    assert forall i | d + 1 <= i < k :: s[..k][i] == u[i - (d + 1)];
    assert forall i | 0 <= i < d :: s[..k][i] == s[..d][i];
  }

  /** The regex `(\d+(?:,\d+)*)교시\]` anchored at the start of `s`, giving the
      integers of its first group. Backtracking cannot help: a shorter run or
      fewer repetitions would leave a digit or a comma where "교시]" must
      begin. */
  function PeriodClauseAt(s: string): Option<seq<nat>> {
    if |s| > 0 && IsDigit(s[0]) then
      var k := NumberListLength(s);
      if StartsWith(s[k..], PeriodUnit + "]") then Some(DigitRuns(s[..k])) else None
    else None
  }

  /** The clause `(\d+(?:,\d+)*)교시\]` occupies the start of `s`, its number
      list being the first `k` characters. */
  predicate ClauseAt(s: string, k: nat) {
    k <= |s| && NumberList(s[..k]) && StartsWith(s[k..], PeriodUnit + "]")
  }

  /** A number list ends where a character that is neither a digit nor a
      comma follows it, so its length is the scanner's. */
  lemma {:induction false} NumberListMaximal(s: string, k: nat)
    requires k < |s| && NumberList(s[..k]) && !IsDigit(s[k]) && s[k] != ','
    ensures NumberListLength(s) == k
    decreases k
  {
    var d := DigitRun(s);
    assert s[..k][0] == s[0];
    if d < k {
      assert s[..k][d] == s[d];
      var u := s[d + 1..];
      var n := k - d - 1;
      assert u[..n] == s[..k][d + 1..];
      NumberListMaximal(u, n);
    }
  }

  /** The anchored clause matches exactly when `s` starts with a number list
      followed by "교시]", and then yields that list's numbers. */
  lemma PeriodClauseAtSpec(s: string)
    ensures PeriodClauseAt(s).Some? <==> exists k: nat :: ClauseAt(s, k)
    ensures forall k: nat | ClauseAt(s, k) :: PeriodClauseAt(s) == Some(DigitRuns(s[..k]))
  {
    forall k: nat | ClauseAt(s, k)
      ensures PeriodClauseAt(s) == Some(DigitRuns(s[..k]))
    {
      assert s[..k][0] == s[0];
      assert s[k..][0] == s[k];
      NumberListMaximal(s, k);
    }
    if PeriodClauseAt(s).Some? {
      assert ClauseAt(s, NumberListLength(s));
    }
  }

  /** `re.search` for the period clause: the leftmost position where it matches. */
  function FindPeriodClause(s: string): Option<seq<nat>>
    decreases |s|
  {
    if |s| == 0 then None
    else if PeriodClauseAt(s).Some? then PeriodClauseAt(s)
    else FindPeriodClause(s[1..])
  }

  /** No match iff no position starts a clause; otherwise the result is the
      leftmost clause's numbers. */
  lemma {:induction false} FindPeriodClauseSpec(s: string)
    ensures FindPeriodClause(s).None? <==> forall i | 0 <= i < |s| :: PeriodClauseAt(s[i..]).None?
    ensures FindPeriodClause(s).Some? ==> exists i | 0 <= i < |s| ::
      PeriodClauseAt(s[i..]) == FindPeriodClause(s) && forall j | 0 <= j < i :: PeriodClauseAt(s[j..]).None?
    decreases |s|
  {
    if |s| > 0 {
      assert s[0..] == s;
      if PeriodClauseAt(s).None? {
        FindPeriodClauseSpec(s[1..]);
        ClauseShift(s, FindPeriodClause(s[1..]));
      }
    }
  }

  lemma ClauseShift(s: string, r: Option<seq<nat>>)
    requires |s| > 0 && PeriodClauseAt(s).None?
    requires r.None? <==> forall i | 0 <= i < |s| - 1 :: PeriodClauseAt(s[1..][i..]).None?
    requires r.Some? ==> exists i | 0 <= i < |s| - 1 ::
      PeriodClauseAt(s[1..][i..]) == r && forall j | 0 <= j < i :: PeriodClauseAt(s[1..][j..]).None?
    ensures r.None? <==> forall i | 0 <= i < |s| :: PeriodClauseAt(s[i..]).None?
    ensures r.Some? ==> exists i | 0 <= i < |s| ::
      PeriodClauseAt(s[i..]) == r && forall j | 0 <= j < i :: PeriodClauseAt(s[j..]).None?
  {
    assert s[0..] == s;
    assert forall i | 1 <= i < |s| :: s[1..][i - 1..] == s[i..];
    if r.Some? {
      var i :| 0 <= i < |s| - 1 && PeriodClauseAt(s[1..][i..]) == r && forall j | 0 <= j < i :: PeriodClauseAt(s[1..][j..]).None?;
      assert PeriodClauseAt(s[i + 1..]) == r;
      forall j | 0 <= j < i + 1
        ensures PeriodClauseAt(s[j..]).None?
      {
        if j > 0 {
          assert s[1..][j - 1..] == s[j..];
        }
      }
    }
  }

  /** `parse_period_from_course`: the periods of the `…1,2교시]` clause, or
      none when the descriptor has no such clause. */
  function ParsePeriodFromCourse(courseInfo: string): seq<nat> {
    FindPeriodClause(courseInfo).GetOr([])
  }

  /** `parse_period_from_course` gives the numbers of the leftmost clause
      `…교시]`, and nothing when no position starts one. */
  lemma ParsePeriodFromCourseSpec(c: string, i: nat, k: nat)
    requires i < |c| && ClauseAt(c[i..], k)
    requires forall j: nat, m: nat | j < i :: !ClauseAt(c[j..], m)
    ensures ParsePeriodFromCourse(c) == DigitRuns(c[i..][..k])
  {
    PeriodClauseAtSpec(c[i..]);
    forall j | 0 <= j < i
      ensures PeriodClauseAt(c[j..]).None?
    {
      PeriodClauseAtSpec(c[j..]);
    }
    var r := FindPeriodClause(c);
    FindPeriodClauseSpec(c);
    var i' :| 0 <= i' < |c| && PeriodClauseAt(c[i'..]) == r && forall j | 0 <= j < i' :: PeriodClauseAt(c[j..]).None?;
    assert i' == i;
  }

  /** With no clause anywhere, `parse_period_from_course` gives no periods. */
  lemma NoClauseNoPeriods(c: string)
    requires forall i: nat, k: nat | i < |c| :: !ClauseAt(c[i..], k)
    ensures ParsePeriodFromCourse(c) == []
  {
    FindPeriodClauseSpec(c);
    forall i | 0 <= i < |c|
      ensures PeriodClauseAt(c[i..]).None?
    {
      PeriodClauseAtSpec(c[i..]);
    }
  }

  /** Text without digits cannot start a period clause, so it is skipped. */
  lemma {:induction false} PeriodClauseSkip(pre: string, t: string)
    requires forall i | 0 <= i < |pre| :: !IsDigit(pre[i])
    ensures FindPeriodClause(pre + t) == FindPeriodClause(t)
    decreases |pre|
  {
    if |pre| > 0 {
      assert (pre + t)[0] == pre[0];
      assert (pre + t)[1..] == pre[1..] + t;
      PeriodClauseSkip(pre[1..], t);
    } else {
      assert pre + t == t;
    }
  }

  /** Text before a clause: it holds no `]` and does not end in a digit or a
      comma, so no number list reaching into what follows can start in it. */
  predicate ClauseFree(pre: string) {
    && (forall i | 0 <= i < |pre| :: pre[i] != ']')
    && (|pre| == 0 || (!IsDigit(pre[|pre| - 1]) && pre[|pre| - 1] != ','))
  }

  /** No period clause starts inside such text when a digit follows it: a
      number list begun there stops before the text's last character, so the
      `]` of "교시]" would have to lie in the text or on that digit. */
  lemma NoClauseInside(pre: string, t: string)
    requires |pre| > 0 && ClauseFree(pre)
    requires |t| > 0 && IsDigit(t[0])
    ensures PeriodClauseAt(pre + t).None?
  {
    var u := pre + t;
    var last := |pre| - 1;
    if IsDigit(u[0]) {
      var k := NumberListLength(u);
      assert forall i | 0 <= i < k :: IsDigit(u[i]) || u[i] == ',' by {
        forall i | 0 <= i < k
          ensures IsDigit(u[i]) || u[i] == ','
        {
          assert u[..k][i] == u[i];
        }
      }
      assert u[last] == pre[last];
      assert k <= last;
      var close := PeriodUnit + "]";
      if k + 2 < |pre| {
        assert u[k..][2] == pre[k + 2];
        NotStartsWith(u[k..], close, 2);
      } else if k + 2 == |pre| {
        assert u[k..][2] == t[0];
        NotStartsWith(u[k..], close, 2);
      } else {
        assert u[k..][1] == t[0];
        NotStartsWith(u[k..], close, 1);
      }
    }
  }

  /** A text that differs from `p` at some position of `p` does not start with it. */
  lemma NotStartsWith(s: string, p: string, i: nat)
    requires i < |p| && (i >= |s| || s[i] != p[i])
    ensures !StartsWith(s, p)
  {
    if |p| <= |s| {
      assert s[..|p|][i] == s[i];
    }
  }

  /** Clause-free text in front of a number list is skipped by the search. */
  lemma {:induction false} ClauseFreeSkip(pre: string, t: string)
    requires ClauseFree(pre)
    requires |t| > 0 && IsDigit(t[0])
    ensures FindPeriodClause(pre + t) == FindPeriodClause(t)
    decreases |pre|
  {
    if |pre| > 0 {
      NoClauseInside(pre, t);
      assert (pre + t)[1..] == pre[1..] + t;
      if |pre| > 1 {
        assert pre[1..][|pre[1..]| - 1] == pre[|pre| - 1];
      }
      ClauseFreeSkip(pre[1..], t);
    } else {
      assert pre + t == t;
    }
  }

  /** A descriptor with no digit has no period clause. */
  lemma NoDigitsNoPeriods(s: string)
    requires forall i | 0 <= i < |s| :: !IsDigit(s[i])
    ensures ParsePeriodFromCourse(s) == []
  {
    PeriodClauseSkip(s, "");
    assert s + "" == s;
  }

  // ---------------------------------------------------------------------
  // parse_students
  // ---------------------------------------------------------------------

  /** Length of the longest all-Hangul prefix of `s` (a greedy `[가-힣]+`). */
  function HangulRun(s: string): (k: nat)
    ensures k <= |s| && AllHangul(s[..k])
    ensures k < |s| ==> !IsHangul(s[k])
  {
    if |s| > 0 && IsHangul(s[0]) then
      var k := 1 + HangulRun(s[1..]);
      assert s[..k] == [s[0]] + s[1..][..k - 1];
      k
    else 0
  }

  /** A Hangul run stops exactly where the Hangul letters stop. */
  lemma HangulRunOf(name: string, t: string)
    requires AllHangul(name)
    requires |t| == 0 || !IsHangul(t[0])
    ensures HangulRun(name + t) == |name|
  {
    assert (name + t)[..|name|] == name;
  }

  /** What `parse_students` accepts: a 5-digit id and a non-empty Hangul name. */
  predicate ValidStudent(st: Student) {
    |st.id| == 5 && AllDigits(st.id) && |st.name| > 0 && AllHangul(st.name)
  }

  /** The text `name(id)` of one student-list entry. */
  function Entry(st: Student): string {
    st.name + "(" + st.id + ")"
  }

  /** The regex `([가-힣]+)\((\d{5})\)` anchored at the start of `s`: the
      student it matches and the length of the match. A shorter name would be
      followed by a Hangul letter, not `(`, so the greedy run is the only
      candidate. */
  function StudentAt(s: string): (r: Option<(Student, nat)>)
    ensures r.Some? ==> 0 < r.value.1 <= |s| && ValidStudent(r.value.0) && s[..r.value.1] == Entry(r.value.0)
  {
    var n := HangulRun(s);
    if 0 < n && n + 7 <= |s| && s[n] == '(' && AllDigits(s[n + 1..n + 6]) && s[n + 6] == ')' then
      var st := Student(s[n + 1..n + 6], s[..n]);
      assert s[..n + 7] == s[..n] + "(" + s[n + 1..n + 6] + ")";
      Some((st, n + 7))
    else None
  }

  /** Conversely, a well-formed entry at the front is matched there, whole. */
  lemma EntryMatched(st: Student, t: string)
    requires ValidStudent(st)
    ensures StudentAt(Entry(st) + t) == Some((st, |Entry(st)|))
  {
    var s := Entry(st) + t;
    var n := |st.name|;
    assert s == st.name + ("(" + st.id + ")" + t);
    HangulRunOf(st.name, "(" + st.id + ")" + t);
    assert s[..n] == st.name;
    assert s[n] == '(';
    assert s[n + 1..n + 6] == st.id;
    assert s[n + 6] == ')';
  }

  /** The anchored match succeeds exactly when the text starts with a
      well-formed entry. */
  lemma StudentAtSpec(s: string)
    ensures StudentAt(s).Some? <==> exists st :: ValidStudent(st) && StartsWith(s, Entry(st))
  {
    if StudentAt(s).Some? {
      var st := StudentAt(s).value.0;
      assert ValidStudent(st) && StartsWith(s, Entry(st));
    }
    if exists st :: ValidStudent(st) && StartsWith(s, Entry(st)) {
      var st :| ValidStudent(st) && StartsWith(s, Entry(st));
      var e := Entry(st);
      assert s == e + s[|e|..];
      EntryMatched(st, s[|e|..]);
    }
  }

  /** `parse_students` (`re.findall` of the entry pattern): the entries of
      the list, left to right; text of any other shape is skipped a
      character at a time. */
  function ParseStudents(studentText: string): (students: seq<Student>)
    ensures forall k | 0 <= k < |students| :: ValidStudent(students[k])
    decreases |studentText|
  {
    if |studentText| == 0 then []
    else
      match StudentAt(studentText)
      case Some((st, n)) => [st] + ParseStudents(studentText[n..])
      case None => ParseStudents(studentText[1..])
  }

  /** Text without Hangul letters cannot start an entry, so it is skipped. */
  lemma {:induction false} StudentsSkip(junk: string, t: string)
    requires forall i | 0 <= i < |junk| :: !IsHangul(junk[i])
    ensures ParseStudents(junk + t) == ParseStudents(t)
    decreases |junk|
  {
    if |junk| > 0 {
      assert (junk + t)[0] == junk[0];
      assert (junk + t)[1..] == junk[1..] + t;
      StudentsSkip(junk[1..], t);
    } else {
      assert junk + t == t;
    }
  }

  /** A well-formed entry at the front is matched whole. */
  lemma StudentsEntry(st: Student, t: string)
    requires ValidStudent(st)
    ensures ParseStudents(Entry(st) + t) == [st] + ParseStudents(t)
  {
    var s := Entry(st) + t;
    var n := |st.name|;
    assert s == st.name + ("(" + st.id + ")" + t);
    assert s[..n] == st.name;
    assert s[n] == '(';
    assert s[n + 1..n + 6] == st.id;
    assert s[n + 6] == ')';
    assert s[..n + 7][..n] == st.name;
    HangulRunOf(st.name, "(" + st.id + ")" + t);
    assert s[n + 7..] == t;
  }

  /** A Hangul word followed by anything but `(` is no entry, and neither is
      any of its suffixes: the word is skipped. */
  lemma {:induction false} WordSkip(word: string, t: string)
    requires AllHangul(word)
    requires |t| > 0 && !IsHangul(t[0]) && t[0] != '('
    ensures ParseStudents(word + t) == ParseStudents(t)
    decreases |word|
  {
    if |word| > 0 {
      var s := word + t;
      HangulRunOf(word, t);
      assert s[|word|] == t[0];
      assert StudentAt(s) == None;
      assert s[1..] == word[1..] + t;
      WordSkip(word[1..], t);
    } else {
      assert word + t == t;
    }
  }

  /** The student list as the portal renders it: entries joined by ", ". */
  function RenderStudents(students: seq<Student>): string {
    if |students| == 0 then ""
    else if |students| == 1 then Entry(students[0])
    else Entry(students[0]) + ", " + RenderStudents(students[1..])
  }

  /** Every well-formed entry of a rendered list is found, in order, and
      nothing else is. */
  lemma {:induction false} ParseStudentsRoundTrip(students: seq<Student>)
    requires forall k | 0 <= k < |students| :: ValidStudent(students[k])
    ensures ParseStudents(RenderStudents(students)) == students
  {
    if |students| == 1 {
      StudentsEntry(students[0], "");
      assert Entry(students[0]) + "" == Entry(students[0]);
    } else if |students| > 1 {
      var rest := RenderStudents(students[1..]);
      StudentsSeparated(students[0], rest);
      ParseStudentsRoundTrip(students[1..]);
      assert [students[0]] + students[1..] == students;
    }
  }

  /** An entry and the ", " after it give the entry, then whatever follows. */
  lemma StudentsSeparated(st: Student, rest: string)
    requires ValidStudent(st)
    ensures ParseStudents(Entry(st) + ", " + rest) == [st] + ParseStudents(rest)
  {
    assert Entry(st) + ", " + rest == Entry(st) + (", " + rest);
    StudentsEntry(st, ", " + rest);
    StudentsSkip(", ", rest);
  }

  /** `re.findall` finds nothing iff no position of the text starts an entry. */
  lemma {:induction false} NoStudentsSpec(s: string)
    ensures |ParseStudents(s)| == 0 <==> forall i {:trigger StudentAt(s[i..])} | 0 <= i < |s| :: StudentAt(s[i..]).None?
    decreases |s|
  {
    if |s| > 0 {
      assert s[0..] == s;
      if StudentAt(s).None? {
        NoStudentsSpec(s[1..]);
        assert forall i | 1 <= i < |s| :: s[1..][i - 1..] == s[i..];
      }
    }
  }

  /** `re.findall` resumes after each match: when position `i` is the leftmost
      one starting an entry, that entry is the first student found and the
      search goes on right after it. */
  lemma ParseStudentsSpec(s: string, i: nat)
    requires i < |s| && StudentAt(s[i..]).Some?
    requires forall j {:trigger StudentAt(s[j..])} | 0 <= j < i :: StudentAt(s[j..]).None?
    ensures ParseStudents(s) == [StudentAt(s[i..]).value.0] + ParseStudents(s[i + StudentAt(s[i..]).value.1..])
  {
    var m := StudentAt(s[i..]).value;
    StudentsDrop(s, i);
    StudentsAtEntry(s[i..]);
    assert s[i..][m.1..] == s[i + m.1..];
  }

  /** Positions that start no entry are skipped one by one. */
  lemma {:induction false} StudentsDrop(s: string, i: nat)
    requires i <= |s|
    requires forall j {:trigger StudentAt(s[j..])} | 0 <= j < i :: StudentAt(s[j..]).None?
    ensures ParseStudents(s) == ParseStudents(s[i..])
    decreases i
  {
    assert s[0..] == s;
    if i > 0 {
      StudentsNoEntry(s);
      StudentsShift(s, i);
      StudentsDrop(s[1..], i - 1);
      assert s[1..][i - 1..] == s[i..];
    }
  }

  /** A position that starts an entry contributes it. */
  lemma StudentsAtEntry(s: string)
    requires |s| > 0 && StudentAt(s).Some?
    ensures ParseStudents(s) == [StudentAt(s).value.0] + ParseStudents(s[StudentAt(s).value.1..])
  {
  }

  /** A position that starts no entry is skipped. */
  lemma StudentsNoEntry(s: string)
    requires |s| > 0 && StudentAt(s).None?
    ensures ParseStudents(s) == ParseStudents(s[1..])
  {
  }

  lemma StudentsShift(s: string, i: nat)
    requires 0 < i <= |s|
    requires forall j {:trigger StudentAt(s[j..])} | 0 <= j < i :: StudentAt(s[j..]).None?
    ensures forall j {:trigger StudentAt(s[1..][j..])} | 0 <= j < i - 1 :: StudentAt(s[1..][j..]).None?
  {
    forall j | 0 <= j < i - 1
      ensures StudentAt(s[1..][j..]).None?
    {
      assert s[1..][j..] == s[j + 1..];
    }
  }
}
