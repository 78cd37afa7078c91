/** `svcSummary` (dashboard.service.js): fold a user's enrollment records into
    the dashboard's KPIs, pick the highlighted active course, list one summary
    row per enrollment, and fetch the next lessons of the active course. The
    stored `progressPercent` and `totalLessons` attributes are used as they are.
    The repository is a `Store` from course id to that course's two query
    results. */
module Enrollments {
  import opened Options
  import opened Strings
  import opened Keys
  import opened NextLessons

  datatype Enrollment = Enrollment(sk: string, title: Option<string>, status: Option<string>,
                                   updatedAt: Option<string>, tags: Option<seq<string>>,
                                   totalLessons: Option<int>, progressPercent: Option<int>)

  /** What the course-partition queries return, per course id; a course with no
      entry has no records (`r.Items || []`). */
  datatype Store = Store(trees: map<string, seq<TreeItem>>, progress: map<string, seq<ProgressItem>>)

  function TreeOf(store: Store, courseId: string): seq<TreeItem> {
    if courseId in store.trees then store.trees[courseId] else []
  }

  function ProgressOf(store: Store, courseId: string): seq<ProgressItem> {
    if courseId in store.progress then store.progress[courseId] else []
  }

  // ---- Status classes ----------------------------------------------------

  /** `e.status || 'active'`. */
  function StatusOf(e: Enrollment): string {
    match e.status
    case None => "active"
    case Some(s) => if s == "" then "active" else s
  }

  predicate IsActive(e: Enrollment) {
    StatusOf(e) == "active"
  }

  predicate IsCompleted(e: Enrollment) {
    e.status == Some("completed")
  }

  /** Active means a missing, empty or `active` status; completed means exactly
      `completed`; no enrollment is both. */
  lemma StatusClasses(e: Enrollment)
    ensures IsActive(e) <==> e.status == None || e.status == Some("") || e.status == Some("active")
    ensures !(IsActive(e) && IsCompleted(e))
  {
  }

  /** The active enrollments, in input order. */
  function ActiveOf(es: seq<Enrollment>): seq<Enrollment> {
    if es == [] then []
    else ActiveOf(es[..|es| - 1]) + (if IsActive(es[|es| - 1]) then [es[|es| - 1]] else [])
  }

  /** The enrollments whose status is exactly `completed`, in input order. */
  function CompletedOf(es: seq<Enrollment>): seq<Enrollment> {
    if es == [] then []
    else CompletedOf(es[..|es| - 1]) + (if IsCompleted(es[|es| - 1]) then [es[|es| - 1]] else [])
  }

  /** The two counts together cover at most every enrollment, and all of them
      exactly when no enrollment has another status. */
  lemma {:induction false} CountsPartition(es: seq<Enrollment>)
    ensures |ActiveOf(es)| + |CompletedOf(es)| <= |es|
    ensures |ActiveOf(es)| + |CompletedOf(es)| == |es| <==>
              forall i :: 0 <= i < |es| ==> IsActive(es[i]) || IsCompleted(es[i])
  {
    if es != [] {
      var init := es[..|es| - 1];
      CountsPartition(init);
      assert forall i :: 0 <= i < |init| ==> init[i] == es[i];
    }
  }

  // ---- Average progress --------------------------------------------------

  /** The sum of `progressPercent` over all enrollments, a missing one counting 0. */
  function ProgressSum(es: seq<Enrollment>): int {
    if es == [] then 0 else ProgressSum(es[..|es| - 1]) + es[|es| - 1].progressPercent.GetOr(0)
  }

  /** `Math.round(sum / n)`: the integer nearest to the mean, halves rounded up. */
  function RoundedMean(sum: int, n: nat): (r: int)
    requires n > 0
    ensures 2 * n * r - n <= 2 * sum < 2 * n * r + n
  {
    (2 * sum + n) / (2 * n)
  }

  /** The `avgProgressPercent` KPI: 0 without enrollments, else the rounded mean
      over enrollments of every status. */
  function AvgProgress(es: seq<Enrollment>): (r: int)
    ensures |es| == 0 ==> r == 0
    ensures |es| > 0 ==> 2 * |es| * r - |es| <= 2 * ProgressSum(es) < 2 * |es| * r + |es|
  {
    if |es| > 0 then RoundedMean(ProgressSum(es), |es|) else 0
  }

  lemma {:induction false} ProgressSumBounds(es: seq<Enrollment>)
    requires forall i :: 0 <= i < |es| ==> 0 <= es[i].progressPercent.GetOr(0) <= 100
    ensures 0 <= ProgressSum(es) <= 100 * |es|
  {
    if es != [] {
      ProgressSumBounds(es[..|es| - 1]);
    }
  }

  /** With every stored percentage within [0, 100], so is the average. */
  lemma AvgProgressBounds(es: seq<Enrollment>)
    requires forall i :: 0 <= i < |es| ==> 0 <= es[i].progressPercent.GetOr(0) <= 100
    ensures 0 <= AvgProgress(es) <= 100
  {
    ProgressSumBounds(es);
  }

  // ---- Lesson total ------------------------------------------------------

  /** The sum of `totalLessons`, a missing one counting 0. */
  function LessonSum(es: seq<Enrollment>): int {
    if es == [] then 0 else LessonSum(es[..|es| - 1]) + es[|es| - 1].totalLessons.GetOr(0)
  }

  /** The `totalLessons` KPI in one pass: the stored lesson counts of active and
      completed enrollments, other statuses adding nothing. */
  function CountedLessons(es: seq<Enrollment>): int {
    if es == [] then 0
    else
      var e := es[|es| - 1];
      CountedLessons(es[..|es| - 1]) + (if IsActive(e) || IsCompleted(e) then e.totalLessons.GetOr(0) else 0)
  }

  lemma {:induction false} LessonSumAppend(a: seq<Enrollment>, b: seq<Enrollment>)
    ensures LessonSum(a + b) == LessonSum(a) + LessonSum(b)
    decreases |b|
  {
    if b == [] {
      assert a + b == a;
    } else {
      assert (a + b)[..|a + b| - 1] == a + b[..|b| - 1];
      LessonSumAppend(a, b[..|b| - 1]);
    }
  }

  /** Summing over the active list, then over the completed one, counts each
      active or completed enrollment once. */
  lemma {:induction false} CountedLessonsSplit(es: seq<Enrollment>)
    ensures CountedLessons(es) == LessonSum(ActiveOf(es)) + LessonSum(CompletedOf(es))
  {
    if es != [] {
      var init, e := es[..|es| - 1], es[|es| - 1];
      CountedLessonsSplit(init);
      LessonSumAppend(ActiveOf(init), if IsActive(e) then [e] else []);
      LessonSumAppend(CompletedOf(init), if IsCompleted(e) then [e] else []);
    }
  }

  // ---- The highlighted course --------------------------------------------

  /** `e.updatedAt || ''`. */
  function Recency(e: Enrollment): string {
    e.updatedAt.GetOr("")
  }

  /** The first enrollment, in sequence order, whose `updatedAt` no other one
      exceeds. */
  function LatestIndex(s: seq<Enrollment>): (k: nat)
    requires |s| > 0
    ensures k < |s|
    ensures forall j :: 0 <= j < |s| ==> !LexLess(Recency(s[k]), Recency(s[j]))
    ensures forall j :: 0 <= j < k ==> LexLess(Recency(s[j]), Recency(s[k]))
  {
    if |s| == 1 then
      LexIrreflexive(Recency(s[0]));
      0
    else
      var init, x := s[..|s| - 1], s[|s| - 1];
      var k := LatestIndex(init);
      assert forall j :: 0 <= j < |init| ==> init[j] == s[j];
      if LexLess(Recency(init[k]), Recency(x)) then
        LatestIsNew(init, k, x);
        |s| - 1
      else
        k
  }

  lemma LatestIsNew(init: seq<Enrollment>, k: nat, x: Enrollment)
    requires k < |init| && LexLess(Recency(init[k]), Recency(x))
    requires forall j :: 0 <= j < |init| ==> !LexLess(Recency(init[k]), Recency(init[j]))
    ensures forall j :: 0 <= j < |init| ==> LexLess(Recency(init[j]), Recency(x))
    ensures forall j :: 0 <= j < |init| ==> !LexLess(Recency(x), Recency(init[j]))
    ensures !LexLess(Recency(x), Recency(x))
  {
    LexIrreflexive(Recency(x));
    forall j | 0 <= j < |init|
      ensures LexLess(Recency(init[j]), Recency(x)) && !LexLess(Recency(x), Recency(init[j]))
    {
      if Recency(init[j]) != Recency(init[k]) {
        LexTotal(Recency(init[j]), Recency(init[k]));
        LexTransitive(Recency(init[j]), Recency(init[k]), Recency(x));
      }
      LexAsymmetric(Recency(init[j]), Recency(x));
    }
  }

  /** Ordered newest first by `updatedAt`, the order the active list is sorted in. */
  predicate NewestFirst(s: seq<Enrollment>) {
    forall i, j :: 0 <= i < j < |s| ==> !LexLess(Recency(s[i]), Recency(s[j]))
  }

  /** Insert `x` after every element of `t` that is not older than it. */
  function InsertByRecency(t: seq<Enrollment>, x: Enrollment): (r: seq<Enrollment>)
    ensures |r| == |t| + 1
    ensures multiset(r) == multiset(t) + multiset{x}
  {
    if t == [] || !LexLess(Recency(t[|t| - 1]), Recency(x)) then t + [x]
    else
      assert t == t[..|t| - 1] + [t[|t| - 1]];
      InsertByRecency(t[..|t| - 1], x) + [t[|t| - 1]]
  }

  /** The stable sort `active.sort(...)` performs, newest first. */
  function ByRecency(s: seq<Enrollment>): (r: seq<Enrollment>)
    ensures |r| == |s|
    ensures multiset(r) == multiset(s)
  {
    if s == [] then []
    else
      assert s == s[..|s| - 1] + [s[|s| - 1]];
      InsertByRecency(ByRecency(s[..|s| - 1]), s[|s| - 1])
  }

  /** Inserting into a newest-first sequence puts `x` in front exactly when it
      is newer than the current front. */
  lemma {:induction false} InsertByRecencyHead(t: seq<Enrollment>, x: Enrollment)
    requires t != [] && NewestFirst(t)
    ensures InsertByRecency(t, x)[0] == if LexLess(Recency(t[0]), Recency(x)) then x else t[0]
  {
    var init, last := t[..|t| - 1], t[|t| - 1];
    if !LexLess(Recency(last), Recency(x)) {
      if |t| > 1 {
        LexNotLessTransitive(Recency(t[0]), Recency(last), Recency(x));
      }
    } else if init != [] {
      InsertByRecencyHead(init, x);
      assert init[0] == t[0];
    }
  }

  lemma {:induction false} InsertByRecencyOrdered(t: seq<Enrollment>, x: Enrollment)
    requires NewestFirst(t)
    ensures NewestFirst(InsertByRecency(t, x))
  {
    if t == [] || !LexLess(Recency(t[|t| - 1]), Recency(x)) {
      var r := t + [x];
      forall i, j | 0 <= i < j < |r|
        ensures !LexLess(Recency(r[i]), Recency(r[j]))
      {
        if j == |t| {
          assert r[i] == t[i] && r[j] == x;
          if i < |t| - 1 {
            LexNotLessTransitive(Recency(t[i]), Recency(t[|t| - 1]), Recency(x));
          }
        } else {
          assert r[i] == t[i] && r[j] == t[j];
        }
      }
    } else {
      var init, last := t[..|t| - 1], t[|t| - 1];
      InsertByRecencyOrdered(init, x);
      var ins := InsertByRecency(init, x);
      forall e | e in ins
        ensures !LexLess(Recency(e), Recency(last))
      {
        assert e in multiset(init) + multiset{x};
        if e == x {
          LexAsymmetric(Recency(last), Recency(x));
        } else {
          var k :| 0 <= k < |init| && init[k] == e;
          assert t[k] == e;
        }
      }
      assert InsertByRecency(t, x) == ins + [last];
      var r := ins + [last];
      forall i, j | 0 <= i < j < |r|
        ensures !LexLess(Recency(r[i]), Recency(r[j]))
      {
        assert r[i] == ins[i];
        if j == |ins| {
          assert r[j] == last;
          assert ins[i] in ins;
        } else {
          assert r[j] == ins[j];
        }
      }
    }
  }

  lemma {:induction false} ByRecencyOrdered(s: seq<Enrollment>)
    ensures NewestFirst(ByRecency(s))
  {
    if s != [] {
      ByRecencyOrdered(s[..|s| - 1]);
      InsertByRecencyOrdered(ByRecency(s[..|s| - 1]), s[|s| - 1]);
    }
  }

  /** The first element after the sort is the first enrollment, in input order,
      with the greatest `updatedAt`. */
  lemma {:induction false} ByRecencyHead(s: seq<Enrollment>)
    requires s != []
    ensures ByRecency(s)[0] == s[LatestIndex(s)]
  {
    var init, x := s[..|s| - 1], s[|s| - 1];
    if init != [] {
      ByRecencyHead(init);
      ByRecencyOrdered(init);
      InsertByRecencyHead(ByRecency(init), x);
    }
  }

  lemma {:induction false} LessonSumInsert(t: seq<Enrollment>, x: Enrollment)
    ensures LessonSum(InsertByRecency(t, x)) == LessonSum(t) + x.totalLessons.GetOr(0)
  {
    if t != [] && LexLess(Recency(t[|t| - 1]), Recency(x)) {
      var init, last := t[..|t| - 1], t[|t| - 1];
      LessonSumInsert(init, x);
      var ins := InsertByRecency(init, x);
      assert (ins + [last])[..|ins|] == ins;
    }
  }

  /** Sorting does not change the lesson sum. */
  lemma {:induction false} LessonSumByRecency(s: seq<Enrollment>)
    ensures LessonSum(ByRecency(s)) == LessonSum(s)
  {
    if s != [] {
      LessonSumByRecency(s[..|s| - 1]);
      LessonSumInsert(ByRecency(s[..|s| - 1]), s[|s| - 1]);
    }
  }

  /** The shifting step of insertion sort: `x` lands just after the last
      element that is not older than it. */
  lemma {:induction false} InsertByRecencyAt(t: seq<Enrollment>, x: Enrollment, j: nat)
    requires j <= |t|
    requires j == 0 || !LexLess(Recency(t[j - 1]), Recency(x))
    requires forall k :: j <= k < |t| ==> LexLess(Recency(t[k]), Recency(x))
    ensures InsertByRecency(t, x) == t[..j] + [x] + t[j..]
    decreases |t|
  {
    if j < |t| {
      var init, last := t[..|t| - 1], t[|t| - 1];
      assert InsertByRecency(t, x) == InsertByRecency(init, x) + [last];
      forall k | j <= k < |init|
        ensures LexLess(Recency(init[k]), Recency(x))
      {
        assert init[k] == t[k];
      }
      assert j == 0 || init[j - 1] == t[j - 1];
      InsertByRecencyAt(init, x, j);
      SpliceLast(t, x, j);
    } else {
      assert t[..j] == t && t[j..] == [];
    }
  }

  lemma SpliceLast<T>(t: seq<T>, x: T, j: nat)
    requires j < |t|
    ensures (t[..|t| - 1][..j] + [x] + t[..|t| - 1][j..]) + [t[|t| - 1]] == t[..j] + [x] + t[j..]
  {
    var init := t[..|t| - 1];
    assert init[..j] == t[..j];
    assert init[j..] + [t[|t| - 1]] == t[j..];
  }

  /** One step of insertion sort: shift the elements of `a[..i]` that are older
      than `a[i]` one place right and drop `a[i]` into the gap. */
  method InsertInPlace(a: array<Enrollment>, i: nat)
    requires i < a.Length
    modifies a
    ensures a[..i + 1] == InsertByRecency(old(a[..i]), old(a[i]))
    ensures a[i + 1..] == old(a[i + 1..])
  {
    var x := a[i];
    ghost var t := a[..i];
    var j := i;
    while j > 0 && LexLess(Recency(a[j - 1]), Recency(x))
      invariant 0 <= j <= i
      invariant forall k :: 0 <= k < j ==> a[k] == t[k]
      invariant forall k :: j < k <= i ==> a[k] == t[k - 1]
      invariant forall k :: j <= k < i ==> LexLess(Recency(t[k]), Recency(x))
      invariant a[i + 1..] == old(a[i + 1..])
    {
      a[j] := a[j - 1];
      j := j - 1;
    }
    a[j] := x;
    ShiftedIsInserted(a[..i + 1], t, x, j);
  }

  /** The array contents the shifting loop leaves behind are `InsertByRecency`'s. */
  lemma ShiftedIsInserted(s: seq<Enrollment>, t: seq<Enrollment>, x: Enrollment, j: nat)
    requires |s| == |t| + 1 && j <= |t|
    requires forall k :: 0 <= k < j ==> s[k] == t[k]
    requires s[j] == x
    requires forall k :: j < k <= |t| ==> s[k] == t[k - 1]
    requires j == 0 || !LexLess(Recency(t[j - 1]), Recency(x))
    requires forall k :: j <= k < |t| ==> LexLess(Recency(t[k]), Recency(x))
    ensures s == InsertByRecency(t, x)
  {
    InsertByRecencyAt(t, x, j);
    var inserted := t[..j] + [x] + t[j..];
    forall k | 0 <= k < |s|
      ensures s[k] == inserted[k]
    {
      if k > j {
        assert inserted[k] == t[j..][k - j - 1] == t[k - 1];
      }
    }
  }

  /** `active.sort(...)` in place: a stable insertion sort, newest first. */
  method SortByRecency(a: array<Enrollment>)
    modifies a
    ensures a[..] == ByRecency(old(a[..]))
  {
    ghost var input := a[..];
    var i := 0;
    while i < a.Length
      invariant 0 <= i <= a.Length
      invariant a[..i] == ByRecency(input[..i])
      invariant a[i..] == input[i..]
    {
      assert a[i] == input[i] && a[i + 1..] == input[i + 1..] by {
        assert a[i..][0] == input[i..][0];
        assert a[i + 1..] == a[i..][1..];
      }
      InsertInPlace(a, i);
      ByRecencyStep(input, i);
      i := i + 1;
    }
    assert input[..a.Length] == input;
  }

  /** Sorting one more element is inserting it into the sorted prefix. */
  lemma ByRecencyStep(s: seq<Enrollment>, i: nat)
    requires i < |s|
    ensures ByRecency(s[..i + 1]) == InsertByRecency(ByRecency(s[..i]), s[i])
  {
    assert s[..i + 1][..i] == s[..i];
  }

  // ---- The summary -------------------------------------------------------

  datatype Kpis = Kpis(coursesActive: nat, coursesCompleted: nat, avgProgressPercent: int, totalLessons: int)

  datatype ActiveCourse = ActiveCourse(id: string, title: Option<string>, progressPercent: int, tags: seq<string>)

  datatype CourseRow = CourseRow(id: string, title: Option<string>, progressPercent: int,
                                 lessonsTotal: int, status: string)

  datatype DashboardSummary = DashboardSummary(kpis: Kpis, activeCourse: Option<ActiveCourse>,
                                               coursesSummary: seq<CourseRow>, nextLessons: seq<Lesson>)

  /** The `activeCourse` object built from the chosen enrollment. */
  function ActiveCourseOf(e: Enrollment): ActiveCourse {
    ActiveCourse(CourseIdOf(e.sk), e.title, e.progressPercent.GetOr(0), e.tags.GetOr([]))
  }

  /** One `coursesSummary` entry, with the source's defaults. */
  function RowOf(e: Enrollment): CourseRow {
    CourseRow(CourseIdOf(e.sk), e.title, e.progressPercent.GetOr(0), e.totalLessons.GetOr(0), StatusOf(e))
  }

  /** The choice of `activeCourse`: sort the active enrollments newest first,
      in place, and take the front one, if any. */
  method LatestActive(active: seq<Enrollment>) returns (latest: Option<Enrollment>, sorted: seq<Enrollment>)
    ensures latest.None? <==> active == []
    ensures active != [] ==> latest == Some(active[LatestIndex(active)])
    ensures sorted == ByRecency(active)
  {
    var a := new Enrollment[|active|](i requires 0 <= i < |active| => active[i]);
    assert a[..] == active;
    SortByRecency(a);
    sorted := a[..];
    if a.Length > 0 {
      ByRecencyHead(active);
      latest := Some(a[0]);
    } else {
      latest := None;
    }
  }

  /** `svcSummary(userId)` over the enrollment query result and the store the
      next-lessons queries read. */
  method Summary(enrolls: seq<Enrollment>, store: Store) returns (r: DashboardSummary)
    requires ActiveOf(enrolls) != [] ==>
      LessonKeysWellFormed(TreeOf(store, CourseIdOf(ActiveOf(enrolls)[LatestIndex(ActiveOf(enrolls))].sk)))
    ensures r.kpis.coursesActive == |ActiveOf(enrolls)|
    ensures r.kpis.coursesCompleted == |CompletedOf(enrolls)|
    ensures r.kpis.avgProgressPercent == AvgProgress(enrolls)
    ensures r.kpis.totalLessons == CountedLessons(enrolls)
    ensures r.activeCourse.None? <==> ActiveOf(enrolls) == []
    ensures ActiveOf(enrolls) != [] ==>
      r.activeCourse == Some(ActiveCourseOf(ActiveOf(enrolls)[LatestIndex(ActiveOf(enrolls))]))
    ensures r.activeCourse.None? ==> r.nextLessons == []
    ensures r.activeCourse.Some? ==>
      var id := r.activeCourse.value.id;
      r.nextLessons == ComputeNextLessons(TreeOf(store, id), ProgressOf(store, id), 4)
    ensures |r.coursesSummary| == |enrolls|
    ensures forall i :: 0 <= i < |enrolls| ==> r.coursesSummary[i] == RowOf(enrolls[i])
  {
    var active := ActiveOf(enrolls);
    var completed := CompletedOf(enrolls);
    var avg := if |enrolls| > 0 then RoundedMean(ProgressSum(enrolls), |enrolls|) else 0;

    var latest, sortedActive := LatestActive(active);
    var activeCourse: Option<ActiveCourse> := None;
    var nextLessons: seq<Lesson> := [];
    if latest.Some? {
      activeCourse := Some(ActiveCourseOf(latest.value));
      assert latest.value == active[LatestIndex(active)];
      var id := CourseIdOf(latest.value.sk);
      nextLessons := ComputeNextLessons(TreeOf(store, id), ProgressOf(store, id), 4);
    }

    var total := LessonSum(sortedActive + completed);
    assert total == CountedLessons(enrolls) by {
      LessonSumAppend(sortedActive, completed);
      LessonSumByRecency(active);
      CountedLessonsSplit(enrolls);
    }

    var rows := seq(|enrolls|, i requires 0 <= i < |enrolls| => RowOf(enrolls[i]));
    r := DashboardSummary(Kpis(|active|, |completed|, avg, total), activeCourse, rows, nextLessons);
  }
}
