/** `computeNextLessons` (dashboard.service.js): join a course's lesson tree with
    the user's progress records, keep the lessons not completed, sort them
    stably by (module position, order) and take the first `limit`. The two
    repository reads are the inputs `tree` and `progress`. */
module NextLessons {
  import opened Options
  import opened Keys

  /** A record of the course partition: lessons and anything else stored there. */
  datatype TreeItem = TreeItem(sk: string, moduleId: Option<string>, title: Option<string>,
                               durationMinutes: Option<int>)

  /** A progress record of the user for one lesson. */
  datatype ProgressItem = ProgressItem(sk: string, status: Option<string>)

  datatype Lesson = Lesson(lessonId: string, moduleId: Option<string>, modulePos: nat, order: nat,
                           title: Option<string>, durationMinutes: int, completed: bool)

  /** Every lesson record's key can be parsed (the source reads `parts[1..3]`
      without checking them). */
  predicate LessonKeysWellFormed(tree: seq<TreeItem>) {
    forall i :: 0 <= i < |tree| && IsLessonKey(tree[i].sk) ==> WellFormedLessonKey(tree[i].sk)
  }

  /** The ids of the lessons whose progress status is exactly `completed`. */
  function CompletedIds(progress: seq<ProgressItem>): set<string> {
    set p | p in progress && p.status == Some("completed") :: ProgressLessonId(p.sk)
  }

  /** The lesson view of one tree record. */
  function ToLesson(it: TreeItem, done: set<string>): Lesson
    requires WellFormedLessonKey(it.sk)
  {
    var k := ParseLessonKey(it.sk);
    Lesson(k.lessonId, it.moduleId, k.modulePos, k.order, it.title,
           it.durationMinutes.GetOr(0), k.lessonId in done)
  }

  /** The tree records with a lesson key, each read as a lesson, in tree order. */
  function LessonsOf(tree: seq<TreeItem>, done: set<string>): seq<Lesson>
    requires LessonKeysWellFormed(tree)
  {
    if tree == [] then []
    else
      var last := tree[|tree| - 1];
      LessonsOf(tree[..|tree| - 1], done) + (if IsLessonKey(last.sk) then [ToLesson(last, done)] else [])
  }

  /** The lessons not marked completed, in order. */
  function Incomplete(ls: seq<Lesson>): seq<Lesson> {
    if ls == [] then []
    else Incomplete(ls[..|ls| - 1]) + (if ls[|ls| - 1].completed then [] else [ls[|ls| - 1]])
  }

  /** The lessons of the tree the user still has to take, in tree order. */
  function Pending(tree: seq<TreeItem>, progress: seq<ProgressItem>): seq<Lesson>
    requires LessonKeysWellFormed(tree)
  {
    Incomplete(LessonsOf(tree, CompletedIds(progress)))
  }

  /** `a` sorts strictly before `b`: a smaller position, or the same position
      and a smaller order. */
  predicate Before(a: Lesson, b: Lesson) {
    a.modulePos < b.modulePos || (a.modulePos == b.modulePos && a.order < b.order)
  }

  predicate Ordered(s: seq<Lesson>) {
    forall i, j :: 0 <= i < j < |s| ==> !Before(s[j], s[i])
  }

  /** Insert `x` after every element of `t` that it does not sort before. */
  function InsertByPosition(t: seq<Lesson>, x: Lesson): (r: seq<Lesson>)
    ensures |r| == |t| + 1
    ensures multiset(r) == multiset(t) + multiset{x}
  {
    if t == [] || !Before(x, t[|t| - 1]) then t + [x]
    else
      assert t == t[..|t| - 1] + [t[|t| - 1]];
      InsertByPosition(t[..|t| - 1], x) + [t[|t| - 1]]
  }

  lemma {:induction false} InsertOrdered(t: seq<Lesson>, x: Lesson)
    requires Ordered(t)
    ensures Ordered(InsertByPosition(t, x))
  {
    if t != [] && Before(x, t[|t| - 1]) {
      var init, last := t[..|t| - 1], t[|t| - 1];
      InsertOrdered(init, x);
      var ins := InsertByPosition(init, x);
      forall e | e in ins
        ensures !Before(last, e)
      {
        assert e in multiset(init) + multiset{x};
        if e != x {
          var k :| 0 <= k < |init| && init[k] == e;
          assert t[k] == e;
        }
      }
      assert InsertByPosition(t, x) == ins + [last];
      forall i, j | 0 <= i < j < |ins| + 1
        ensures !Before((ins + [last])[j], (ins + [last])[i])
      {
        if j == |ins| {
          assert (ins + [last])[i] == ins[i];
        }
      }
    }
  }

  /** The stable sort of the pending lessons by position, then order. */
  function SortByPosition(s: seq<Lesson>): (r: seq<Lesson>)
    ensures |r| == |s|
    ensures multiset(r) == multiset(s)
    ensures Ordered(r)
  {
    if s == [] then []
    else
      assert s == s[..|s| - 1] + [s[|s| - 1]];
      var sorted := SortByPosition(s[..|s| - 1]);
      InsertOrdered(sorted, s[|s| - 1]);
      InsertByPosition(sorted, s[|s| - 1])
  }

  /** `computeNextLessons(userId, courseId, limit)` over the two query results. */
  function ComputeNextLessons(tree: seq<TreeItem>, progress: seq<ProgressItem>, limit: nat): (r: seq<Lesson>)
    requires LessonKeysWellFormed(tree)
    ensures |r| <= limit
    ensures Ordered(r)
    ensures forall i :: 0 <= i < |r| ==> !r[i].completed && r[i].lessonId !in CompletedIds(progress)
  {
    var sorted := SortByPosition(Pending(tree, progress));
    var n := if |sorted| <= limit then |sorted| else limit;
    SortedPrefixPending(tree, progress, n);
    sorted[..n]
  }

  lemma SortedPrefixPending(tree: seq<TreeItem>, progress: seq<ProgressItem>, n: nat)
    requires LessonKeysWellFormed(tree)
    requires n <= |Pending(tree, progress)|
    ensures var r := SortByPosition(Pending(tree, progress))[..n];
      && Ordered(r)
      && forall i :: 0 <= i < |r| ==> !r[i].completed && r[i].lessonId !in CompletedIds(progress)
  {
    var p := Pending(tree, progress);
    var sorted := SortByPosition(p);
    var r := sorted[..n];
    PendingNotCompleted(tree, progress);
    forall i | 0 <= i < |r|
      ensures !r[i].completed && r[i].lessonId !in CompletedIds(progress)
    {
      assert r[i] == sorted[i];
      assert sorted[i] in multiset(sorted);
    }
    forall i, j | 0 <= i < j < |r|
      ensures !Before(r[j], r[i])
    {
      assert r[i] == sorted[i] && r[j] == sorted[j];
    }
  }

  // ---- Lemmas ------------------------------------------------------------

  lemma {:induction false} PendingNotCompleted(tree: seq<TreeItem>, progress: seq<ProgressItem>)
    requires LessonKeysWellFormed(tree)
    ensures forall l :: l in Pending(tree, progress) ==> !l.completed && l.lessonId !in CompletedIds(progress)
  {
    IncompleteMembers(LessonsOf(tree, CompletedIds(progress)));
    LessonsOfMembers(tree, CompletedIds(progress));
  }

  lemma {:induction false} IncompleteMembers(ls: seq<Lesson>)
    ensures forall l :: l in Incomplete(ls) <==> l in ls && !l.completed
  {
    if ls != [] {
      IncompleteMembers(ls[..|ls| - 1]);
      assert ls == ls[..|ls| - 1] + [ls[|ls| - 1]];
    }
  }

  lemma {:induction false} LessonsOfMembers(tree: seq<TreeItem>, done: set<string>)
    requires LessonKeysWellFormed(tree)
    ensures forall l :: l in LessonsOf(tree, done) <==>
      exists i :: 0 <= i < |tree| && IsLessonKey(tree[i].sk) && l == ToLesson(tree[i], done)
    ensures forall l :: l in LessonsOf(tree, done) ==> l.completed == (l.lessonId in done)
  {
    if tree != [] {
      var init := tree[..|tree| - 1];
      LessonsOfMembers(init, done);
      forall l | l in LessonsOf(tree, done)
        ensures exists i :: 0 <= i < |tree| && IsLessonKey(tree[i].sk) && l == ToLesson(tree[i], done)
      {
        if l in LessonsOf(init, done) {
          var i :| 0 <= i < |init| && IsLessonKey(init[i].sk) && l == ToLesson(init[i], done);
          assert tree[i] == init[i];
        } else {
          assert l == ToLesson(tree[|tree| - 1], done);
        }
      }
      forall i | 0 <= i < |tree| && IsLessonKey(tree[i].sk)
        ensures ToLesson(tree[i], done) in LessonsOf(tree, done)
      {
        if i < |init| {
          assert tree[i] == init[i];
        }
      }
    }
  }

  /** A lesson is pending exactly when some `LESSON#` record of the tree yields
      it and its id has no `completed` progress record. */
  lemma PendingIff(tree: seq<TreeItem>, progress: seq<ProgressItem>, l: Lesson)
    requires LessonKeysWellFormed(tree)
    ensures l in Pending(tree, progress) <==>
      exists i :: 0 <= i < |tree| && IsLessonKey(tree[i].sk)
               && ParseLessonKey(tree[i].sk).lessonId !in CompletedIds(progress)
               && l == ToLesson(tree[i], CompletedIds(progress))
  {
    IncompleteMembers(LessonsOf(tree, CompletedIds(progress)));
    LessonsOfMembers(tree, CompletedIds(progress));
  }

  /** The lessons with position `mp` and order `o`, in sequence order. */
  function WithKey(s: seq<Lesson>, mp: nat, o: nat): seq<Lesson> {
    if s == [] then []
    else WithKey(s[..|s| - 1], mp, o)
         + (if s[|s| - 1].modulePos == mp && s[|s| - 1].order == o then [s[|s| - 1]] else [])
  }

  lemma {:induction false} WithKeyAppend(a: seq<Lesson>, b: seq<Lesson>, mp: nat, o: nat)
    ensures WithKey(a + b, mp, o) == WithKey(a, mp, o) + WithKey(b, mp, o)
    decreases |b|
  {
    if b == [] {
      assert a + b == a;
    } else {
      assert (a + b)[..|a + b| - 1] == a + b[..|b| - 1];
      WithKeyAppend(a, b[..|b| - 1], mp, o);
    }
  }

  lemma {:induction false} InsertKeepsTies(t: seq<Lesson>, x: Lesson, mp: nat, o: nat)
    ensures WithKey(InsertByPosition(t, x), mp, o) == WithKey(t + [x], mp, o)
  {
    if t != [] && Before(x, t[|t| - 1]) {
      var init, last := t[..|t| - 1], t[|t| - 1];
      assert t == init + [last];
      InsertKeepsTies(init, x, mp, o);
      WithKeyAppend(InsertByPosition(init, x), [last], mp, o);
      WithKeyAppend(init, [x], mp, o);
      WithKeyAppend(init, [last], mp, o);
      WithKeyAppend(t, [x], mp, o);
      assert WithKey([x], mp, o) == [] || WithKey([last], mp, o) == [];
    }
  }

  /** Sorting keeps lessons with equal (position, order) in their input order. */
  lemma {:induction false} SortIsStable(s: seq<Lesson>, mp: nat, o: nat)
    ensures WithKey(SortByPosition(s), mp, o) == WithKey(s, mp, o)
  {
    if s != [] {
      var init, last := s[..|s| - 1], s[|s| - 1];
      var si := SortByPosition(init);
      calc {
        WithKey(SortByPosition(s), mp, o);
        WithKey(InsertByPosition(si, last), mp, o);
        { InsertKeepsTies(si, last, mp, o); }
        WithKey(si + [last], mp, o);
        { WithKeyAppend(si, [last], mp, o); }
        WithKey(si, mp, o) + WithKey([last], mp, o);
        { SortIsStable(init, mp, o); }
        WithKey(init, mp, o) + WithKey([last], mp, o);
        { WithKeyAppend(init, [last], mp, o); }
        WithKey(init + [last], mp, o);
        { assert init + [last] == s; }
        WithKey(s, mp, o);
      }
    }
  }

  /** `r` holds the earliest lessons of `all`: it is a sub-multiset of `all`,
      and no lesson of `all` it leaves out sorts before one it holds. */
  ghost predicate EarliestOf(r: seq<Lesson>, all: seq<Lesson>) {
    && multiset(r) <= multiset(all)
    && forall x, i :: x in multiset(all) - multiset(r) && 0 <= i < |r| ==> !Before(x, r[i])
  }

  /** A prefix of an ordering of `all` holds its earliest lessons. */
  lemma PrefixIsEarliest(sorted: seq<Lesson>, all: seq<Lesson>, n: nat)
    requires Ordered(sorted) && multiset(sorted) == multiset(all) && n <= |sorted|
    ensures EarliestOf(sorted[..n], all)
  {
    var r, rest := sorted[..n], sorted[n..];
    assert r + rest == sorted;
    assert multiset(all) - multiset(r) == multiset(rest);
    forall x, i | x in multiset(rest) && 0 <= i < |r|
      ensures !Before(x, r[i])
    {
      var j :| 0 <= j < |rest| && rest[j] == x;
      assert r[i] == sorted[i] && rest[j] == sorted[n + j];
    }
  }

  /** The result holds the first `limit` pending lessons in (position, order),
      and there are `limit` of them unless fewer are pending. */
  lemma NextLessonsAreEarliest(tree: seq<TreeItem>, progress: seq<ProgressItem>, limit: nat)
    requires LessonKeysWellFormed(tree)
    ensures |ComputeNextLessons(tree, progress, limit)|
            == (if |Pending(tree, progress)| <= limit then |Pending(tree, progress)| else limit)
    ensures EarliestOf(ComputeNextLessons(tree, progress, limit), Pending(tree, progress))
  {
    var p := Pending(tree, progress);
    var sorted := SortByPosition(p);
    var n := if |sorted| <= limit then |sorted| else limit;
    assert ComputeNextLessons(tree, progress, limit) == sorted[..n];
    PrefixIsEarliest(sorted, p, n);
  }

  lemma {:induction false} WithKeyPrefix(s: seq<Lesson>, n: nat, mp: nat, o: nat)
    requires n <= |s|
    ensures WithKey(s[..n], mp, o) <= WithKey(s, mp, o)
  {
    assert s == s[..n] + s[n..];
    WithKeyAppend(s[..n], s[n..], mp, o);
  }

  /** Among lessons with equal (position, order), the result keeps the first
      ones in tree order, in tree order. */
  lemma NextLessonsKeepTreeOrder(tree: seq<TreeItem>, progress: seq<ProgressItem>, limit: nat, mp: nat, o: nat)
    requires LessonKeysWellFormed(tree)
    ensures WithKey(ComputeNextLessons(tree, progress, limit), mp, o) <= WithKey(Pending(tree, progress), mp, o)
  {
    var p := Pending(tree, progress);
    var sorted := SortByPosition(p);
    var n := if |sorted| <= limit then |sorted| else limit;
    assert ComputeNextLessons(tree, progress, limit) == sorted[..n];
    SortIsStable(p, mp, o);
    WithKeyPrefix(sorted, n, mp, o);
  }
}
