/** The key schema: sort keys that carry the relations between records.
    - enrollment  `COURSE#<courseId>`
    - lesson      `LESSON#<modulePos>#<order>#<lessonId>`
    - progress    `PROGRESS#LESSON#<lessonId>`
    - activity    `ACT#<YYYYMMDD><rest>` (the writer's `rest` is `#…`)
    Each decoder is the operation dashboard.service.js applies to `SK`; each
    encoder is the shape dashboard.repo.js queries for, and a round-trip lemma
    ties the two. */
module Keys {
  import opened Strings
  import opened Calendar

  const CoursePrefix: string := "COURSE#"
  const LessonPrefix: string := "LESSON#"
  const ProgressPrefix: string := "PROGRESS#LESSON#"
  const ActivityPrefix: string := "ACT#"

  /** The course id of an enrollment: its key without the `COURSE#` prefix. */
  function CourseIdOf(sk: string): string {
    RemoveFirst(sk, CoursePrefix)
  }

  function EnrollmentKey(courseId: string): string {
    CoursePrefix + courseId
  }

  lemma CourseKeyRoundTrip(courseId: string)
    ensures CourseIdOf(EnrollmentKey(courseId)) == courseId
  {
    assert EnrollmentKey(courseId)[|CoursePrefix|..] == courseId;
  }

  /** The lesson a progress record is about: its key without `PROGRESS#LESSON#`. */
  function ProgressLessonId(sk: string): string {
    RemoveFirst(sk, ProgressPrefix)
  }

  function ProgressKey(lessonId: string): string {
    ProgressPrefix + lessonId
  }

  lemma ProgressKeyRoundTrip(lessonId: string)
    ensures ProgressLessonId(ProgressKey(lessonId)) == lessonId
  {
    assert ProgressKey(lessonId)[|ProgressPrefix|..] == lessonId;
  }

  /** The tree records that are lessons: keys starting with `LESSON#`. */
  predicate IsLessonKey(sk: string) {
    StartsWith(sk, LessonPrefix)
  }

  /** A lesson key whose `#`-fields 1 and 2 are numerals and that has a field 3. */
  predicate WellFormedLessonKey(sk: string) {
    var parts := Split(sk, '#');
    |parts| >= 4 && AllDigits(parts[1]) && AllDigits(parts[2])
  }

  datatype LessonKey = LessonKey(modulePos: nat, order: nat, lessonId: string)

  /** Split a lesson key at `#`: fields 1 and 2 are the position and the order,
      read as numbers, and field 3 is the lesson id. */
  function ParseLessonKey(sk: string): LessonKey
    requires WellFormedLessonKey(sk)
  {
    var parts := Split(sk, '#');
    LessonKey(ParseDigits(parts[1]), ParseDigits(parts[2]), parts[3])
  }

  function LessonKeyOf(k: LessonKey): string {
    LessonPrefix + Decimal(k.modulePos) + "#" + Decimal(k.order) + "#" + k.lessonId
  }

  lemma DigitsHaveNoSeparator(s: string)
    requires AllDigits(s)
    ensures '#' !in s && '-' !in s
  {
  }

  /** Parsing a lesson key gives back the position, order and id it was built
      from, as long as the id has no `#`. */
  lemma LessonKeyRoundTrip(k: LessonKey)
    requires '#' !in k.lessonId
    ensures IsLessonKey(LessonKeyOf(k))
    ensures WellFormedLessonKey(LessonKeyOf(k)) && ParseLessonKey(LessonKeyOf(k)) == k
  {
    var mp, o := Decimal(k.modulePos), Decimal(k.order);
    var s := LessonKeyOf(k);
    assert s[..|LessonPrefix|] == LessonPrefix;
    DigitsHaveNoSeparator(mp);
    DigitsHaveNoSeparator(o);
    assert s == "LESSON" + ['#'] + (mp + ['#'] + (o + ['#'] + k.lessonId));
    SplitField("LESSON", '#', mp + ['#'] + (o + ['#'] + k.lessonId));
    SplitField(mp, '#', o + ['#'] + k.lessonId);
    SplitField(o, '#', k.lessonId);
    SplitNoSeparator(k.lessonId, '#');
    assert Split(s, '#') == ["LESSON", mp, o, k.lessonId];
    ParseDecimal(k.modulePos);
    ParseDecimal(k.order);
  }

  /** The date an activity record is filed under: characters 4 to 11 of its key,
      read as year, month and day and joined with dashes. Nothing checks their
      shape. */
  function ActivityDate(sk: string): string {
    var d := Slice(sk, 4, 12);
    Slice(d, 0, 4) + "-" + Slice(d, 4, 6) + "-" + Slice(d, 6, 8)
  }

  /** The string with every dash removed. */
  function Undash(s: string): (r: string)
    ensures |r| <= |s|
  {
    if s == [] then []
    else (if s[0] == '-' then [] else [s[0]]) + Undash(s[1..])
  }

  lemma {:induction false} UndashAppend(a: string, b: string)
    ensures Undash(a + b) == Undash(a) + Undash(b)
    decreases |a|
  {
    if a == [] {
      assert a + b == b;
    } else {
      assert (a + b)[1..] == a[1..] + b;
      UndashAppend(a[1..], b);
    }
  }

  lemma {:induction false} UndashDigits(s: string)
    requires AllDigits(s)
    ensures Undash(s) == s
    decreases |s|
  {
    if s != [] {
      assert IsDigit(s[0]);
      UndashDigits(s[1..]);
    }
  }

  /** The activity key of an ISO date: `ACT#${iso without dashes}` then the rest. */
  function ActivityKey(iso: string, rest: string): string {
    ActivityPrefix + Undash(iso) + rest
  }

  /** Removing the dashes of `Y-M-D` made of digit strings leaves `YMD`. */
  lemma UndashDashed(y: string, m: string, dd: string)
    requires AllDigits(y) && AllDigits(m) && AllDigits(dd)
    ensures Undash(y + "-" + m + "-" + dd) == y + m + dd
  {
    UndashAppend(y + "-" + m + "-", dd);
    UndashAppend(y + "-" + m, "-");
    UndashAppend(y + "-", m);
    UndashAppend(y, "-");
    UndashDigits(y);
    UndashDigits(m);
    UndashDigits(dd);
  }

  /** Decoding `ACT#YYYYMMDD…` re-dashes the eight characters after the prefix. */
  lemma DecodeCompact(y: string, m: string, dd: string, rest: string)
    requires |y| == 4 && |m| == 2 && |dd| == 2
    ensures ActivityDate(ActivityPrefix + (y + m + dd) + rest) == y + "-" + m + "-" + dd
  {
    var key := ActivityPrefix + (y + m + dd) + rest;
    assert key[4..12] == y + m + dd;
    var d := Slice(key, 4, 12);
    assert d[0..4] == y && d[4..6] == m && d[6..8] == dd;
  }

  /** For a four-digit year, the date decoded from a day's activity key is that
      day's ISO string, whatever follows the date in the key. */
  lemma ActivityKeyRoundTrip(d: nat, rest: string)
    requires DateOfDay(d).year <= 9999
    ensures ActivityDate(ActivityKey(ToISO(d), rest)) == ToISO(d)
  {
    var c := DateOfDay(d);
    var y, m, dd := Decimal(c.year), Pad2(c.month), Pad2(c.day);
    DecimalLength(c.year);
    assert ToISO(d) == y + "-" + m + "-" + dd;
    UndashDashed(y, m, dd);
    DecodeCompact(y, m, dd, rest);
  }
}
