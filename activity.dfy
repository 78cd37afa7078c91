/** `svcWeeklyActivity` and `svcStreak` (dashboard.service.js): per-day minutes
    over a window of dates ending today, and the run of consecutive days with
    activity ending today. `today` is the day number of the UTC date of `now`,
    and the activity records the range query returns are the input `items`. */
module Activity {
  import opened Options
  import opened Calendar
  import opened Keys

  datatype ActivityItem = ActivityItem(sk: string, minutes: Option<int>)

  datatype Bucket = Bucket(date: string, minutes: int)

  datatype WeeklyActivity = WeeklyActivity(from: string, to: string, buckets: seq<Bucket>)

  predicate Distinct<K(==)>(s: seq<K>) {
    forall i, j :: 0 <= i < j < |s| ==> s[i] != s[j]
  }

  /** The ISO dates of the `n` days from day `from` on, oldest first. */
  function Window(from: nat, n: nat): (w: seq<string>)
    ensures |w| == n
    ensures forall i :: 0 <= i < n ==> w[i] == ToISO(from + i)
  {
    seq(n, i requires 0 <= i < n => ToISO(from + i))
  }

  /** The window never names a date twice. */
  lemma WindowDistinct(from: nat, n: nat)
    ensures Distinct(Window(from, n))
  {
    ToISODistinct();
    RenderedDistinct(Window(from, n), from, ToISO);
  }

  /** Consecutive days rendered by an injective `iso` are distinct. */
  lemma RenderedDistinct<K>(w: seq<K>, from: nat, iso: nat -> K)
    requires forall a: nat, b: nat :: a != b ==> iso(a) != iso(b)
    requires forall i :: 0 <= i < |w| ==> w[i] == iso(from + i)
    ensures Distinct(w)
  {
    forall i, j | 0 <= i < j < |w|
      ensures w[i] != w[j]
    {
      assert iso(from + i) != iso(from + j);
    }
  }

  /** Different days have different ISO dates. */
  lemma ToISODistinct()
    ensures forall a: nat, b: nat :: a != b ==> ToISO(a) != ToISO(b)
  {
    forall a: nat, b: nat | ToISO(a) == ToISO(b)
      ensures a == b
    {
      ToISOInjective(a, b);
    }
  }

  /** The date each record is filed under, in record order. */
  function DatesOf(items: seq<ActivityItem>): (ds: seq<string>)
    ensures |ds| == |items|
    ensures forall i :: 0 <= i < |items| ==> ds[i] == ActivityDate(items[i].sk)
  {
    seq(|items|, i requires 0 <= i < |items| => ActivityDate(items[i].sk))
  }

  /** The minutes each record adds (`it.minutes || 0`), in record order. */
  function MinutesOf(items: seq<ActivityItem>): (ms: seq<int>)
    ensures |ms| == |items|
    ensures forall i :: 0 <= i < |items| ==> ms[i] == items[i].minutes.GetOr(0)
  {
    seq(|items|, i requires 0 <= i < |items| => items[i].minutes.GetOr(0))
  }

  // ---- An insertion-ordered `Map` from keys to running totals -----------

  /** The keys of a `Map` holding `keys`, after `set` is called with each of
      `added` in turn: a key not yet present goes at the end. */
  function KeysAfter<K(==)>(keys: seq<K>, added: seq<K>): seq<K> {
    if added == [] then keys
    else
      var k := KeysAfter(keys, added[..|added| - 1]);
      if added[|added| - 1] in k then k else k + [added[|added| - 1]]
  }

  /** The total of the values `vs[i]` added under key `k`. */
  function TotalOn<K(==)>(ks: seq<K>, vs: seq<int>, k: K): int
    requires |ks| == |vs|
  {
    if ks == [] then 0
    else TotalOn(ks[..|ks| - 1], vs[..|vs| - 1], k) + (if ks[|ks| - 1] == k then vs[|vs| - 1] else 0)
  }

  /** The total of all values. */
  function Total(vs: seq<int>): int {
    if vs == [] then 0 else Total(vs[..|vs| - 1]) + vs[|vs| - 1]
  }

  /** The per-key totals of `keys`, summed. */
  function TotalOver<K(==)>(ks: seq<K>, vs: seq<int>, keys: seq<K>): int
    requires |ks| == |vs|
  {
    if keys == [] then 0
    else TotalOver(ks, vs, keys[..|keys| - 1]) + TotalOn(ks, vs, keys[|keys| - 1])
  }

  /** Setting keys only appends: the keys held before stay first, in order. */
  lemma {:induction false} KeysAfterPrefix<K>(keys: seq<K>, added: seq<K>)
    ensures |KeysAfter(keys, added)| >= |keys|
    ensures KeysAfter(keys, added)[..|keys|] == keys
  {
    if added != [] {
      KeysAfterPrefix(keys, added[..|added| - 1]);
    }
  }

  /** The keys are exactly the initial ones and the ones set. */
  lemma {:induction false} KeysAfterMembers<K>(keys: seq<K>, added: seq<K>, x: K)
    ensures x in KeysAfter(keys, added) <==> x in keys || x in added
  {
    if added != [] {
      KeysAfterMembers(keys, added[..|added| - 1], x);
      assert added == added[..|added| - 1] + [added[|added| - 1]];
    }
  }

  /** A `Map` never holds a key twice. */
  lemma {:induction false} KeysAfterDistinct<K>(keys: seq<K>, added: seq<K>)
    requires Distinct(keys)
    ensures Distinct(KeysAfter(keys, added))
  {
    if added != [] {
      KeysAfterDistinct(keys, added[..|added| - 1]);
    }
  }

  /** No key is added exactly when every key set was already present. */
  lemma {:induction false} KeysAfterExact<K>(keys: seq<K>, added: seq<K>)
    ensures |KeysAfter(keys, added)| == |keys| <==> forall i :: 0 <= i < |added| ==> added[i] in keys
  {
    if added != [] {
      var init, d := added[..|added| - 1], added[|added| - 1];
      KeysAfterExact(keys, init);
      KeysAfterPrefix(keys, init);
      KeysAfterMembers(keys, init, d);
      assert forall i :: 0 <= i < |init| ==> init[i] == added[i];
      if d !in keys && d in init {
        var i :| 0 <= i < |init| && init[i] == d;
        assert added[i] !in keys;
      }
    }
  }

  /** One more value under `x` adds to the total of `x` only, once. */
  lemma {:induction false} TotalOverStep<K>(ks: seq<K>, vs: seq<int>, x: K, v: int, keys: seq<K>)
    requires |ks| == |vs|
    requires Distinct(keys)
    ensures TotalOver(ks + [x], vs + [v], keys) == TotalOver(ks, vs, keys) + (if x in keys then v else 0)
  {
    if keys != [] {
      var init, k := keys[..|keys| - 1], keys[|keys| - 1];
      assert Distinct(init);
      TotalOverStep(ks, vs, x, v, init);
      assert (ks + [x])[..|ks|] == ks;
      assert (vs + [v])[..|vs|] == vs;
      assert keys == init + [k];
      assert x == k ==> x !in init;
    }
  }

  /** Over distinct keys that include every key set, the per-key totals add
      up to the total of all values: nothing is lost or counted twice. */
  lemma {:induction false} TotalOverAll<K>(ks: seq<K>, vs: seq<int>, keys: seq<K>)
    requires |ks| == |vs|
    requires Distinct(keys)
    requires forall i :: 0 <= i < |ks| ==> ks[i] in keys
    ensures TotalOver(ks, vs, keys) == Total(vs)
  {
    if ks == [] {
      TotalOverEmpty(keys);
    } else {
      var n := |ks| - 1;
      assert forall i :: 0 <= i < n ==> ks[..n][i] == ks[i];
      TotalOverAll(ks[..n], vs[..n], keys);
      TotalOverStep(ks[..n], vs[..n], ks[n], vs[n], keys);
      assert ks[..n] + [ks[n]] == ks;
      assert vs[..n] + [vs[n]] == vs;
    }
  }

  lemma {:induction false} TotalOverEmpty<K>(keys: seq<K>)
    ensures TotalOver([], [], keys) == 0
  {
    if keys != [] {
      TotalOverEmpty(keys[..|keys| - 1]);
    }
  }

  /** The second loop of `svcWeeklyActivity`, over the records' dates `ks`
      and minutes `vs`: each adds its value to the entry of its key (0 when
      absent), and a key not yet present goes at the end. */
  method AddAll<K(==)>(order0: seq<K>, totals0: map<K, int>, ks: seq<K>, vs: seq<int>)
    returns (order: seq<K>, totals: map<K, int>)
    requires |ks| == |vs|
    requires forall k :: k in totals0 <==> k in order0
    requires forall k :: k in totals0 ==> totals0[k] == 0
    ensures order == KeysAfter(order0, ks)
    ensures forall k :: k in totals <==> k in order
    ensures forall k :: k in totals ==> totals[k] == TotalOn(ks, vs, k)
  {
    order, totals := order0, totals0;
    var i := 0;
    while i < |ks|
      invariant 0 <= i <= |ks|
      invariant order == KeysAfter(order0, ks[..i])
      invariant forall k :: k in totals <==> k in order
      invariant forall k :: k in totals ==> totals[k] == TotalOn(ks[..i], vs[..i], k)
      invariant forall k :: k !in totals ==> TotalOn(ks[..i], vs[..i], k) == 0
    {
      assert forall x :: (TotalOn(ks[..i + 1], vs[..i + 1], x) ==
        TotalOn(ks[..i], vs[..i], x) + (if ks[i] == x then vs[i] else 0)) by {
        assert ks[..i + 1][..i] == ks[..i];
        assert vs[..i + 1][..i] == vs[..i];
      }
      var k := ks[i];
      var prev := if k in totals then totals[k] else 0;
      if k !in totals {
        order := order + [k];
      }
      totals := totals[k := prev + vs[i]];
      assert ks[..i + 1][..i] == ks[..i];
      i := i + 1;
    }
    assert ks[..|ks|] == ks;
    assert vs[..|vs|] == vs;
  }

  // ---- Weekly activity ---------------------------------------------------

  /** The minutes of the records filed under `date`. */
  function MinutesOn(items: seq<ActivityItem>, date: string): int {
    TotalOn(DatesOf(items), MinutesOf(items), date)
  }

  /** The minutes of all records. */
  function TotalMinutes(items: seq<ActivityItem>): int {
    Total(MinutesOf(items))
  }

  function BucketTotal(bs: seq<Bucket>): int {
    if bs == [] then 0 else BucketTotal(bs[..|bs| - 1]) + bs[|bs| - 1].minutes
  }

  /** `svcWeeklyActivity(userId, days, now)` for a `days` the handler has
      clamped to [1, 14]. */
  method Weekly(days: int, today: nat, items: seq<ActivityItem>) returns (r: WeeklyActivity)
    requires 1 <= days <= 14
    requires days - 1 <= today
    ensures r.from == ToISO(today - (days - 1)) && r.to == ToISO(today)
    ensures |r.buckets| >= days
    ensures forall i :: 0 <= i < days ==> r.buckets[i].date == ToISO(today - (days - 1) + i)
    ensures forall i, j :: 0 <= i < j < |r.buckets| ==> r.buckets[i].date != r.buckets[j].date
    ensures forall i :: 0 <= i < |r.buckets| ==> r.buckets[i].minutes == MinutesOn(items, r.buckets[i].date)
    ensures forall i :: 0 <= i < |items| ==>
      exists j :: 0 <= j < |r.buckets| && r.buckets[j].date == ActivityDate(items[i].sk)
    ensures BucketTotal(r.buckets) == TotalMinutes(items)
    ensures |r.buckets| == days <==>
      forall i :: 0 <= i < |items| ==> ActivityDate(items[i].sk) in Window(today - (days - 1), days)
    ensures BucketDates(r.buckets) == KeysAfter(Window(today - (days - 1), days), DatesOf(items))
  {
    var from := today - (days - 1);
    ToISODistinct();
    var window, zeros := ZeroBuckets(from, today, ToISO);
    RenderedDistinct(window, from, ToISO);
    var dates, mins := DatesOf(items), MinutesOf(items);
    var order, minutes := AddAll(window, zeros, dates, mins);
    var buckets := seq(|order|, j requires 0 <= j < |order| => Bucket(order[j], minutes[order[j]]));
    r := WeeklyActivity(ToISO(from), ToISO(today), buckets);
    assert window == Window(today - (days - 1), days);
    assert forall j :: 0 <= j < |order| ==> r.buckets[j] == Bucket(order[j], TotalOn(DatesOf(items), MinutesOf(items), order[j]));
    WeeklyLayout(days, today, items, window, order, r);
    WeeklyMinutes(items, window, order, r);
    WeeklyExact(days, today, items, window, order, r);
    WeeklyOrder(days, today, items, window, order, r);
  }

  /** The dates of the buckets, in order. */
  function BucketDates(bs: seq<Bucket>): seq<string> {
    seq(|bs|, j requires 0 <= j < |bs| => bs[j].date)
  }

  /** The window's dates come first, in order, and no date has two buckets. */
  lemma WeeklyLayout(days: int, today: nat, items: seq<ActivityItem>, window: seq<string>, order: seq<string>, r: WeeklyActivity)
    requires 1 <= days <= 14
    requires days - 1 <= today
    requires window == Window(today - (days - 1), days)
    requires Distinct(window)
    requires order == KeysAfter(window, DatesOf(items))
    requires |r.buckets| == |order|
    requires forall j :: 0 <= j < |order| ==> r.buckets[j] == Bucket(order[j], TotalOn(DatesOf(items), MinutesOf(items), order[j]))
    ensures |r.buckets| >= days
    ensures forall i :: 0 <= i < days ==> r.buckets[i].date == ToISO(today - (days - 1) + i)
    ensures forall i, j :: 0 <= i < j < |r.buckets| ==> r.buckets[i].date != r.buckets[j].date
  {
    MapKeys(window, DatesOf(items), order);
  }

  /** Every bucket holds the minutes of its date, every record's date has a
      bucket, and the minutes add up. */
  lemma WeeklyMinutes(items: seq<ActivityItem>, window: seq<string>, order: seq<string>, r: WeeklyActivity)
    requires Distinct(window)
    requires order == KeysAfter(window, DatesOf(items))
    requires |r.buckets| == |order|
    requires forall j :: 0 <= j < |order| ==> r.buckets[j] == Bucket(order[j], TotalOn(DatesOf(items), MinutesOf(items), order[j]))
    ensures forall i :: 0 <= i < |r.buckets| ==> r.buckets[i].minutes == MinutesOn(items, r.buckets[i].date)
    ensures forall i :: 0 <= i < |items| ==>
      exists j :: 0 <= j < |r.buckets| && r.buckets[j].date == ActivityDate(items[i].sk)
    ensures BucketTotal(r.buckets) == TotalMinutes(items)
  {
    var dates, mins := DatesOf(items), MinutesOf(items);
    MapKeys(window, dates, order);
    forall i | 0 <= i < |items|
      ensures exists j :: 0 <= j < |r.buckets| && r.buckets[j].date == ActivityDate(items[i].sk)
    {
      var j :| 0 <= j < |order| && order[j] == dates[i];
      assert r.buckets[j].date == order[j];
    }
    TotalOverAll(dates, mins, order);
    BucketTotalIsTotalOver(r.buckets, dates, mins, order);
  }

  /** No bucket beyond the window exactly when every record's date is in it. */
  lemma WeeklyExact(days: int, today: nat, items: seq<ActivityItem>, window: seq<string>, order: seq<string>, r: WeeklyActivity)
    requires 1 <= days <= 14
    requires days - 1 <= today
    requires window == Window(today - (days - 1), days)
    requires Distinct(window)
    requires order == KeysAfter(window, DatesOf(items))
    requires |r.buckets| == |order|
    ensures |r.buckets| == days <==>
      forall i :: 0 <= i < |items| ==> ActivityDate(items[i].sk) in Window(today - (days - 1), days)
  {
    var dates := DatesOf(items);
    MapKeys(window, dates, order);
    forall i | 0 <= i < |items|
      ensures (dates[i] in window) == (ActivityDate(items[i].sk) in window)
    {
      assert dates[i] == ActivityDate(items[i].sk);
    }
  }

  /** The buckets hold the `Map`'s keys in insertion order. */
  lemma WeeklyOrder(days: int, today: nat, items: seq<ActivityItem>, window: seq<string>, order: seq<string>, r: WeeklyActivity)
    requires 1 <= days <= 14
    requires days - 1 <= today
    requires window == Window(today - (days - 1), days)
    requires order == KeysAfter(window, DatesOf(items))
    requires |r.buckets| == |order|
    requires forall j :: 0 <= j < |order| ==> r.buckets[j].date == order[j]
    ensures BucketDates(r.buckets) == KeysAfter(Window(today - (days - 1), days), DatesOf(items))
  {
    assert BucketDates(r.buckets) == order;
  }

  /** In a result of `Weekly`, the buckets after the window are dates of
      records, none of them in the window. */
  lemma AppendedDates(days: int, today: nat, items: seq<ActivityItem>, bs: seq<Bucket>)
    requires 1 <= days <= 14
    requires days - 1 <= today
    requires BucketDates(bs) == KeysAfter(Window(today - (days - 1), days), DatesOf(items))
    ensures forall j :: days <= j < |bs| ==> bs[j].date !in Window(today - (days - 1), days)
    ensures forall j :: days <= j < |bs| ==>
      exists i :: 0 <= i < |items| && bs[j].date == ActivityDate(items[i].sk)
  {
    var window, dates := Window(today - (days - 1), days), DatesOf(items);
    WindowDistinct(today - (days - 1), days);
    AppendedKeys(window, dates, bs);
  }

  lemma AppendedKeys(window: seq<string>, ks: seq<string>, bs: seq<Bucket>)
    requires Distinct(window)
    requires BucketDates(bs) == KeysAfter(window, ks)
    ensures forall j :: |window| <= j < |bs| ==> bs[j].date !in window && bs[j].date in ks
  {
    MapKeys(window, ks, BucketDates(bs));
    forall j | |window| <= j < |bs|
      ensures bs[j].date !in window && bs[j].date in ks
    {
      assert bs[j].date == BucketDates(bs)[j];
    }
  }

  /** The first loop of `svcWeeklyActivity`: a zero entry for each day from
      `from` to `today`, in date order, where `iso` renders a day. */
  method ZeroBuckets(from: nat, today: nat, iso: nat -> string) returns (order: seq<string>, minutes: map<string, int>)
    requires from <= today + 1
    requires forall a: nat, b: nat :: a != b ==> iso(a) != iso(b)
    ensures |order| == today + 1 - from
    ensures forall i :: 0 <= i < |order| ==> order[i] == iso(from + i)
    ensures forall k :: k in minutes <==> k in order
    ensures forall k :: k in minutes ==> minutes[k] == 0
  {
    order, minutes := [], map[];
    var d := from;
    while d <= today
      invariant from <= d <= today + 1
      invariant |order| == d - from
      invariant forall i :: 0 <= i < |order| ==> order[i] == iso(from + i)
      invariant forall k :: k in minutes <==> k in order
      invariant forall k :: k in minutes ==> minutes[k] == 0
    {
      var date := iso(d);
      assert forall i :: 0 <= i < |order| ==> order[i] != date;
      if date !in minutes {
        order := order + [date];
      }
      minutes := minutes[date := 0];
      d := d + 1;
    }
  }

  /** The keys of a `Map` that starts with the distinct keys `window` and
      then has each of `ks` set: the window comes first, no key twice, every
      key set present, and nothing beyond the window exactly when every key
      set is in it. */
  lemma MapKeys<K>(window: seq<K>, ks: seq<K>, order: seq<K>)
    requires Distinct(window)
    requires order == KeysAfter(window, ks)
    ensures |order| >= |window|
    ensures forall i :: 0 <= i < |window| ==> order[i] == window[i]
    ensures Distinct(order)
    ensures forall i :: 0 <= i < |ks| ==> ks[i] in order
    ensures |order| == |window| <==> forall i :: 0 <= i < |ks| ==> ks[i] in window
    ensures forall j :: |window| <= j < |order| ==> order[j] !in window && order[j] in ks
  {
    KeysAfterPrefix(window, ks);
    KeysAfterDistinct(window, ks);
    forall i | 0 <= i < |window|
      ensures order[i] == window[i]
    {
      assert order[i] == order[..|window|][i];
    }
    forall i | 0 <= i < |ks|
      ensures ks[i] in order
    {
      KeysAfterMembers(window, ks, ks[i]);
    }
    KeysAfterExact(window, ks);
    forall j | |window| <= j < |order|
      ensures order[j] !in window && order[j] in ks
    {
      KeysAfterMembers(window, ks, order[j]);
    }
  }

  /** The total of buckets that pair each key with its total. */
  lemma {:induction false} BucketTotalIsTotalOver(bs: seq<Bucket>, ks: seq<string>, vs: seq<int>, keys: seq<string>)
    requires |ks| == |vs|
    requires |bs| == |keys|
    requires forall i :: 0 <= i < |bs| ==> bs[i] == Bucket(keys[i], TotalOn(ks, vs, keys[i]))
    ensures BucketTotal(bs) == TotalOver(ks, vs, keys)
  {
    if bs != [] {
      BucketTotalIsTotalOver(bs[..|bs| - 1], ks, vs, keys[..|keys| - 1]);
    }
  }

  /** Records whose keys are activity keys of window days are all filed under
      window dates, so with `Weekly` the buckets are exactly the window's days. */
  lemma KeyedRecordsInWindow(from: nat, days: nat, items: seq<ActivityItem>, written: seq<nat>, rests: seq<string>)
    requires |written| == |items| && |rests| == |items|
    requires forall i :: 0 <= i < |items| ==> from <= written[i] < from + days
    requires forall i :: 0 <= i < |items| ==> DateOfDay(written[i]).year <= 9999
    requires forall i :: 0 <= i < |items| ==> items[i].sk == ActivityKey(ToISO(written[i]), rests[i])
    ensures forall i :: 0 <= i < |items| ==> ActivityDate(items[i].sk) in Window(from, days)
  {
    forall i | 0 <= i < |items|
      ensures ActivityDate(items[i].sk) in Window(from, days)
    {
      ActivityKeyRoundTrip(written[i], rests[i]);
      assert Window(from, days)[written[i] - from] == ToISO(written[i]);
    }
  }

  // ---- Streak ------------------------------------------------------------

  /** The set of decoded record dates: the dates that have at least one record. */
  function ActiveDates(items: seq<ActivityItem>): set<string> {
    set i | 0 <= i < |items| :: ActivityDate(items[i].sk)
  }

  /** `svcStreak(userId, maxWindowDays, now)`: walk back from today while the
      date has a record, at most `maxWindowDays` days. */
  method Streak(maxWindowDays: int, today: nat, items: seq<ActivityItem>) returns (streak: nat)
    requires maxWindowDays <= today + 1
    ensures streak <= (if maxWindowDays > 0 then maxWindowDays else 0)
    ensures forall d: nat :: today - streak < d <= today ==> ToISO(d) in ActiveDates(items)
    ensures streak < maxWindowDays ==> ToISO(today - streak) !in ActiveDates(items)
    ensures maxWindowDays > 0 && ToISO(today) !in ActiveDates(items) ==> streak == 0
  {
    streak := StreakIn(maxWindowDays, today, ActiveDates(items), ToISO);
  }

  /** The backward walk over the set of dates that have a record, where
      `iso` renders a day. */
  method StreakIn(maxWindowDays: int, today: nat, present: set<string>, iso: nat -> string) returns (streak: nat)
    requires maxWindowDays <= today + 1
    ensures streak <= (if maxWindowDays > 0 then maxWindowDays else 0)
    ensures forall d: nat :: today - streak < d <= today ==> iso(d) in present
    ensures streak < maxWindowDays ==> iso(today - streak) !in present
  {
    var from := today - (maxWindowDays - 1);
    streak := 0;
    var d: int := today;
    while d >= from
      invariant d == today - streak
      invariant streak == 0 || d + 1 >= from
      invariant forall e: nat :: d < e <= today ==> iso(e) in present
    {
      if iso(d) in present {
        streak := streak + 1;
      } else {
        break;
      }
      d := d - 1;
    }
  }
}
