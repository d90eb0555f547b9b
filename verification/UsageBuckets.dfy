/**
  Usage per time bucket and model (models/chat_messages.py), in a zone with a fixed offset from UTC.
  Times are whole milliseconds; a local time is the milliseconds since the local epoch.
 */
module UsageBuckets {
  import opened Prelude

  type Model = string

  const MINUTE := 60_000
  const DAY := 86_400_000
  const MIN_VALID := 1_577_836_800_000      // 2020-01-01
  const SECONDS_LIMIT := 10_000_000_000     // larger stored values are milliseconds

  /** Buckets of 10 minutes, 1, 3 and 6 hours, and a day. */
  datatype Granularity = TenMinutes | Hourly | ThreeHours | SixHours | Daily {
    function Minutes(): (m: nat)
      ensures m > 0 && 1440 % m == 0
    {
      match this
      case TenMinutes => 10
      case Hourly => 60
      case ThreeHours => 180
      case SixHours => 360
      case Daily => 1440
    }

    function Step(): (s: nat)
      ensures s > 0
    {
      Minutes() * MINUTE
    }
  }

  /** `_normalize_timestamp`: a stored value in seconds or milliseconds; now when it cannot be right. */
  function Normalize(timestamp: Option<int>, now: int): int {
    if timestamp.None? then now
    else
      var t := if timestamp.value > SECONDS_LIMIT then timestamp.value else timestamp.value * 1000;
      if t < MIN_VALID || t > now + DAY then now else t
  }

  /** The clock and the shifts applied to every timestamp of one query. */
  datatype Frame = Frame(now: int, zone: int, bucketOffset: int) {
    function Local(timestamp: Option<int>): int {
      Normalize(timestamp, now) + bucketOffset + zone
    }
  }

  /** The lengths of the buckets, in milliseconds. */
  lemma StepLengths()
    ensures TenMinutes.Step() == 600_000 && Hourly.Step() == 3_600_000 && ThreeHours.Step() == 10_800_000
    ensures SixHours.Step() == 21_600_000 && Daily.Step() == 86_400_000
  {
  }

  /** A time of 2020 or later and at most a day ahead counts, in milliseconds or in seconds; any other is now. */
  lemma NormalizeMeans(now: int, ms: int)
    ensures 1_577_836_800_000 <= ms <= now + 86_400_000 ==> Normalize(Some(ms), now) == ms
    ensures 1_577_836_800_000 <= ms <= now + 86_400_000 && ms % 1000 == 0 && ms / 1000 <= 10_000_000_000 ==>
              Normalize(Some(ms / 1000), now) == ms
    ensures !(1_577_836_800_000 <= ms <= now + 86_400_000) && ms > 10_000_000_000 ==> Normalize(Some(ms), now) == now
    ensures !(1_577_836_800_000 <= ms * 1000 <= now + 86_400_000) && ms <= 10_000_000_000 ==>
              Normalize(Some(ms), now) == now
    ensures Normalize(None, now) == now
  {
  }

  // ---------- Bucket starts ----------

  /** `bucket_start` on a local time: keep the day, round the minute of the day down, drop the rest. */
  function Start(g: Granularity, local: int): int {
    var day, minutes := local / DAY, local % DAY / MINUTE;
    var rounded := minutes / g.Minutes() * g.Minutes();
    day * DAY + rounded / 60 * 60 * MINUTE + rounded % 60 * MINUTE
  }

  lemma MulAtLeast(k: int, step: int)
    requires step > 0
    ensures k >= 1 ==> k * step >= step
    ensures k <= -1 ==> k * step <= -step
    ensures k >= 0 ==> k * step >= 0
  {
  }

  lemma UniqueQuotient(x: int, step: int, d: int, q: int)
    requires step > 0 && d * step <= x < d * step + step && q * step <= x < q * step + step
    ensures d == q
  {
    MulAtLeast(d - q, step);
    assert (d - q) * step == d * step - q * step;
  }

  lemma Quotient(x: int, step: int)
    requires step > 0
    ensures x / step * step <= x < x / step * step + step
  {
    assert x == x / step * step + x % step;
  }

  lemma FloorUnique(x: int, step: int, q: int)
    requires step > 0 && q * step <= x < q * step + step
    ensures x / step == q
  {
    Quotient(x, step);
    UniqueQuotient(x, step, x / step, q);
  }

  /** The k-th bucket of a day, counted from the epoch. */
  lemma BucketOfDay(day: int, k: int, m: int, perDay: int, minutes: int, inDay: int)
    requires m > 0 && perDay * m == 1440
    requires k * m <= minutes < k * m + m && minutes * MINUTE <= inDay < minutes * MINUTE + MINUTE
    ensures var q, step := day * perDay + k, m * MINUTE;
            q * step == day * DAY + k * m * MINUTE && q * step <= day * DAY + inDay < q * step + step
  {
    var q, step := day * perDay + k, m * MINUTE;
    assert perDay * step == perDay * m * MINUTE == DAY;
    assert day * perDay * step == day * (perDay * step);
    assert q * step == day * perDay * step + k * step;
    assert k * step == k * m * MINUTE;
  }

  /** Rounding inside the day is rounding on the whole line, since buckets divide the day. */
  lemma StartIsFloor(g: Granularity, local: int)
    ensures Start(g, local) == local / g.Step() * g.Step()
    ensures Start(g, local) <= local < Start(g, local) + g.Step()
  {
    var m := g.Minutes();
    var day, inDay := local / DAY, local % DAY;
    var minutes := inDay / MINUTE;
    var k, perDay := minutes / m, 1440 / m;
    Quotient(minutes, m);
    Quotient(1440, m);
    assert perDay * m == 1440;
    BucketOfDay(day, k, m, perDay, minutes, inDay);
    FloorUnique(local, g.Step(), day * perDay + k);
    var rounded := k * m;
    assert rounded / 60 * 60 + rounded % 60 == rounded;
  }

  lemma FloorFacts(s: int, t: int, step: int)
    requires step > 0
    ensures t / step * step / step * step == t / step * step
    ensures s <= t ==> s / step <= t / step && s / step * step <= t / step * step
  {
    FloorUnique(t / step * step, step, t / step);
    var a, b := s / step, t / step;
    Quotient(s, step);
    Quotient(t, step);
    if s <= t {
      QuotientsOrdered(s, t, step, a, b);
    }
  }

  lemma QuotientsOrdered(s: int, t: int, step: int, a: int, b: int)
    requires step > 0 && a * step <= s && t < b * step + step && s <= t
    ensures a <= b && a * step <= b * step
  {
    MulAtLeast(a - b, step);
    MulAtLeast(b - a, step);
    assert (a - b) * step == a * step - b * step;
    assert (b - a) * step == b * step - a * step;
  }

  /** Bucket starts are fixed points, each time lies in its bucket, and order is kept. */
  lemma StartTheorem(g: Granularity, s: int, t: int)
    ensures Start(g, Start(g, t)) == Start(g, t)
    ensures Start(g, t) <= t < Start(g, t) + g.Step()
    ensures s <= t ==> Start(g, s) <= Start(g, t)
  {
    StartIsFloor(g, t);
    StartIsFloor(g, s);
    StartIsFloor(g, Start(g, t));
    FloorFacts(s, t, g.Step());
  }

  // ---------- Counting ----------

  datatype Event = Event(timestamp: Option<int>, model: Model, value: int)

  /** An event, or a group of events, already assigned to its bucket. */
  datatype Entry = Entry(bucket: int, model: Model, value: int)

  type Counts = map<int, map<Model, int>>

  function EntryOf(g: Granularity, f: Frame, e: Event): Entry {
    Entry(Start(g, f.Local(e.timestamp)), e.model, e.value)
  }

  function EntriesOf(g: Granularity, f: Frame, events: seq<Event>): seq<Entry> {
    seq(|events|, k requires 0 <= k < |events| => EntryOf(g, f, events[k]))
  }

  /** The total of a model in a bucket. */
  function SumOf(entries: seq<Entry>, bucket: int, model: Model): int {
    if entries == [] then 0
    else
      var n := |entries| - 1;
      SumOf(entries[..n], bucket, model) +
      if entries[n].bucket == bucket && entries[n].model == model then entries[n].value else 0
  }

  predicate Occurs(entries: seq<Entry>, bucket: int, model: Model) {
    exists k :: 0 <= k < |entries| && entries[k].bucket == bucket && entries[k].model == model
  }

  /** Each bucket of the counts holds the totals of the models that occur in it, and no other model. */
  ghost predicate Sums(entries: seq<Entry>, counts: Counts) {
    forall b, m :: b in counts ==>
      (m in counts[b] <==> Occurs(entries, b, m)) && (m in counts[b] ==> counts[b][m] == SumOf(entries, b, m))
  }

  ghost predicate HasBucket(entries: seq<Entry>, b: int) {
    exists k :: 0 <= k < |entries| && entries[k].bucket == b
  }

  /** The counts hold the total of every bucket and model that occurs, and nothing else. */
  ghost predicate Tally(entries: seq<Entry>, counts: Counts) {
    (forall b :: b in counts ==> HasBucket(entries, b)) &&
    (forall k :: 0 <= k < |entries| ==> entries[k].bucket in counts) &&
    Sums(entries, counts)
  }

  /** An event's bucket is the multiple of the step at or below its shifted local time; model and value stay. */
  lemma EntryMeans(g: Granularity, f: Frame, e: Event)
    ensures var local, entry := Normalize(e.timestamp, f.now) + f.bucketOffset + f.zone, EntryOf(g, f, e);
            entry.bucket % g.Step() == 0 && entry.bucket <= local < entry.bucket + g.Step() &&
            entry.model == e.model && entry.value == e.value
  {
    var local := f.Local(e.timestamp);
    StartIsFloor(g, local);
    MultipleHasNoRest(local / g.Step(), g.Step());
  }

  lemma MultipleHasNoRest(q: int, step: int)
    requires step > 0
    ensures q * step % step == 0
  {
    FloorUnique(q * step, step, q);
    assert q * step == q * step / step * step + q * step % step;
  }

  lemma SumOfAbsent(entries: seq<Entry>, bucket: int, model: Model)
    requires !Occurs(entries, bucket, model)
    ensures SumOf(entries, bucket, model) == 0
    decreases |entries|
  {
    if entries != [] {
      var n := |entries| - 1;
      forall k | 0 <= k < n
        ensures !(entries[..n][k].bucket == bucket && entries[..n][k].model == model)
      {
        assert entries[..n][k] == entries[k];
      }
      SumOfAbsent(entries[..n], bucket, model);
    }
  }

  /** Adding one entry to the counts. */
  lemma TallyStep(entries: seq<Entry>, counts: Counts, e: Entry, counts': Counts)
    requires Tally(entries, counts)
    requires var row := if e.bucket in counts then counts[e.bucket] else map[];
             counts' == counts[e.bucket := row[e.model := (if e.model in row then row[e.model] else 0) + e.value]]
    ensures Tally(entries + [e], counts')
  {
    var all := entries + [e];
    assert all[..|entries|] == entries;
    assert all[|entries|] == e;
    forall k | 0 <= k < |entries|
      ensures all[k] == entries[k]
    {
    }
    forall b, m | b in counts'
      ensures m in counts'[b] <==> Occurs(all, b, m)
      ensures m in counts'[b] ==> counts'[b][m] == SumOf(all, b, m)
    {
      if b == e.bucket && m == e.model {
        if !Occurs(entries, b, m) {
          SumOfAbsent(entries, b, m);
        }
      } else {
        assert Occurs(all, b, m) <==> Occurs(entries, b, m) by {
          if k :| 0 <= k < |all| && all[k].bucket == b && all[k].model == m {
            assert k < |entries| && entries[k] == all[k];
          }
          if k :| 0 <= k < |entries| && entries[k].bucket == b && entries[k].model == m {
            assert all[k] == entries[k];
          }
        }
      }
    }
    forall b | b in counts'
      ensures HasBucket(all, b)
    {
      if b != e.bucket {
        var k :| 0 <= k < |entries| && entries[k].bucket == b;
        assert all[k].bucket == b;
      }
    }
  }

  method Accumulate(entries: seq<Entry>) returns (counts: Counts)
    ensures Tally(entries, counts)
  {
    counts := map[];
    for k := 0 to |entries|
      invariant Tally(entries[..k], counts)
    {
      var e := entries[k];
      ghost var before := counts;
      if e.bucket !in counts {
        counts := counts[e.bucket := map[]];
      }
      var row := counts[e.bucket];
      counts := counts[e.bucket := row[e.model := (if e.model in row then row[e.model] else 0) + e.value]];
      TallyStep(entries[..k], before, e, counts);
      assert entries[..k + 1] == entries[..k] + [e];
    }
    assert entries[..|entries|] == entries;
  }

  // ---------- The database may group first ----------

  /** GROUP BY bucket and model: one row for each pair that occurs, holding its total. */
  ghost predicate GroupedBy(entries: seq<Entry>, groups: seq<Entry>) {
    (forall i, j :: 0 <= i < j < |groups| ==> (groups[i].bucket, groups[i].model) != (groups[j].bucket, groups[j].model)) &&
    (forall b, m :: Occurs(groups, b, m) <==> Occurs(entries, b, m)) &&
    forall i :: 0 <= i < |groups| ==> groups[i].value == SumOf(entries, groups[i].bucket, groups[i].model)
  }

  lemma {:induction false} SumOfSingle(groups: seq<Entry>, k: nat)
    requires k < |groups|
    requires forall i, j :: 0 <= i < j < |groups| ==> (groups[i].bucket, groups[i].model) != (groups[j].bucket, groups[j].model)
    ensures SumOf(groups, groups[k].bucket, groups[k].model) == groups[k].value
    decreases |groups|
  {
    var n := |groups| - 1;
    var g := groups[k];
    if k == n {
      forall i | 0 <= i < n
        ensures !(groups[..n][i].bucket == g.bucket && groups[..n][i].model == g.model)
      {
        assert (groups[i].bucket, groups[i].model) != (groups[n].bucket, groups[n].model);
      }
      SumOfAbsent(groups[..n], g.bucket, g.model);
    } else {
      SumOfSingle(groups[..n], k);
    }
  }

  /** `_daily_usage_bucket`: the local day number that the database works out on its own. */
  function SqlDay(f: Frame, timestamp: Option<int>): int {
    var seconds := if timestamp.Some? && timestamp.value > SECONDS_LIMIT then timestamp
                   else if timestamp.Some? then Some(timestamp.value * 1000) else None;
    var valid := if seconds.Some? && MIN_VALID <= seconds.value <= f.now + DAY then seconds.value else f.now;
    (valid + f.bucketOffset + f.zone) / DAY
  }

  function SqlEntries(f: Frame, events: seq<Event>): seq<Entry> {
    seq(|events|, k requires 0 <= k < |events| =>
      Entry(SqlDay(f, events[k].timestamp) * DAY, events[k].model, events[k].value))
  }

  /** The database's day is the daily bucket of the same event. */
  lemma SqlEntriesAgree(f: Frame, events: seq<Event>)
    ensures SqlEntries(f, events) == EntriesOf(Daily, f, events)
  {
    forall k | 0 <= k < |events|
      ensures SqlEntries(f, events)[k] == EntriesOf(Daily, f, events)[k]
    {
      StartIsFloor(Daily, f.Local(events[k].timestamp));
    }
  }

  /** Counts of pre-grouped rows are counts of the rows themselves. */
  lemma GroupingFirst(entries: seq<Entry>, groups: seq<Entry>, counts: Counts)
    requires GroupedBy(entries, groups) && Tally(groups, counts)
    ensures Tally(entries, counts)
  {
    forall k | 0 <= k < |entries|
      ensures entries[k].bucket in counts
    {
      assert Occurs(entries, entries[k].bucket, entries[k].model);
      assert Occurs(groups, entries[k].bucket, entries[k].model);
    }
    forall b | b in counts
      ensures HasBucket(entries, b)
    {
      var k :| 0 <= k < |groups| && groups[k].bucket == b;
      assert Occurs(groups, b, groups[k].model);
      assert Occurs(entries, b, groups[k].model);
    }
    forall b, m | b in counts && m in counts[b]
      ensures counts[b][m] == SumOf(entries, b, m)
    {
      assert Occurs(groups, b, m);
      var k :| 0 <= k < |groups| && groups[k].bucket == b && groups[k].model == m;
      SumOfSingle(groups, k);
    }
  }

  lemma SameBuckets(entries: seq<Entry>, counts: Counts, counts': Counts)
    requires Tally(entries, counts) && Tally(entries, counts')
    ensures counts.Keys <= counts'.Keys
  {
    forall b | b in counts
      ensures b in counts'
    {
      var k :| 0 <= k < |entries| && entries[k].bucket == b;
    }
  }

  /** A tally is determined by the entries. */
  lemma TallyIsUnique(entries: seq<Entry>, counts: Counts, counts': Counts)
    requires Tally(entries, counts) && Tally(entries, counts')
    ensures counts == counts'
  {
    SameBuckets(entries, counts, counts');
    SameBuckets(entries, counts', counts);
    forall b | b in counts
      ensures counts[b] == counts'[b]
    {
      assert counts[b].Keys == counts'[b].Keys;
    }
  }

  // ---------- Conservation ----------

  /** The sum of a model over a list of buckets. */
  function SumOver(entries: seq<Entry>, buckets: seq<int>, model: Model): int {
    if buckets == [] then 0 else SumOf(entries, buckets[0], model) + SumOver(entries, buckets[1..], model)
  }

  function ModelTotal(entries: seq<Entry>, model: Model): int {
    if entries == [] then 0
    else
      var n := |entries| - 1;
      ModelTotal(entries[..n], model) + if entries[n].model == model then entries[n].value else 0
  }

  /** One more event adds its value to one bucket. */
  lemma {:induction false} SumOverStep(entries: seq<Entry>, buckets: seq<int>, model: Model)
    requires entries != [] && Distinct(buckets)
    ensures var n := |entries| - 1;
            SumOver(entries, buckets, model) ==
            SumOver(entries[..n], buckets, model) +
            if entries[n].bucket in buckets && entries[n].model == model then entries[n].value else 0
    decreases |buckets|
  {
    if buckets != [] {
      SumOverStep(entries, buckets[1..], model);
      assert buckets == [buckets[0]] + buckets[1..];
      assert buckets[0] !in buckets[1..];
    }
  }

  lemma {:induction false} SumOverNothing(buckets: seq<int>, model: Model)
    ensures SumOver([], buckets, model) == 0
  {
    if buckets != [] {
      SumOverNothing(buckets[1..], model);
    }
  }

  /** Nothing is lost or counted twice: a model's buckets add up to all its events. */
  lemma {:induction false} Conservation(entries: seq<Entry>, buckets: seq<int>, model: Model)
    requires Distinct(buckets) && forall k :: 0 <= k < |entries| ==> entries[k].bucket in buckets
    ensures SumOver(entries, buckets, model) == ModelTotal(entries, model)
    decreases |entries|
  {
    if entries == [] {
      SumOverNothing(buckets, model);
    } else {
      var n := |entries| - 1;
      assert forall k :: 0 <= k < n ==> entries[..n][k] == entries[k];
      Conservation(entries[..n], buckets, model);
      SumOverStep(entries, buckets, model);
    }
  }

  /** The sum of a model over the counts of a list of buckets. */
  function SumCounts(counts: Counts, buckets: seq<int>, model: Model): int {
    if buckets == [] then 0
    else
      var b := buckets[0];
      (if b in counts && model in counts[b] then counts[b][model] else 0) + SumCounts(counts, buckets[1..], model)
  }

  function EventTotal(events: seq<Event>, model: Model): int {
    if events == [] then 0
    else
      var n := |events| - 1;
      EventTotal(events[..n], model) + if events[n].model == model then events[n].value else 0
  }

  lemma {:induction false} SumCountsIsSumOver(entries: seq<Entry>, counts: Counts, buckets: seq<int>, model: Model)
    requires Sums(entries, counts) && forall k :: 0 <= k < |buckets| ==> buckets[k] in counts
    ensures SumCounts(counts, buckets, model) == SumOver(entries, buckets, model)
  {
    if buckets != [] {
      SumCountsIsSumOver(entries, counts, buckets[1..], model);
      if model !in counts[buckets[0]] {
        SumOfAbsent(entries, buckets[0], model);
      }
    }
  }

  lemma {:induction false} EntriesKeepTotals(g: Granularity, f: Frame, events: seq<Event>, model: Model)
    ensures ModelTotal(EntriesOf(g, f, events), model) == EventTotal(events, model)
    decreases |events|
  {
    if events != [] {
      var n := |events| - 1;
      EntriesKeepTotals(g, f, events[..n], model);
      assert EntriesOf(g, f, events)[..n] == EntriesOf(g, f, events[..n]);
    }
  }

  /** What a query returns holds every event's value once: no model gains or loses. */
  ghost predicate Conserves(counts: Counts, events: seq<Event>) {
    forall buckets, model :: Distinct(buckets) && (forall b :: b in buckets <==> b in counts) ==>
      SumCounts(counts, buckets, model) == EventTotal(events, model)
  }

  lemma CountsConserve(g: Granularity, f: Frame, events: seq<Event>, counts: Counts)
    requires var entries := EntriesOf(g, f, events);
             Sums(entries, counts) && forall b :: HasBucket(entries, b) ==> b in counts
    ensures Conserves(counts, events)
  {
    var entries := EntriesOf(g, f, events);
    forall buckets, model | Distinct(buckets) && (forall b :: b in buckets <==> b in counts)
      ensures SumCounts(counts, buckets, model) == EventTotal(events, model)
    {
      forall k | 0 <= k < |entries|
        ensures entries[k].bucket in buckets
      {
        assert HasBucket(entries, entries[k].bucket);
      }
      forall k | 0 <= k < |buckets|
        ensures buckets[k] in counts
      {
        var b := buckets[k];
        assert b in buckets;
      }
      SumCountsIsSumOver(entries, counts, buckets, model);
      Conservation(entries, buckets, model);
      EntriesKeepTotals(g, f, events, model);
    }
  }

  // ---------- Gap filling ----------

  function Grid(first: int, step: int, k: int): int {
    first + k * step
  }

  /** One of the bucket starts that the loop visits before its n-th round. */
  ghost predicate Visited(first: int, step: int, n: int, b: int) {
    exists k :: 0 <= k < n && b == Grid(first, step, k)
  }

  lemma VisitNext(first: int, step: int, n: int)
    requires n >= 0
    ensures Grid(first, step, n + 1) == Grid(first, step, n) + step
    ensures forall b :: Visited(first, step, n + 1, b) <==> Visited(first, step, n, b) || b == Grid(first, step, n)
  {
    assert (n + 1) * step == n * step + step;
    forall b
      ensures Visited(first, step, n + 1, b) <==> Visited(first, step, n, b) || b == Grid(first, step, n)
    {
      if Visited(first, step, n + 1, b) {
        var k :| 0 <= k < n + 1 && b == Grid(first, step, k);
        assert k < n ==> Visited(first, step, n, b);
      }
      if Visited(first, step, n, b) {
        var k :| 0 <= k < n && b == Grid(first, step, k);
        assert 0 <= k < n + 1;
      }
    }
  }

  lemma VisitedBetween(a: int, b: int, step: int, n: int, end: int)
    requires step > 0 && a <= b && b * step <= end < Grid(a * step, step, n)
    ensures Visited(a * step, step, n, b * step)
  {
    var k := b - a;
    assert b * step == a * step + k * step;
    MulAtLeast(k - n, step);
    assert k * step == n * step + (k - n) * step;
    assert b * step == Grid(a * step, step, k);
  }

  lemma GridMultiple(a: int, step: int, k: int, n: int)
    requires step > 0 && 0 <= k < n
    ensures Grid(a * step, step, k) == (a + k) * step && Grid(a * step, step, k) / step == a + k
    ensures a * step <= Grid(a * step, step, k) <= Grid(a * step, step, n - 1)
  {
    assert (a + k) * step == a * step + k * step;
    FloorUnique(Grid(a * step, step, k), step, a + k);
    MulAtLeast(k, step);
    MulAtLeast(n - 1 - k, step);
    assert (n - 1) * step == k * step + (n - 1 - k) * step;
  }

  /** When the loop is past the end it has visited exactly the buckets from the start's to the end. */
  lemma VisitedExactly(g: Granularity, start: int, end: int, n: int, b: int)
    requires n >= 0 && (n > 0 ==> Grid(Start(g, start), g.Step(), n - 1) <= end) && end < Grid(Start(g, start), g.Step(), n)
    ensures Visited(Start(g, start), g.Step(), n, b) <==> InRange(g, start, end, b)
  {
    StartIsFloor(g, start);
    StartIsFloor(g, b);
    if Visited(Start(g, start), g.Step(), n, b) {
      VisitedAreMultiples(start / g.Step(), g.Step(), n, end, b);
    }
    if InRange(g, start, end, b) {
      MultiplesAreVisited(start / g.Step(), g.Step(), n, end, b);
    }
  }

  lemma VisitedAreMultiples(a: int, step: int, n: int, end: int, b: int)
    requires step > 0 && (n > 0 ==> Grid(a * step, step, n - 1) <= end) && Visited(a * step, step, n, b)
    ensures b / step * step == b && a * step <= b <= end
  {
    var k :| 0 <= k < n && b == Grid(a * step, step, k);
    GridMultiple(a, step, k, n);
  }

  lemma MultiplesAreVisited(a: int, step: int, n: int, end: int, b: int)
    requires step > 0 && end < Grid(a * step, step, n) && b / step * step == b && a * step <= b <= end
    ensures Visited(a * step, step, n, b)
  {
    var c := b / step;
    MulAtLeast(a - c, step);
    assert (a - c) * step == a * step - c * step;
    VisitedBetween(a, c, step, n, end);
  }

  /** A bucket between the start's and the end. */
  predicate InRange(g: Granularity, start: int, end: int, b: int) {
    Start(g, b) == b && Start(g, start) <= b <= end
  }

  /** Every time between start and end belongs to such a bucket. */
  lemma BucketInRange(g: Granularity, start: int, t: int, end: int)
    requires start <= t <= end
    ensures InRange(g, start, end, Start(g, t))
  {
    StartTheorem(g, start, t);
  }

  /** From the bucket of the start to the end, one step at a time. */
  method FillGaps(g: Granularity, counts: Counts, start: int, end: int) returns (filled: Counts)
    ensures forall b :: b in filled <==> b in counts || InRange(g, start, end, b)
    ensures forall b :: b in filled ==> filled[b] == if b in counts then counts[b] else map[]
    // every time in the range finds its bucket
    ensures forall t :: start <= t <= end ==> Start(g, t) in filled
  {
    var step := g.Step();
    var first := Start(g, start);
    var current := first;
    ghost var rounds := 0;
    filled := counts;
    while current <= end
      invariant rounds >= 0 && current == Grid(first, step, rounds)
      invariant rounds > 0 ==> Grid(first, step, rounds - 1) <= end
      invariant forall b :: b in filled <==> b in counts || Visited(first, step, rounds, b)
      invariant forall b :: b in filled ==> filled[b] == if b in counts then counts[b] else map[]
      decreases end - current
    {
      VisitNext(first, step, rounds);
      if current !in filled {
        filled := filled[current := map[]];
      }
      current := current + step;
      rounds := rounds + 1;
    }
    forall b
      ensures Visited(first, step, rounds, b) <==> InRange(g, start, end, b)
    {
      VisitedExactly(g, start, end, rounds, b);
    }
    forall t | start <= t <= end
      ensures Start(g, t) in filled
    {
      BucketInRange(g, start, t, end);
    }
  }

  // ---------- The query ----------

  /** Empty buckets belong to no event. */
  lemma GapsKeepSums(entries: seq<Entry>, counts: Counts, filled: Counts)
    requires Tally(entries, counts) && forall b :: b in counts ==> b in filled
    requires forall b :: b in filled ==> filled[b] == if b in counts then counts[b] else map[]
    ensures Sums(entries, filled)
  {
    forall b, m | b in filled && b !in counts
      ensures !Occurs(entries, b, m)
    {
      assert HasBucket(entries, b) ==> b in counts;
    }
  }

  lemma TallyBuckets(entries: seq<Entry>, counts: Counts, b: int)
    requires Tally(entries, counts)
    ensures b in counts <==> HasBucket(entries, b)
  {
  }

  /** `get_usage_over_time_by_model`; `groups` is what the database returns when it groups by day itself. */
  method UsageOverTime(g: Granularity, f: Frame, events: seq<Event>, groups: Option<seq<Entry>>,
                       start: Option<int>, end: Option<int>)
    returns (counts: Counts)
    requires groups.Some? ==> g == Daily && GroupedBy(SqlEntries(f, events), groups.value)
    ensures Sums(EntriesOf(g, f, events), counts)
    ensures Conserves(counts, events)
    ensures forall b :: b in counts <==>
              HasBucket(EntriesOf(g, f, events), b) ||
              (start.Some? && end.Some? && start.value != 0 && end.value != 0 &&
               InRange(g, f.Local(start), f.Local(end), b))
  {
    var entries := EntriesOf(g, f, events);
    var rows := if groups.Some? then groups.value else entries;
    counts := Accumulate(rows);
    if groups.Some? {
      SqlEntriesAgree(f, events);
      GroupingFirst(entries, groups.value, counts);
    }
    forall b
      ensures b in counts <==> HasBucket(entries, b)
    {
      TallyBuckets(entries, counts, b);
    }
    // zero counts as absent
    if start.Some? && end.Some? && start.value != 0 && end.value != 0 {
      ghost var tallied := counts;
      counts := FillGaps(g, counts, f.Local(start), f.Local(end));
      GapsKeepSums(entries, tallied, counts);
    }
    CountsConserve(g, f, events, counts);
  }
}
