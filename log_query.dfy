/**
  The read side of LogStorageServiceImpl: queryLogs over a snapshot of the
  store, as a conjunctive filter, then a stable sort that orders by
  timestamp (nulls last) only when asked to, then a limit.
 */
module LogQuery {
  import opened Wrappers
  import opened JavaText
  import opened LogEntity

  /** The parameters of queryLogs; a None filter is a wildcard. */
  datatype Query = Query(
    service: Option<string>,
    level: Option<string>,
    username: Option<string>,
    isBlacklisted: Option<bool>,
    limit: Option<int>,
    sort: Option<string>)

  /** Flux.take refuses a negative count when the pipeline is assembled. */
  datatype QueryError = NegativeLimit

  // ---------------------------------------------------------------- filters

  /** `service == null || service.equals(category)`. */
  predicate ServiceMatches(service: Option<string>, e: LogEntry) {
    service.None? || e.eventCategory == Some(service.value)
  }

  /** `level == null || level.equalsIgnoreCase(severity)`; a null severity never equals. */
  predicate LevelMatches(level: Option<string>, e: LogEntry) {
    level.None? || (e.severity.Some? && EqualsIgnoreCase(level.value, e.severity.value))
  }

  /** `username == null || username.equals(entry username)`. */
  predicate UsernameMatches(username: Option<string>, e: LogEntry) {
    username.None? || e.username == Some(username.value)
  }

  /** `isBlacklisted == null || isBlacklisted.equals(entry flag)`. */
  predicate BlacklistMatches(isBlacklisted: Option<bool>, e: LogEntry) {
    isBlacklisted.None? || e.isBlacklisted == Some(isBlacklisted.value)
  }

  /** The four filters of queryLogs, all of which must pass. */
  predicate Matches(q: Query, e: LogEntry) {
    && ServiceMatches(q.service, e)
    && LevelMatches(q.level, e)
    && UsernameMatches(q.username, e)
    && BlacklistMatches(q.isBlacklisted, e)
  }

  /** The entries of `s` that pass the filters of `q`, in their order in `s`. */
  function Filter(s: seq<LogEntry>, q: Query): (r: seq<LogEntry>)
    ensures |r| <= |s|
    ensures forall e :: e in r <==> e in s && Matches(q, e)
    ensures multiset(r) <= multiset(s)
  {
    if s == [] then []
    else
      var init := Filter(s[..|s| - 1], q);
      assert s == s[..|s| - 1] + [s[|s| - 1]];
      if Matches(q, s[|s| - 1]) then init + [s[|s| - 1]] else init
  }

  /** Filtering distributes over concatenation, so it keeps store order. */
  lemma {:induction false} FilterAppend(a: seq<LogEntry>, b: seq<LogEntry>, q: Query)
    ensures Filter(a + b, q) == Filter(a, q) + Filter(b, q)
    decreases |b|
  {
    if b == [] {
      assert a + b == a;
    } else {
      var b' := b[..|b| - 1];
      assert (a + b)[..|a + b| - 1] == a + b';
      FilterAppend(a, b', q);
    }
  }

  /** With no filter set, every entry is returned, in store order. */
  lemma {:induction false} FilterWildcard(s: seq<LogEntry>, q: Query)
    requires q.service.None? && q.level.None? && q.username.None? && q.isBlacklisted.None?
    ensures Filter(s, q) == s
  {
    if s != [] {
      FilterWildcard(s[..|s| - 1], q);
      assert s == s[..|s| - 1] + [s[|s| - 1]];
    }
  }

  /** Setting a filter only narrows the result: the filtered entries are
      exactly the ones that pass the new filter among those of the query
      without it. */
  lemma {:induction false} FilterNarrows(s: seq<LogEntry>, q: Query, service: string)
    requires q.service.None?
    ensures Filter(s, q.(service := Some(service))) == Filter(Filter(s, q), Query(Some(service), None, None, None, None, None))
  {
    if s != [] {
      FilterNarrows(s[..|s| - 1], q, service);
      var e := s[|s| - 1];
      var init := Filter(s[..|s| - 1], q);
      if Matches(q, e) {
        var q0 := Query(Some(service), None, None, None, None, None);
        assert (init + [e])[..|init + [e]| - 1] == init;
      }
    }
  }

  // ---------------------------------------------------------------- ordering

  /** compareTimestamps: two nulls tie, a null sorts after any value, and two
      values compare as String.compareTo does. */
  function CompareTimestamps(t1: Option<string>, t2: Option<string>): (r: int)
    ensures t1.None? && t2.None? ==> r == 0
    ensures t1.None? && t2.Some? ==> r > 0
    ensures t1.Some? && t2.None? ==> r < 0
    ensures t1.Some? && t2.Some? ==> (r == 0 <==> t1 == t2)
  {
    if t1.None? && t2.None? then 0
    else if t1.None? then 1
    else if t2.None? then -1
    else CompareTo(t1.value, t2.value)
  }

  /** Swapping the arguments flips the sign. */
  lemma CompareTimestampsFlip(t1: Option<string>, t2: Option<string>)
    ensures CompareTimestamps(t1, t2) <= 0 || CompareTimestamps(t2, t1) <= 0
    ensures CompareTimestamps(t1, t2) > 0 ==> CompareTimestamps(t2, t1) < 0
  {
    if t1.Some? && t2.Some? {
      CompareToAntisymmetric(t1.value, t2.value);
    }
  }

  /** "Not after" is transitive. */
  lemma CompareTimestampsTransitive(t1: Option<string>, t2: Option<string>, t3: Option<string>)
    requires CompareTimestamps(t1, t2) <= 0 && CompareTimestamps(t2, t3) <= 0
    ensures CompareTimestamps(t1, t3) <= 0
  {
    if t1.Some? && t2.Some? && t3.Some? {
      CompareToTransitive(t1.value, t2.value, t3.value);
    }
  }

  /** The comparator queryLogs hands to sort: timestamps when `sort` is
      "timestamp", otherwise every pair ties. */
  function Comparator(sort: Option<string>, a: LogEntry, b: LogEntry): int {
    if sort == Some("timestamp") then CompareTimestamps(a.timestamp, b.timestamp) else 0
  }

  /** Insert `x` into `t` after every entry that does not compare above it. */
  function Insert(t: seq<LogEntry>, x: LogEntry, sort: Option<string>): (r: seq<LogEntry>)
    ensures multiset(r) == multiset(t) + multiset{x}
    ensures |r| == |t| + 1
  {
    if t == [] then [x]
    else if Comparator(sort, t[|t| - 1], x) <= 0 then t + [x]
    else
      assert t == t[..|t| - 1] + [t[|t| - 1]];
      Insert(t[..|t| - 1], x, sort) + [t[|t| - 1]]
  }

  /** Flux.sort: a stable sort of the filtered entries with the comparator. */
  function SortBy(s: seq<LogEntry>, sort: Option<string>): (r: seq<LogEntry>)
    ensures multiset(r) == multiset(s)
    ensures |r| == |s|
  {
    if s == [] then []
    else
      assert s == s[..|s| - 1] + [s[|s| - 1]];
      Insert(SortBy(s[..|s| - 1], sort), s[|s| - 1], sort)
  }

  /** Each entry is not after the next one. */
  predicate AdjacentSorted(r: seq<LogEntry>, sort: Option<string>) {
    forall i :: 0 < i < |r| ==> Comparator(sort, r[i - 1], r[i]) <= 0
  }

  /** Every entry is not after any later one. */
  predicate Sorted(r: seq<LogEntry>, sort: Option<string>) {
    forall i, j :: 0 <= i < j < |r| ==> Comparator(sort, r[i], r[j]) <= 0
  }

  /** Appending to an ordered sequence keeps it ordered when the new entry
      is not below the last one. */
  lemma AdjacentSortedSnoc(r: seq<LogEntry>, y: LogEntry, sort: Option<string>)
    requires AdjacentSorted(r, sort)
    requires r == [] || Comparator(sort, r[|r| - 1], y) <= 0
    ensures AdjacentSorted(r + [y], sort)
  {
    var r' := r + [y];
    forall i | 0 < i < |r'| ensures Comparator(sort, r'[i - 1], r'[i]) <= 0 {
      if i < |r| {
        assert r'[i - 1] == r[i - 1] && r'[i] == r[i];
      }
    }
  }

  /** Inserting into an ordered sequence keeps it ordered; the last entry is
      then either the inserted one or the old last one. */
  lemma {:induction false} InsertSorted(t: seq<LogEntry>, x: LogEntry, sort: Option<string>)
    requires AdjacentSorted(t, sort)
    ensures AdjacentSorted(Insert(t, x, sort), sort)
    ensures var r := Insert(t, x, sort);
      r[|r| - 1] == x || (t != [] && r[|r| - 1] == t[|t| - 1])
    decreases |t|
  {
    if t == [] {
    } else if Comparator(sort, t[|t| - 1], x) <= 0 {
      AdjacentSortedSnoc(t, x, sort);
    } else {
      var t' := t[..|t| - 1];
      var y := t[|t| - 1];
      assert AdjacentSorted(t', sort) by {
        forall i | 0 < i < |t'| ensures Comparator(sort, t'[i - 1], t'[i]) <= 0 {
          assert t'[i - 1] == t[i - 1] && t'[i] == t[i];
        }
      }
      InsertSorted(t', x, sort);
      var r' := Insert(t', x, sort);
      CompareTimestampsFlip(y.timestamp, x.timestamp);
      assert Comparator(sort, x, y) <= 0;
      if t' != [] {
        assert t'[|t'| - 1] == t[|t| - 2];
        assert Comparator(sort, t'[|t'| - 1], y) <= 0;
      }
      assert Comparator(sort, r'[|r'| - 1], y) <= 0;
      AdjacentSortedSnoc(r', y, sort);
    }
  }

  /** The sort orders its result. */
  lemma {:induction false} SortByAdjacentSorted(s: seq<LogEntry>, sort: Option<string>)
    ensures AdjacentSorted(SortBy(s, sort), sort)
  {
    if s != [] {
      SortByAdjacentSorted(s[..|s| - 1], sort);
      InsertSorted(SortBy(s[..|s| - 1], sort), s[|s| - 1], sort);
    }
  }

  /** Ordered neighbours make an ordered sequence, since the comparator is transitive. */
  lemma {:induction false} AdjacentSortedIsSorted(r: seq<LogEntry>, sort: Option<string>)
    requires AdjacentSorted(r, sort)
    ensures Sorted(r, sort)
    decreases |r|
  {
    if |r| > 1 {
      var r' := r[..|r| - 1];
      assert AdjacentSorted(r', sort);
      AdjacentSortedIsSorted(r', sort);
      var n := |r| - 1;
      forall i | 0 <= i < n ensures Comparator(sort, r[i], r[n]) <= 0 {
        if i < n - 1 {
          assert Comparator(sort, r'[i], r'[n - 1]) <= 0;
          if sort == Some("timestamp") {
            CompareTimestampsTransitive(r[i].timestamp, r[n - 1].timestamp, r[n].timestamp);
          }
        }
      }
    }
  }

  /** With any sort value but "timestamp" every pair ties and the stable sort
      keeps the filtered store order. */
  lemma {:induction false} UnsortedKeepsOrder(s: seq<LogEntry>, sort: Option<string>)
    requires sort != Some("timestamp")
    ensures SortBy(s, sort) == s
  {
    if s != [] {
      UnsortedKeepsOrder(s[..|s| - 1], sort);
      assert s == s[..|s| - 1] + [s[|s| - 1]];
    }
  }

  /** The entries of `s` with timestamp `t`, in order. */
  function WithTimestamp(s: seq<LogEntry>, t: Option<string>): (r: seq<LogEntry>)
    ensures forall e :: e in r <==> e in s && e.timestamp == t
  {
    if s == [] then []
    else
      var init := WithTimestamp(s[..|s| - 1], t);
      assert s == s[..|s| - 1] + [s[|s| - 1]];
      if s[|s| - 1].timestamp == t then init + [s[|s| - 1]] else init
  }

  lemma {:induction false} WithTimestampAppend(a: seq<LogEntry>, b: seq<LogEntry>, t: Option<string>)
    ensures WithTimestamp(a + b, t) == WithTimestamp(a, t) + WithTimestamp(b, t)
    decreases |b|
  {
    if b == [] {
      assert a + b == a;
    } else {
      var b' := b[..|b| - 1];
      assert (a + b)[..|a + b| - 1] == a + b';
      WithTimestampAppend(a, b', t);
    }
  }

  lemma {:induction false} InsertStable(u: seq<LogEntry>, x: LogEntry, t: Option<string>)
    ensures WithTimestamp(Insert(u, x, Some("timestamp")), t) == WithTimestamp(u + [x], t)
    decreases |u|
  {
    var sort := Some("timestamp");
    if u != [] && Comparator(sort, u[|u| - 1], x) > 0 {
      var u' := u[..|u| - 1];
      var y := u[|u| - 1];
      assert u == u' + [y];
      assert y.timestamp != x.timestamp;
      // x and y carry different timestamps, so at most one of them is kept
      assert WithTimestamp([x], t) == [] || WithTimestamp([y], t) == [];
      calc {
        WithTimestamp(Insert(u, x, sort), t);
        WithTimestamp(Insert(u', x, sort) + [y], t);
        { WithTimestampAppend(Insert(u', x, sort), [y], t); }
        WithTimestamp(Insert(u', x, sort), t) + WithTimestamp([y], t);
        { InsertStable(u', x, t); }
        WithTimestamp(u' + [x], t) + WithTimestamp([y], t);
        { WithTimestampAppend(u', [x], t); }
        WithTimestamp(u', t) + WithTimestamp([x], t) + WithTimestamp([y], t);
        WithTimestamp(u', t) + WithTimestamp([y], t) + WithTimestamp([x], t);
        { WithTimestampAppend(u', [y], t); }
        WithTimestamp(u, t) + WithTimestamp([x], t);
        { WithTimestampAppend(u, [x], t); }
        WithTimestamp(u + [x], t);
      }
    }
  }

  /** The timestamp sort is stable: entries with the same timestamp keep
      their relative order. */
  lemma {:induction false} SortStable(s: seq<LogEntry>, t: Option<string>)
    ensures WithTimestamp(SortBy(s, Some("timestamp")), t) == WithTimestamp(s, t)
  {
    if s != [] {
      var sort := Some("timestamp");
      var s' := s[..|s| - 1];
      var x := s[|s| - 1];
      assert s == s' + [x];
      calc {
        WithTimestamp(SortBy(s, sort), t);
        WithTimestamp(Insert(SortBy(s', sort), x, sort), t);
        { InsertStable(SortBy(s', sort), x, t); }
        WithTimestamp(SortBy(s', sort) + [x], t);
        { WithTimestampAppend(SortBy(s', sort), [x], t); }
        WithTimestamp(SortBy(s', sort), t) + WithTimestamp([x], t);
        { SortStable(s', t); }
        WithTimestamp(s', t) + WithTimestamp([x], t);
        { WithTimestampAppend(s', [x], t); }
        WithTimestamp(s, t);
      }
    }
  }

  // ---------------------------------------------------------------- queryLogs

  /** `take(limit)`, or everything when the limit is absent. */
  function Take(s: seq<LogEntry>, limit: Option<int>): (r: Result<seq<LogEntry>, QueryError>)
    ensures r.Failure? <==> limit.Some? && limit.value < 0
    ensures r.Success? && limit.None? ==> r.value == s
    ensures r.Success? && limit.Some? ==>
      |r.value| == (if limit.value < |s| then limit.value else |s|) && r.value == s[..|r.value|]
  {
    match limit
    case None => Success(s)
    case Some(n) =>
      if n < 0 then Failure(NegativeLimit)
      else if n < |s| then Success(s[..n])
      else Success(s)
  }

  /** queryLogs on a snapshot of the store: filter, then sort, then limit. */
  function QueryLogs(store: seq<LogEntry>, q: Query): (r: Result<seq<LogEntry>, QueryError>)
    ensures r.Failure? <==> q.limit.Some? && q.limit.value < 0
    ensures r.Success? ==> forall e :: e in r.value ==> e in store && Matches(q, e)
    ensures r.Success? ==>
      |r.value| == (if q.limit.Some? && q.limit.value < |Filter(store, q)| then q.limit.value else |Filter(store, q)|)
  {
    var matches := Filter(store, q);
    var sorted := SortBy(matches, q.sort);
    assert forall e :: e in sorted ==> e in matches by {
      forall e | e in sorted ensures e in matches {
        assert e in multiset(sorted);
      }
    }
    Take(sorted, q.limit)
  }

  /** Without a limit the result holds each matching entry exactly as often as the store does. */
  lemma QueryAllMatches(store: seq<LogEntry>, q: Query)
    requires q.limit.None?
    ensures QueryLogs(store, q).Success?
    ensures multiset(QueryLogs(store, q).value) == multiset(Filter(store, q))
  {
  }

  /** The limit cuts the ordered result short: a limited answer is a prefix
      of the unlimited one. */
  lemma LimitIsPrefix(store: seq<LogEntry>, q: Query, n: nat)
    ensures var limited := QueryLogs(store, q.(limit := Some(n)));
      var all := QueryLogs(store, q.(limit := None));
      limited.Success? && all.Success? && limited.value <= all.value
  {
    assert Filter(store, q.(limit := Some(n))) == Filter(store, q.(limit := None)) by {
      FilterIgnoresLimitAndSort(store, q, q.(limit := Some(n)));
      FilterIgnoresLimitAndSort(store, q, q.(limit := None));
    }
  }

  /** Only the four filters decide which entries pass. */
  lemma {:induction false} FilterIgnoresLimitAndSort(s: seq<LogEntry>, q: Query, q': Query)
    requires q'.service == q.service && q'.level == q.level
    requires q'.username == q.username && q'.isBlacklisted == q.isBlacklisted
    ensures Filter(s, q') == Filter(s, q)
  {
    if s != [] {
      FilterIgnoresLimitAndSort(s[..|s| - 1], q, q');
    }
  }

  /** Sorted by timestamp: the result is in order and nulls come last. */
  lemma TimestampQuerySorted(store: seq<LogEntry>, q: Query)
    requires q.sort == Some("timestamp")
    requires QueryLogs(store, q).Success?
    ensures var r := QueryLogs(store, q).value;
      && (forall i, j :: 0 <= i < j < |r| ==> CompareTimestamps(r[i].timestamp, r[j].timestamp) <= 0)
      && (forall i, j :: 0 <= i < j < |r| && r[i].timestamp.None? ==> r[j].timestamp.None?)
  {
    var sorted := SortBy(Filter(store, q), q.sort);
    SortByAdjacentSorted(Filter(store, q), q.sort);
    AdjacentSortedIsSorted(sorted, q.sort);
    var r := QueryLogs(store, q).value;
    assert r == sorted[..|r|];
    forall i, j | 0 <= i < j < |r| ensures CompareTimestamps(r[i].timestamp, r[j].timestamp) <= 0 {
      assert r[i] == sorted[i] && r[j] == sorted[j];
    }
  }

  /** Any other sort value returns the matches in store order, cut at the limit. */
  lemma UnsortedQueryInStoreOrder(store: seq<LogEntry>, q: Query)
    requires q.sort != Some("timestamp")
    requires QueryLogs(store, q).Success?
    ensures QueryLogs(store, q).value <= Filter(store, q)
  {
    UnsortedKeepsOrder(Filter(store, q), q.sort);
  }

  /** Sorting by timestamp keeps entries with equal timestamps in store order. */
  lemma TimestampQueryStable(store: seq<LogEntry>, q: Query, t: Option<string>)
    requires q.sort == Some("timestamp") && q.limit.None?
    ensures QueryLogs(store, q).Success?
    ensures WithTimestamp(QueryLogs(store, q).value, t) == WithTimestamp(Filter(store, q), t)
  {
    SortStable(Filter(store, q), t);
  }
}
