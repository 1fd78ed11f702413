/**
  The write side of LogStorageServiceImpl: a bounded buffer of capacity
  1000 in front of an append-only store, drained one entry at a time by a
  single consumer that keeps three counters.
 */
module LogStorage {
  import opened Wrappers
  import opened JavaText
  import opened Counters
  import opened LogEntity
  import opened LogQuery

  /** The capacity of the sink's backpressure buffer. */
  const Capacity: nat := 1000

  /** What ingestLog reports: the entry was buffered, or the buffer was full
      (the error the HTTP layer turns into 429 Too Many Requests). */
  datatype IngestResult = Accepted | Overflow

  /** The category keys counted for a store: one per entry with a category. */
  function CategoryKeys(store: seq<LogEntry>): (r: seq<string>)
    ensures |r| <= |store|
  {
    if store == [] then []
    else
      var e := store[|store| - 1];
      CategoryKeys(store[..|store| - 1]) + (if e.eventCategory.Some? then [e.eventCategory.value] else [])
  }

  /** The severity keys counted for a store: the lower-cased severity of each
      entry that has one. */
  function SeverityKeys(store: seq<LogEntry>): (r: seq<string>)
    ensures |r| <= |store|
  {
    if store == [] then []
    else
      var e := store[|store| - 1];
      SeverityKeys(store[..|store| - 1]) + (if e.severity.Some? then [ToLower(e.severity.value)] else [])
  }

  /** The counter of a category is the number of entries a query on that
      service returns. */
  lemma {:induction false} CategoryKeysCount(store: seq<LogEntry>, c: string)
    ensures multiset(CategoryKeys(store))[c] == |Filter(store, Query(Some(c), None, None, None, None, None))|
  {
    if store != [] {
      CategoryKeysCount(store[..|store| - 1], c);
    }
  }

  /** The counter under a lower-cased severity is the number of entries a
      query on any spelling of that level returns. */
  lemma {:induction false} SeverityKeysCount(store: seq<LogEntry>, level: string)
    ensures multiset(SeverityKeys(store))[ToLower(level)] == |Filter(store, Query(None, Some(level), None, None, None, None))|
  {
    if store != [] {
      SeverityKeysCount(store[..|store| - 1], level);
      var e := store[|store| - 1];
      if e.severity.Some? {
        EqualsIgnoreCaseIsLowerEqual(level, e.severity.value);
      }
    }
  }

  /** LogStorageServiceImpl. `logSink` is the sink's buffer of entries
      emitted but not yet consumed; `admitted` is every entry ever accepted. */
  class StorageService {
    var logStore: seq<LogEntry>
    var logSink: seq<LogEntry>
    var totalLogsReceived: nat
    var categoryMetrics: map<string, nat>
    var severityMetrics: map<string, nat>
    ghost var admitted: seq<LogEntry>

    /** The buffer stays within its capacity, entries pass through it in
        order, and the counters describe exactly the stored entries. */
    ghost predicate Valid()
      reads this
    {
      && |logSink| <= Capacity
      && admitted == logStore + logSink
      && totalLogsReceived == |logStore|
      && categoryMetrics == CountsOf(CategoryKeys(logStore))
      && severityMetrics == CountsOf(SeverityKeys(logStore))
    }

    constructor ()
      ensures Valid()
      ensures logStore == [] && logSink == [] && admitted == []
      ensures totalLogsReceived == 0 && categoryMetrics == map[] && severityMetrics == map[]
    {
      logStore := [];
      logSink := [];
      totalLogsReceived := 0;
      categoryMetrics := map[];
      severityMetrics := map[];
      admitted := [];
    }

    /** ingestLog: a full buffer refuses the entry with Overflow and nothing
        changes; otherwise the entry joins the back of the buffer. */
    method IngestLog(e: LogEntry) returns (r: IngestResult)
      requires Valid()
      modifies this
      ensures Valid()
      ensures r == Overflow <==> |old(logSink)| == Capacity
      ensures r == Overflow ==> logSink == old(logSink) && admitted == old(admitted)
      ensures r == Accepted ==> logSink == old(logSink) + [e] && admitted == old(admitted) + [e]
      ensures logStore == old(logStore) && totalLogsReceived == old(totalLogsReceived)
      ensures categoryMetrics == old(categoryMetrics) && severityMetrics == old(severityMetrics)
    {
      if |logSink| >= Capacity {
        return Overflow;
      }
      logSink := logSink + [e];
      admitted := admitted + [e];
      r := Accepted;
    }

    /** processAndStore: append the entry and count it. */
    method ProcessAndStore(e: LogEntry)
      modifies this
      ensures logStore == old(logStore) + [e]
      ensures totalLogsReceived == old(totalLogsReceived) + 1
      ensures categoryMetrics ==
        if e.eventCategory.Some? then Bump(old(categoryMetrics), e.eventCategory.value) else old(categoryMetrics)
      ensures severityMetrics ==
        if e.severity.Some? then Bump(old(severityMetrics), ToLower(e.severity.value)) else old(severityMetrics)
      ensures logSink == old(logSink) && admitted == old(admitted)
    {
      logStore := logStore + [e];
      totalLogsReceived := totalLogsReceived + 1;
      if e.eventCategory.Some? {
        categoryMetrics := Bump(categoryMetrics, e.eventCategory.value);
      }
      if e.severity.Some? {
        severityMetrics := Bump(severityMetrics, ToLower(e.severity.value));
      }
    }

    /** One step of the consumer: take the oldest buffered entry, if any,
        and store it. */
    method DrainOne() returns (drained: Option<LogEntry>)
      requires Valid()
      modifies this
      ensures Valid()
      ensures admitted == old(admitted)
      ensures old(logSink) == [] ==> drained.None? && logStore == old(logStore) && logSink == []
      ensures old(logSink) != [] ==>
        && drained == Some(old(logSink)[0])
        && logSink == old(logSink)[1..]
        && logStore == old(logStore) + [old(logSink)[0]]
    {
      if logSink == [] {
        return None;
      }
      var e := logSink[0];
      logSink := logSink[1..];
      ProcessAndStore(e);
      drained := Some(e);
      assert logStore[..|logStore| - 1] == old(logStore);
      var cs := CategoryKeys(old(logStore));
      if e.eventCategory.Some? {
        assert (cs + [e.eventCategory.value])[..|cs|] == cs;
      } else {
        assert cs + [] == cs;
      }
      var ss := SeverityKeys(old(logStore));
      if e.severity.Some? {
        assert (ss + [ToLower(e.severity.value)])[..|ss|] == ss;
      } else {
        assert ss + [] == ss;
      }
      assert admitted == logStore + logSink by {
        assert old(logSink) == [e] + logSink;
      }
    }

    /** queryLogs on the current store; the state is not touched. */
    method QueryLogs(q: Query) returns (r: Result<seq<LogEntry>, QueryError>)
      requires Valid()
      ensures r == LogQuery.QueryLogs(logStore, q)
      ensures r.Success? ==> forall e :: e in r.value ==> e in logStore && Matches(q, e)
    {
      r := LogQuery.QueryLogs(logStore, q);
    }

    /** getMetrics: the total and both counter maps, which hold exactly the
        categories and the lower-cased severities of the stored entries with
        their multiplicities. Each counter reads as the size of the matching
        query, and neither map counts more than the total. */
    method GetMetrics() returns (total: nat, byCategory: map<string, nat>, bySeverity: map<string, nat>)
      requires Valid()
      ensures total == |logStore|
      ensures byCategory == CountsOf(CategoryKeys(logStore))
      ensures bySeverity == CountsOf(SeverityKeys(logStore))
      ensures forall c :: c in byCategory <==> c in CategoryKeys(logStore)
      ensures forall k :: k in bySeverity <==> k in SeverityKeys(logStore)
      ensures forall c :: Get(byCategory, c) == |Filter(logStore, Query(Some(c), None, None, None, None, None))|
      ensures forall level ::
        Get(bySeverity, ToLower(level)) == |Filter(logStore, Query(None, Some(level), None, None, None, None))|
      ensures MapSum(byCategory) <= total && MapSum(bySeverity) <= total
    {
      total := totalLogsReceived;
      byCategory := categoryMetrics;
      bySeverity := severityMetrics;
      CountsOfIsMultiset(CategoryKeys(logStore));
      CountsOfIsMultiset(SeverityKeys(logStore));
      forall c ensures Get(byCategory, c) == |Filter(logStore, Query(Some(c), None, None, None, None, None))| {
        CategoryKeysCount(logStore, c);
      }
      forall level ensures Get(bySeverity, ToLower(level)) ==
        |Filter(logStore, Query(None, Some(level), None, None, None, None))| {
        SeverityKeysCount(logStore, level);
      }
      MapSumCountsOf(CategoryKeys(logStore));
      MapSumCountsOf(SeverityKeys(logStore));
    }

    /** getTotalLogs: the number of stored entries, which is every entry
        ever accepted once the buffer is drained. */
    method GetTotalLogs() returns (n: nat)
      requires Valid()
      ensures n == |logStore|
      ensures logSink == [] ==> n == |admitted|
    {
      n := totalLogsReceived;
    }
  }
}
