# Centralized logging: collector parser and server store, in Dafny

This project models the two sequential cores of a centralized logging system.

- **The collector's `LogProcessor`.** It receives a raw syslog-style line wrapped in a JSON object `{"message": ...}` and turns the line into a `ParsedLog` record:
  - severity from the leading `<N>` priority tag;
  - category and source type from a first-match-wins chain of substring tests;
  - username from one of three fixed regular expressions;
  - hostname from the second whitespace-separated token;
  - a blacklist flag.

  It forwards each well-formed record once, then counts it in a total and under its category.
- **The server's `LogStorageServiceImpl`.**
  - Entries enter a bounded buffer of capacity 1000. A full buffer rejects an entry with a distinct overflow error, which the HTTP layer turns into 429.
  - A single consumer drains the buffer, in order, into an append-only store. It keeps three counters: the total, per category, and per lower-cased severity.
  - Queries filter the store conjunctively, optionally sort by timestamp (nulls last, stable), and then apply a limit.

Modules, one per concern:

| module | file | what it holds |
|---|---|---|
| `Wrappers` | wrappers.dfy | `Option` and `Result` |
| `JavaText` | java_text.dfy | the parts of `java.lang.String` and `Integer.parseInt` the cores use: character classes, `contains`, `compareTo`, `equalsIgnoreCase`, `toLowerCase`, decimal parsing with its int overflow |
| `Patterns` | patterns.dfy | the four fixed regular expressions, as matchers with `Matcher.find()` semantics: leftmost start, greedy group with backtracking |
| `WsSplit` | ws_split.dfy | `String.split("\\s+")` with Java's rules for leading and trailing empty pieces and for a line without whitespace |
| `Counters` | counters.dfy | the counter maps: increment, counting a key sequence, sum of a map |
| `LogProcessor` | log_processor.dfy | `ParsedLog`, `parseLog` as a function, and the `Processor` class with `processLog` and `getMetrics` |
| `LogEntity` | log_entry.dfy | the server's `LogEntry` |
| `LogQuery` | log_query.dfy | `queryLogs` as a pure function of the store snapshot: filters, `compareTimestamps`, the stable sort, the limit |
| `LogStorage` | log_storage.dfy | the `StorageService` class: buffer, store and counters, with `IngestLog`, `DrainOne`, `QueryLogs`, `GetMetrics`, `GetTotalLogs` |

Two behaviours of the code are worth stating up front:

- `parseWindowsLog` runs for the `windows_event` category as well as for `windows_login` (log-collector/src/main/java/com/logging/processor/LogProcessor.java:92-99).
- Priority code 3 maps to WARN (log-collector/src/main/java/com/logging/processor/LogProcessor.java:149-150). The test line `<3> ... critical error occurred` therefore yields WARN, not ERROR (`Tag3IsWarn`).

## Model

| member | source | states |
|---|---|---|
| `LogProcessor.SeverityOfCode` | log-collector/src/main/java/com/logging/processor/LogProcessor.java:142-157 | `SeverityFromPriority` reads only the low three bits of the priority: for any facility, codes 0-2 give ERROR, 3 WARN, 4-5 INFO, 6-7 DEBUG |
| `LogProcessor.NoPriorityMeansInfo` | log-collector/src/main/java/com/logging/processor/LogProcessor.java:75-81 | `SeverityOf`, the severity step of the parse, gives INFO to a line with no leading `<digits>` tag, and such a line parses |
| `LogProcessor.PrioritySetsSeverity` | log-collector/src/main/java/com/logging/processor/LogProcessor.java:75-78 | `SeverityOf` gives a line with a tag `<N>` whose N fits in an int the severity of N, and so does the parse |
| `LogProcessor.LeadingTagSetsSeverity` | log-collector/src/main/java/com/logging/processor/LogProcessor.java:75-78 | any line that opens with `<` digits `>` takes its severity from those digits, whatever follows |
| `LogProcessor.ShortPriorityParses` | log-collector/src/main/java/com/logging/processor/LogProcessor.java:77 | a priority of at most nine digits never makes the parse fail |
| `LogProcessor.Tag86IsDebug` | log-collector/src/test/java/com/logging/LogProcessorTest.java:89 | a line starting `<86>` parses with severity DEBUG |
| `LogProcessor.Tag3IsWarn` | log-collector/src/test/java/com/logging/LogProcessorTest.java:88 | a line starting `<3>` parses with severity WARN |
| `LogProcessor.Classify` | log-collector/src/main/java/com/logging/processor/LogProcessor.java:84-103 | the source type always goes with the category, and the category is unknown exactly when none of the four markers occurs |
| `LogProcessor.CategoryPrecedence` | log-collector/src/main/java/com/logging/processor/LogProcessor.java:84-103 | the full first-match-wins table: each category holds exactly when its condition holds and no earlier one does |
| `LogProcessor.ParseLog` | log-collector/src/main/java/com/logging/processor/LogProcessor.java:69-119 | parsing fails exactly when the priority tag holds a number above 2^31-1; on success the timestamp is the clock reading, the raw message is the line, the hostname is the second whitespace token, the source type matches the category, an unknown line has no username, and the blacklist flag holds exactly when the username is present and in {root, admin, hacker} |
| `LogProcessor.UsernameFromCategoryPattern` | log-collector/src/main/java/com/logging/processor/LogProcessor.java:121-140 | `UsernameFor` and the parse take as username group 1 of the category's pattern at the leftmost match with the longest group that still matches; it is absent exactly when that pattern has no match, and always for an unknown line |
| `LogProcessor.ParseIsDeterministic` | log-collector/src/main/java/com/logging/processor/LogProcessor.java:69-119 | two parses of one line differ only in the timestamp |
| `LogProcessor.LoginParse` | log-collector/src/main/java/com/logging/processor/LogProcessor.java:121-126 | a linux_login line takes group 1 of the login pattern as its username and is blacklisted exactly when that name is on the list |
| `LogProcessor.LoginBlacklistIgnoresByAccount` | log-collector/src/test/java/com/logging/LogProcessorTest.java:73-83 | on a line `... session opened for user U<sep>... by A...`, the username is U and the flag depends on U alone, never on the account A after `by` |
| `LogProcessor.LogoutParse` | log-collector/src/main/java/com/logging/processor/LogProcessor.java:128-133 | a linux_logout line takes group 1 of the logout pattern as its username |
| `LogProcessor.LogoutShapeMatch` | log-collector/src/main/java/com/logging/processor/LogProcessor.java:41 | on a line `... session closed for user U<non-word>...` with no earlier literal, the logout pattern yields U, and the line contains "session closed" |
| `LogProcessor.LogoutUsernameOfShape` | log-collector/src/main/java/com/logging/processor/LogProcessor.java:88-91 | such a line, without the login markers, is a linux_logout with username U, blacklisted exactly when U is |
| `LogProcessor.WindowsUsernameOfShape` | log-collector/src/main/java/com/logging/processor/LogProcessor.java:135-140 | a Security-Auditing line `... Account Name: U...` without the linux markers takes U as its username, for windows_login and windows_event alike |
| `LogProcessor.Forwarded` | log-collector/src/main/java/com/logging/processor/LogProcessor.java:48-58 | a record is forwarded exactly when the message is present, non-empty and parses; it is the parsed record |
| `LogProcessor.Processor.constructor` | log-collector/src/main/java/com/logging/processor/LogProcessor.java:35-36 | a new processor has forwarded nothing, a zero total and no category counters |
| `LogProcessor.Processor.ProcessLog` | log-collector/src/main/java/com/logging/processor/LogProcessor.java:44-67 | a dropped line changes nothing; a kept one is forwarded once, the total rises by one and only its category's counter rises by one, keeping the counters equal to the counts of the forwarded records |
| `LogProcessor.Processor.GetMetrics` | log-collector/src/main/java/com/logging/processor/LogProcessor.java:159-168 | reports the total and exactly the counter map of the forwarded records' categories: a category is a key exactly when some forwarded record has it, and its count is how many do; the counts sum to the total |
| `Patterns.MatchPriority` | log-collector/src/main/java/com/logging/processor/LogProcessor.java:39 | `^<(\d+)>` matches exactly when the line opens with `<`, one or more digits and `>`; the group is those digits |
| `Patterns.PriorityTagUnique` | log-collector/src/main/java/com/logging/processor/LogProcessor.java:39 | a line has at most one priority tag |
| `Patterns.MatchLinuxLogin` | log-collector/src/main/java/com/logging/processor/LogProcessor.java:121-126 | no result exactly when the login pattern matches nowhere; otherwise group 1 of the leftmost match, with the longest group for which `.*by \w` can still follow on the same line |
| `Patterns.LoginOfShape` | log-collector/src/main/java/com/logging/processor/LogProcessor.java:40 | the login pattern on `pre + "session opened for user " + U + mid + "by " + A...` gives U whatever A is |
| `Patterns.MatchLinuxLogout` | log-collector/src/main/java/com/logging/processor/LogProcessor.java:128-133 | no result exactly when `session closed for user (\w+)` matches nowhere; otherwise the leftmost match's whole word run |
| `Patterns.MatchWindowsAccount` | log-collector/src/main/java/com/logging/processor/LogProcessor.java:135-140 | the same for `Account Name: (\w+)` |
| `Patterns.CaptureOfShape` | log-collector/src/main/java/com/logging/processor/LogProcessor.java:41-42 | a literal followed by the word U, where the first occurrence of the literal follows `pre`, yields U |
| `WsSplit.Split` | log-collector/src/main/java/com/logging/processor/LogProcessor.java:106 | no piece contains whitespace, only the first piece can be empty, and a line without whitespace (the empty line included) comes back whole as the only piece |
| `WsSplit.HostnameIsSecondToken` | log-collector/src/main/java/com/logging/processor/LogProcessor.java:106-109 | `HostnameOf`, piece 1 of the split when there are two or more pieces, equals the direct reading of the line: the first word after a leading blank stretch, or the second word otherwise, absent when there is none; it is non-empty and blank-free |
| `WsSplit.SplitJoinSpaced` | log-collector/src/main/java/com/logging/processor/LogProcessor.java:106 | splitting tokens joined by single spaces gives the tokens back; no tokens join to the empty line, which splits to one empty string |
| `WsSplit.SplitIsWords` | log-collector/src/main/java/com/logging/processor/LogProcessor.java:106 | against the words of the line (its maximal non-blank runs, defined independently): the empty line splits to one empty string, a line that starts with whitespace to an empty string followed by its words (to nothing when it has no word), and any other line to exactly its words |
| `WsSplit.HostnameOfJoined` | log-collector/src/main/java/com/logging/processor/LogProcessor.java:106-109 | on tokens joined by spaces, the hostname is the second token |
| `JavaText.ParseInt` | log-collector/src/main/java/com/logging/processor/LogProcessor.java:77 | `Integer.parseInt` of a digit string succeeds exactly when its value is at most 2^31-1, and then returns that value |
| `JavaText.DecimalValueBound` | log-collector/src/main/java/com/logging/processor/LogProcessor.java:77 | a digit string of length n is below 10^n, so nine digits always fit in an int |
| `JavaText.CompareTo` | log-server/src/main/java/com/logging/service/impl/LogStorageServiceImpl.java:104 | `String.compareTo` is zero exactly on equal strings |
| `JavaText.CompareToAntisymmetric` | log-server/src/main/java/com/logging/service/impl/LogStorageServiceImpl.java:104 | swapping the operands negates the result |
| `JavaText.CompareToTransitive` | log-server/src/main/java/com/logging/service/impl/LogStorageServiceImpl.java:104 | "not after" is transitive |
| `JavaText.EqualsIgnoreCaseIsLowerEqual` | log-server/src/main/java/com/logging/service/impl/LogStorageServiceImpl.java:84 | two strings are equal ignoring case exactly when their lower-cased forms are equal |
| `Counters.Bump` | log-collector/src/main/java/com/logging/processor/LogProcessor.java:62 | incrementing a key adds it to the map, raises it by one and leaves every other key unchanged |
| `Counters.CountsOfIsMultiset` | log-collector/src/main/java/com/logging/processor/LogProcessor.java:62 | counting a sequence of keys gives each key its number of occurrences |
| `Counters.MapSumCountsOf` | log-collector/src/main/java/com/logging/processor/LogProcessor.java:61-62 | the counts of a key sequence sum to its length |
| `Counters.MapSumBump` | log-collector/src/main/java/com/logging/processor/LogProcessor.java:61-62 | one increment raises the sum of a map by one |
| `LogEntity.NewLogEntry` | log-server/src/main/java/com/logging/entity/LogEntry.java:30-34 | a new entry has every field null except the reception time, which is the clock reading |
| `LogQuery.Filter` | log-server/src/main/java/com/logging/service/impl/LogStorageServiceImpl.java:83-86 | an entry is in the result exactly when it is in the store and passes all four filters; nothing is added |
| `LogQuery.FilterAppend` | log-server/src/main/java/com/logging/service/impl/LogStorageServiceImpl.java:83-86 | filtering distributes over concatenation, so matches stay in store order |
| `LogQuery.FilterWildcard` | log-server/src/main/java/com/logging/service/impl/LogStorageServiceImpl.java:83-86 | with every filter null, the whole store is returned in order |
| `LogQuery.FilterNarrows` | log-server/src/main/java/com/logging/service/impl/LogStorageServiceImpl.java:83-86 | adding a service filter is the same as filtering the earlier result by it: the filters combine conjunctively |
| `LogQuery.CompareTimestamps` | log-server/src/main/java/com/logging/service/impl/LogStorageServiceImpl.java:94-105 | two nulls tie, a null sorts after a value, and two values tie exactly when equal |
| `LogQuery.CompareTimestampsFlip` | log-server/src/main/java/com/logging/service/impl/LogStorageServiceImpl.java:94-105 | of two timestamps, one is not after the other, and a strict order reverses |
| `LogQuery.CompareTimestampsTransitive` | log-server/src/main/java/com/logging/service/impl/LogStorageServiceImpl.java:94-105 | "not after" on nullable timestamps is transitive |
| `LogQuery.SortBy` | log-server/src/main/java/com/logging/service/impl/LogStorageServiceImpl.java:86-90 | the sort is a permutation of its input |
| `LogQuery.SortByAdjacentSorted` | log-server/src/main/java/com/logging/service/impl/LogStorageServiceImpl.java:86-90 | under `Comparator` (timestamps when the sort value is "timestamp", a constant tie otherwise) the sorted result has each entry not after the next |
| `LogQuery.AdjacentSortedIsSorted` | log-server/src/main/java/com/logging/service/impl/LogStorageServiceImpl.java:86-90 | with a transitive comparator, ordered neighbours give a fully ordered sequence |
| `LogQuery.UnsortedKeepsOrder` | log-server/src/main/java/com/logging/service/impl/LogStorageServiceImpl.java:86-90 | when the sort value is not "timestamp", the constant comparator leaves the order unchanged |
| `LogQuery.SortStable` | log-server/src/main/java/com/logging/service/impl/LogStorageServiceImpl.java:86-90 | the timestamp sort is stable: entries with equal timestamps keep their relative order |
| `LogQuery.Take` | log-server/src/main/java/com/logging/service/impl/LogStorageServiceImpl.java:91 | a negative limit fails; an absent limit keeps everything; otherwise the first min(limit, n) entries |
| `LogQuery.QueryLogs` | log-server/src/main/java/com/logging/service/impl/LogStorageServiceImpl.java:81-92 | fails exactly on a negative limit; every returned entry is stored and matches; the count is min(limit, number of matches) |
| `LogQuery.QueryAllMatches` | log-server/src/main/java/com/logging/service/impl/LogStorageServiceImpl.java:81-92 | without a limit, each matching entry comes back as many times as it is stored |
| `LogQuery.LimitIsPrefix` | log-server/src/main/java/com/logging/service/impl/LogStorageServiceImpl.java:86-91 | the sort happens before the limit: a limited answer is a prefix of the unlimited one |
| `LogQuery.TimestampQuerySorted` | log-server/src/main/java/com/logging/service/impl/LogStorageServiceImpl.java:86-105 | sorted by timestamp, the result is non-decreasing and every null timestamp comes after all values |
| `LogQuery.TimestampQueryStable` | log-server/src/main/java/com/logging/service/impl/LogStorageServiceImpl.java:86-90 | sorted by timestamp, entries with equal timestamps appear in store order |
| `LogQuery.UnsortedQueryInStoreOrder` | log-server/src/main/java/com/logging/service/impl/LogStorageServiceImpl.java:83-91 | with any other sort value, the result is a prefix of the matches in store order |
| `LogStorage.CategoryKeysCount` | log-server/src/main/java/com/logging/service/impl/LogStorageServiceImpl.java:70-72 | the category counter of c counts exactly the entries a query on service c returns |
| `LogStorage.SeverityKeysCount` | log-server/src/main/java/com/logging/service/impl/LogStorageServiceImpl.java:74-77 | the counter under a lower-cased level counts exactly the entries a query on that level, in any case, returns |
| `LogStorage.StorageService.constructor` | log-server/src/main/java/com/logging/service/impl/LogStorageServiceImpl.java:24-41 | a new service has an empty store and buffer, a zero total and no counters |
| `LogStorage.StorageService.IngestLog` | log-server/src/main/java/com/logging/service/impl/LogStorageServiceImpl.java:49-61 | a full buffer returns Overflow and changes nothing; otherwise the entry joins the back of the buffer; the store and counters are untouched |
| `LogStorage.StorageService.ProcessAndStore` | log-server/src/main/java/com/logging/service/impl/LogStorageServiceImpl.java:63-78 | the entry is appended to the store, the total rises by one, the category counter rises only for a non-null category, and the severity counter only for a non-null severity, under its lower-cased form |
| `LogStorage.StorageService.DrainOne` | log-server/src/main/java/com/logging/service/impl/LogStorageServiceImpl.java:63-78 | draining is first-in first-out: the oldest buffered entry, and only it, moves to the end of the store; the counters keep describing the store |
| `LogStorage.StorageService.QueryLogs` | log-server/src/main/java/com/logging/service/impl/LogStorageServiceImpl.java:81-92 | answers from the current store and changes nothing |
| `LogStorage.StorageService.GetMetrics` | log-server/src/main/java/com/logging/service/impl/LogStorageServiceImpl.java:107-123 | the total is the store size; the maps are exactly the counter maps of the stored categories and lower-cased severities, keyed by the values that occur; each count equals the size of the matching query; neither map sums past the total |
| `LogStorage.StorageService.GetTotalLogs` | log-server/src/main/java/com/logging/service/impl/LogStorageServiceImpl.java:126-128 | the total is the store size, and every accepted entry once the buffer is empty |

## Left out

- JSON unwrapping of the collector's input (Jackson). The input is the wrapper's `message` field as an `Option<string>`. None stands for no such field, a non-string field, or a line that is not a JSON object.
- Clocks. `Instant.now()` in `parseLog` and in the `LogEntry` constructor becomes a `now` parameter.
- The forwarder's HTTP POST and retry with backoff. The model records each forwarded record in a ghost sequence.
- Sockets, the TCP/UDP servers, executor pools, HTTP controllers and the client-side generators. These are I/O and scheduling.
- The `blacklistedIPs` set. It is declared but never read.
- Concurrency. Every operation is a sequential step; the asynchronous consumer is the explicit `DrainOne` step.
  - Reactor's `publishOn` queue (prefetch 256) is not modelled, so the buffer holds every entry not yet stored.
  - Emission failures other than overflow (concurrent emission, a terminated sink) are silently ignored by the code and cannot arise sequentially.
- `LogStorage.StorageService.QueryLogs`: it is eager. The Flux is lazy, and a store that changes between assembling and subscribing is not modelled. An absent limit stands for `Long.MAX_VALUE`, which no store reaches.
- `JavaText.ToLower`: case mapping covers ASCII letters only. `toLowerCase` and `equalsIgnoreCase` also fold other Unicode letters, and `toLowerCase` depends on the locale.
- `JavaText.CompareTo`: Dafny characters are Unicode scalar values, while Java compares UTF-16 code units. The two orders differ only for characters outside the Basic Multilingual Plane.
- `LogProcessor.SeverityOfCode` and `SeverityFromPriority` use `% 8` where the code writes `& 0x07`. The priority comes from a digit run, so it is never negative, and for those values the two agree.
- `LogProcessor.LoginBlacklistIgnoresByAccount`, `LogProcessor.LogoutUsernameOfShape` and `LogProcessor.WindowsUsernameOfShape` are stated for every line of a given shape, and the sample lines of the tests have those shapes. They are not instantiated on the sample strings themselves, because ruling out an earlier occurrence of the literal in a long string literal is out of the verifier's reach.
