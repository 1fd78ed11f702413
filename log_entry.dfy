/** The server's LogEntry record. Every field is nullable on the wire, so
    each is an Option; `receivedAt` is stamped by the constructor with the
    clock reading, passed in here as `now`. */
module LogEntity {
  import opened Wrappers

  datatype LogEntry = LogEntry(
    timestamp: Option<string>,
    eventCategory: Option<string>,
    eventSourceType: Option<string>,
    username: Option<string>,
    hostname: Option<string>,
    severity: Option<string>,
    rawMessage: Option<string>,
    isBlacklisted: Option<bool>,
    receivedAt: string)

  /** `new LogEntry()`: every field null except the reception time. */
  function NewLogEntry(now: string): (e: LogEntry)
    ensures e.receivedAt == now
    ensures e.timestamp.None? && e.eventCategory.None? && e.eventSourceType.None?
    ensures e.username.None? && e.hostname.None? && e.severity.None?
    ensures e.rawMessage.None? && e.isBlacklisted.None?
  {
    LogEntry(None, None, None, None, None, None, None, None, now)
  }
}
