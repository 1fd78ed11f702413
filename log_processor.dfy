/**
  The collector's LogProcessor: it turns one raw syslog-style line into a
  ParsedLog (severity from the `<N>` priority tag, category and source type
  from a first-match-wins chain of substring tests, username from the
  category's pattern, hostname from the whitespace split, blacklist flag),
  forwards each well-formed line once and counts it.
 */
module LogProcessor {
  import opened Wrappers
  import opened JavaText
  import opened Patterns
  import opened WsSplit
  import opened Counters

  datatype Severity = ERROR | WARN | INFO | DEBUG {
    function Name(): string {
      match this
      case ERROR => "ERROR"
      case WARN => "WARN"
      case INFO => "INFO"
      case DEBUG => "DEBUG"
    }
  }

  datatype Category = LinuxLogin | LinuxLogout | WindowsLogin | WindowsEvent | Unknown {
    function Name(): string {
      match this
      case LinuxLogin => "linux_login"
      case LinuxLogout => "linux_logout"
      case WindowsLogin => "windows_login"
      case WindowsEvent => "windows_event"
      case Unknown => "unknown"
    }
  }

  datatype SourceType = Linux | Windows | UnknownSource {
    function Name(): string {
      match this
      case Linux => "linux"
      case Windows => "windows"
      case UnknownSource => "unknown"
    }
  }

  /** The record parseLog builds. Category, source type and severity are
      always set by parseLog, so they are not optional here; `isBlacklisted`
      starts out false in ParsedLog and parseLog always overwrites it. */
  datatype ParsedLog = ParsedLog(
    timestamp: string,
    eventCategory: Category,
    eventSourceType: SourceType,
    username: Option<string>,
    hostname: Option<string>,
    severity: Severity,
    rawMessage: string,
    isBlacklisted: bool)

  const BlacklistedUsers: set<string> := {"root", "admin", "hacker"}

  const WindowsMarker: string := "Microsoft-Windows-Security-Auditing"

  // ---------------------------------------------------------------- severity

  /** getSeverityFromPriority. The source switches on `priority & 0x07`; the
      priority always comes from a run of digits, so it is non-negative and
      `& 0x07` is `% 8`. */
  function SeverityFromPriority(priority: int): Severity
    requires 0 <= priority
  {
    var code := priority % 8;
    if code <= 2 then ERROR
    else if code == 3 then WARN
    else if code <= 5 then INFO
    else DEBUG
  }

  /** A syslog priority is facility * 8 + severity code; only the code
      matters: 0-2 ERROR, 3 WARN, 4-5 INFO, 6-7 DEBUG. */
  lemma SeverityOfCode(facility: nat, code: nat)
    requires code < 8
    ensures code <= 2 ==> SeverityFromPriority(facility * 8 + code) == ERROR
    ensures code == 3 ==> SeverityFromPriority(facility * 8 + code) == WARN
    ensures 4 <= code <= 5 ==> SeverityFromPriority(facility * 8 + code) == INFO
    ensures 6 <= code ==> SeverityFromPriority(facility * 8 + code) == DEBUG
  {
    assert (facility * 8 + code) % 8 == code;
  }

  /** The severity step of parseLog: INFO without a priority tag, otherwise
      the severity of the parsed priority, or NumberFormatException from
      Integer.parseInt when the digits do not fit in an int. */
  function SeverityOf(message: string): Result<Severity, NumberFormatError> {
    match MatchPriority(message)
    case None => Success(INFO)
    case Some(digits) =>
      match ParseInt(digits)
      case Failure(e) => Failure(e)
      case Success(priority) => Success(SeverityFromPriority(priority))
  }

  // ---------------------------------------------------------------- category

  /** The category and source type of a line: the first test that succeeds wins. */
  function Classify(message: string): (r: (Category, SourceType))
    ensures r.1 == SourceOf(r.0)
    ensures r.0 == Unknown <==>
      !Contains(message, "sudo") && !Contains(message, "session opened")
      && !Contains(message, "session closed") && !Contains(message, WindowsMarker)
  {
    if Contains(message, "sudo") || Contains(message, "session opened") then (LinuxLogin, Linux)
    else if Contains(message, "session closed") then (LinuxLogout, Linux)
    else if Contains(message, WindowsMarker) then
      if Contains(message, "logged on") then (WindowsLogin, Windows) else (WindowsEvent, Windows)
    else (Unknown, UnknownSource)
  }

  /** The source type that goes with each category. */
  function SourceOf(c: Category): SourceType {
    match c
    case LinuxLogin | LinuxLogout => Linux
    case WindowsLogin | WindowsEvent => Windows
    case Unknown => UnknownSource
  }

  /** The category's pattern, applied as parseLinuxLogin, parseLinuxLogout and
      parseWindowsLog do; the unknown category runs none. parseWindowsLog runs
      for windows_event as well as windows_login. */
  function UsernameFor(message: string, c: Category): Option<string> {
    match c
    case LinuxLogin => MatchLinuxLogin(message)
    case LinuxLogout => MatchLinuxLogout(message)
    case WindowsLogin | WindowsEvent => MatchWindowsAccount(message)
    case Unknown => None
  }

  // ---------------------------------------------------------------- parseLog

  /** parseLog, with the clock reading `now` passed in. Fails only where
      Integer.parseInt throws, which makes processLog drop the line. */
  function ParseLog(message: string, now: string): (r: Result<ParsedLog, NumberFormatError>)
    ensures r.Failure? <==>
      exists k: nat :: PriorityTagEndsAt(message, k) && DecimalValue(message[1..k]) > IntMax
    ensures r.Success? ==>
      && r.value.timestamp == now
      && r.value.rawMessage == message
      && r.value.hostname == SecondToken(message)
      && r.value.eventSourceType == SourceOf(r.value.eventCategory)
      && (r.value.eventCategory == Unknown ==> r.value.username == None)
      && (r.value.isBlacklisted <==> r.value.username.Some? && r.value.username.value in BlacklistedUsers)
  {
    match SeverityOf(message)
    case Failure(e) =>
      var digits := MatchPriority(message).value;
      assert PriorityTagEndsAt(message, |digits| + 1);
      Failure(e)
    case Success(severity) =>
      assert forall k: nat :: PriorityTagEndsAt(message, k) ==> DecimalValue(message[1..k]) <= IntMax by {
        forall k: nat | PriorityTagEndsAt(message, k) ensures DecimalValue(message[1..k]) <= IntMax {
          PriorityTagUnique(message, k, |MatchPriority(message).value| + 1);
        }
      }
      var (category, source) := Classify(message);
      var username := UsernameFor(message, category);
      HostnameIsSecondToken(message);
      var hostname := HostnameOf(message);
      var blacklisted := username.Some? && username.value in BlacklistedUsers;
      Success(ParsedLog(now, category, source, username, hostname, severity, message, blacklisted))
  }

  /** The fields of a parsed record, step by step. */
  lemma ParsedFields(message: string, now: string)
    requires ParseLog(message, now).Success?
    ensures var r := ParseLog(message, now).value;
      && SeverityOf(message) == Success(r.severity)
      && (r.eventCategory, r.eventSourceType) == Classify(message)
      && r.username == UsernameFor(message, r.eventCategory)
  {
  }

  /** A line holding a literal holds every prefix of that literal. */
  lemma ContainsPrefixOf(s: string, i: nat, lit: string, n: nat)
    requires OccursAt(s, i, lit) && n <= |lit|
    ensures Contains(s, lit[..n])
  {
    assert s[i..i + n] == lit[..n];
    assert OccursAt(s, i, lit[..n]);
  }

  /** Without a leading `<digits>` tag the line parses, with severity INFO. */
  lemma NoPriorityMeansInfo(message: string, now: string)
    requires forall k: nat :: !PriorityTagEndsAt(message, k)
    ensures ParseLog(message, now).Success? && ParseLog(message, now).value.severity == INFO
  {
  }

  /** With a tag `<N>` whose N fits in an int, the severity is that of N & 7. */
  lemma PrioritySetsSeverity(message: string, now: string, k: nat)
    requires PriorityTagEndsAt(message, k) && DecimalValue(message[1..k]) <= IntMax
    ensures ParseLog(message, now).Success?
    ensures ParseLog(message, now).value.severity == SeverityFromPriority(DecimalValue(message[1..k]))
  {
    PriorityTagUnique(message, k, |MatchPriority(message).value| + 1);
  }

  /** A priority of at most nine digits never makes the parse fail. */
  lemma ShortPriorityParses(message: string, now: string)
    requires forall k: nat :: PriorityTagEndsAt(message, k) ==> k <= 10
    ensures ParseLog(message, now).Success?
  {
    forall k: nat | PriorityTagEndsAt(message, k) ensures DecimalValue(message[1..k]) <= IntMax {
      DecimalValueBound(message[1..k]);
    }
  }

  /** The category table, first match wins. */
  lemma CategoryPrecedence(message: string, now: string)
    requires ParseLog(message, now).Success?
    ensures var c := ParseLog(message, now).value.eventCategory;
      && (c == LinuxLogin <==> Contains(message, "sudo") || Contains(message, "session opened"))
      && (c == LinuxLogout <==>
           !Contains(message, "sudo") && !Contains(message, "session opened")
           && Contains(message, "session closed"))
      && (c == WindowsLogin <==>
           !Contains(message, "sudo") && !Contains(message, "session opened")
           && !Contains(message, "session closed") && Contains(message, WindowsMarker)
           && Contains(message, "logged on"))
      && (c == WindowsEvent <==>
           !Contains(message, "sudo") && !Contains(message, "session opened")
           && !Contains(message, "session closed") && Contains(message, WindowsMarker)
           && !Contains(message, "logged on"))
  {
  }

  /** The username is group 1 of the pattern of the line's category, as
      Matcher.find() reports it, and is absent when that pattern does not
      match or the category is unknown. */
  lemma UsernameFromCategoryPattern(message: string, now: string)
    requires ParseLog(message, now).Success?
    ensures var r := ParseLog(message, now).value;
      && (r.eventCategory == LinuxLogin ==>
           (r.username.None? <==> forall i: nat, k: nat :: !LoginMatch(message, i, k))
           && (r.username.Some? ==> exists i: nat, k: nat ::
                LoginFound(message, i, k) && r.username.value == message[i + |LoginLit|..i + |LoginLit| + k]))
      && (r.eventCategory == LinuxLogout ==>
           (r.username.None? <==> forall i: nat, k: nat :: !CaptureMatch(message, LogoutLit, i, k))
           && (r.username.Some? ==> exists i: nat, k: nat ::
                CaptureFound(message, LogoutLit, i, k)
                && r.username.value == message[i + |LogoutLit|..i + |LogoutLit| + k]))
      && (r.eventCategory in {WindowsLogin, WindowsEvent} ==>
           (r.username.None? <==> forall i: nat, k: nat :: !CaptureMatch(message, AccountLit, i, k))
           && (r.username.Some? ==> exists i: nat, k: nat ::
                CaptureFound(message, AccountLit, i, k)
                && r.username.value == message[i + |AccountLit|..i + |AccountLit| + k]))
  {
    ParsedFields(message, now);
    UsernameForPattern(message, ParseLog(message, now).value.eventCategory);
  }

  /** The username step alone: group 1 of the category's pattern. */
  lemma UsernameForPattern(message: string, c: Category)
    ensures var u := UsernameFor(message, c);
      && (c == LinuxLogin ==>
           (u.None? <==> forall i: nat, k: nat :: !LoginMatch(message, i, k))
           && (u.Some? ==> exists i: nat, k: nat ::
                LoginFound(message, i, k) && u.value == message[i + |LoginLit|..i + |LoginLit| + k]))
      && (c == LinuxLogout ==>
           (u.None? <==> forall i: nat, k: nat :: !CaptureMatch(message, LogoutLit, i, k))
           && (u.Some? ==> exists i: nat, k: nat ::
                CaptureFound(message, LogoutLit, i, k)
                && u.value == message[i + |LogoutLit|..i + |LogoutLit| + k]))
      && (c in {WindowsLogin, WindowsEvent} ==>
           (u.None? <==> forall i: nat, k: nat :: !CaptureMatch(message, AccountLit, i, k))
           && (u.Some? ==> exists i: nat, k: nat ::
                CaptureFound(message, AccountLit, i, k)
                && u.value == message[i + |AccountLit|..i + |AccountLit| + k]))
  {
  }

  /** Parsing is a function of the line: two parses differ only in the timestamp. */
  lemma ParseIsDeterministic(message: string, t1: string, t2: string)
    ensures ParseLog(message, t1).Success? == ParseLog(message, t2).Success?
    ensures ParseLog(message, t1).Success? ==>
      ParseLog(message, t1).value.(timestamp := t2) == ParseLog(message, t2).value
  {
  }

  /** A line that opens with `<` digits `>` takes its severity from those digits. */
  lemma LeadingTagSetsSeverity(digits: string, rest: string, now: string)
    requires digits != [] && AllDigits(digits) && DecimalValue(digits) <= IntMax
    ensures var r := ParseLog("<" + digits + ">" + rest, now);
      r.Success? && r.value.severity == SeverityFromPriority(DecimalValue(digits))
  {
    var s := "<" + digits + ">" + rest;
    LeadingTagLayout(s, digits, rest);
    PrioritySetsSeverity(s, now, |digits| + 1);
  }

  /** Where the tag of `<` digits `>` rest ends, and what it holds. */
  lemma LeadingTagLayout(s: string, digits: string, rest: string)
    requires s == "<" + digits + ">" + rest
    requires digits != [] && AllDigits(digits)
    ensures PriorityTagEndsAt(s, |digits| + 1) && s[1..|digits| + 1] == digits
  {
    var k := |digits| + 1;
    assert s == "<" + digits + (">" + rest);
    MiddleOf("<", digits, ">" + rest);
    assert s[k] == '>';
    forall m | 1 <= m < k ensures IsDigit(s[m]) {
      assert s[m] == digits[m - 1];
    }
  }

  /** The digits `86` read as eighty-six. */
  lemma EightySix()
    ensures AllDigits("86") && DecimalValue("86") == 86
  {
    var d := "86";
    assert d[..1] == "8" && d[..1][..0] == [];
  }

  /** A line spelled as `<` digits `>` rest parses with the severity those
      digits give. */
  lemma TagSeverity(s: string, digits: string, rest: string, now: string, severity: Severity)
    requires s == "<" + digits + ">" + rest
    requires digits != [] && AllDigits(digits) && DecimalValue(digits) <= IntMax
    requires SeverityFromPriority(DecimalValue(digits)) == severity
    ensures ParseLog(s, now).Success? && ParseLog(s, now).value.severity == severity
  {
    LeadingTagSetsSeverity(digits, rest, now);
  }

  /** `<86>` carries code 6: DEBUG. */
  lemma Tag86IsDebug(rest: string, now: string)
    ensures ParseLog("<86>" + rest, now).Success?
    ensures ParseLog("<86>" + rest, now).value.severity == DEBUG
  {
    EightySix();
    assert "<" + "86" + ">" + rest == "<86>" + rest;
    TagSeverity("<86>" + rest, "86", rest, now, DEBUG);
  }

  /** `<3>` carries code 3, which maps to WARN, not ERROR. */
  lemma Tag3IsWarn(rest: string, now: string)
    ensures ParseLog("<3>" + rest, now).Success?
    ensures ParseLog("<3>" + rest, now).value.severity == WARN
  {
    assert "<" + "3" + ">" + rest == "<3>" + rest;
    TagSeverity("<3>" + rest, "3", rest, now, WARN);
  }

  /** A linux_login line takes group 1 of the login pattern as its username,
      and is blacklisted exactly when that name is on the list. */
  lemma LoginParse(s: string, now: string, user: string)
    requires Contains(s, "session opened") && MatchLinuxLogin(s) == Some(user)
    requires ParseLog(s, now).Success?
    ensures ParseLog(s, now).value.eventCategory == LinuxLogin
    ensures ParseLog(s, now).value.username == Some(user)
    ensures ParseLog(s, now).value.isBlacklisted <==> user in BlacklistedUsers
  {
    ParsedFields(s, now);
  }

  /** A login line of the shape `pre + "session opened for user " + user + mid
      + "by " + account...` is a linux_login whose username is `user`, and it
      is blacklisted exactly when `user` is; the account after `by` plays no part. */
  lemma LoginBlacklistIgnoresByAccount(s: string, pre: string, user: string, mid: string, tail: string, now: string)
    requires s == pre + LoginLit + user + mid + tail
    requires forall i :: 0 <= i < |pre| ==> !OccursAt(s, i, LoginLit)
    requires user != [] && forall m :: 0 <= m < |user| ==> IsWordChar(user[m])
    requires mid != [] && !IsWordChar(mid[0])
    requires forall m :: 0 <= m < |mid| ==> !IsLineTerminator(mid[m])
    requires |tail| > 3 && tail[..3] == "by " && IsWordChar(tail[3])
    requires ParseLog(s, now).Success?
    ensures ParseLog(s, now).value.eventCategory == LinuxLogin
    ensures ParseLog(s, now).value.username == Some(user)
    ensures ParseLog(s, now).value.isBlacklisted <==> user in BlacklistedUsers
  {
    LoginLineShape(s, pre, user, mid, tail);
    LoginParse(s, now, user);
  }

  /** The text facts behind the previous lemma: such a line contains "session
      opened" and the login pattern yields the user. */
  lemma LoginLineShape(s: string, pre: string, user: string, mid: string, tail: string)
    requires s == pre + LoginLit + user + mid + tail
    requires forall i :: 0 <= i < |pre| ==> !OccursAt(s, i, LoginLit)
    requires user != [] && forall m :: 0 <= m < |user| ==> IsWordChar(user[m])
    requires mid != [] && !IsWordChar(mid[0])
    requires forall m :: 0 <= m < |mid| ==> !IsLineTerminator(mid[m])
    requires |tail| > 3 && tail[..3] == "by " && IsWordChar(tail[3])
    ensures Contains(s, "session opened") && MatchLinuxLogin(s) == Some(user)
  {
    PiecesOf(s, pre, LoginLit, user, mid, tail);
    ContainsPrefixOf(s, |pre|, LoginLit, 14);
    assert LoginLit[..14] == "session opened";
    LoginOfShape(s, pre, user, mid, tail);
  }

  /** A linux_logout line takes group 1 of the logout pattern as its username. */
  lemma LogoutParse(s: string, now: string, user: string)
    requires Contains(s, "session closed") && !Contains(s, "sudo") && !Contains(s, "session opened")
    requires MatchLinuxLogout(s) == Some(user)
    requires ParseLog(s, now).Success?
    ensures ParseLog(s, now).value.eventCategory == LinuxLogout
    ensures ParseLog(s, now).value.username == Some(user)
    ensures ParseLog(s, now).value.isBlacklisted <==> user in BlacklistedUsers
  {
    ParsedFields(s, now);
  }

  /** The logout pattern on a line of known shape. */
  lemma LogoutShapeMatch(s: string, pre: string, user: string, rest: string)
    requires s == pre + LogoutLit + user + rest
    requires forall i :: 0 <= i < |pre| ==> !OccursAt(s, i, LogoutLit)
    requires user != [] && forall m :: 0 <= m < |user| ==> IsWordChar(user[m])
    requires rest == [] || !IsWordChar(rest[0])
    ensures Contains(s, "session closed") && MatchLinuxLogout(s) == Some(user)
  {
    MiddleOf(pre, LogoutLit, user + rest);
    ContainsPrefixOf(s, |pre|, LogoutLit, 14);
    assert LogoutLit[..14] == "session closed";
    CaptureOfShape(s, LogoutLit, pre, user, rest);
  }

  /** A line `pre + "session closed for user " + user + rest` with no earlier
      literal, no `sudo` and no `session opened` is a linux_logout whose
      username is `user`, blacklisted exactly when `user` is. */
  lemma LogoutUsernameOfShape(s: string, pre: string, user: string, rest: string, now: string)
    requires s == pre + LogoutLit + user + rest
    requires forall i :: 0 <= i < |pre| ==> !OccursAt(s, i, LogoutLit)
    requires user != [] && forall m :: 0 <= m < |user| ==> IsWordChar(user[m])
    requires rest == [] || !IsWordChar(rest[0])
    requires !Contains(s, "sudo") && !Contains(s, "session opened")
    requires ParseLog(s, now).Success?
    ensures ParseLog(s, now).value.eventCategory == LinuxLogout
    ensures ParseLog(s, now).value.username == Some(user)
    ensures ParseLog(s, now).value.isBlacklisted <==> user in BlacklistedUsers
  {
    LogoutShapeMatch(s, pre, user, rest);
    LogoutParse(s, now, user);
  }

  /** A Security-Auditing line `pre + "Account Name: " + user + rest` with no
      earlier literal and none of the linux markers takes `user` as its
      username, whether or not it says `logged on`. */
  lemma WindowsUsernameOfShape(s: string, pre: string, user: string, rest: string, now: string)
    requires s == pre + AccountLit + user + rest
    requires forall i :: 0 <= i < |pre| ==> !OccursAt(s, i, AccountLit)
    requires user != [] && forall m :: 0 <= m < |user| ==> IsWordChar(user[m])
    requires rest == [] || !IsWordChar(rest[0])
    requires Contains(s, WindowsMarker)
    requires !Contains(s, "sudo") && !Contains(s, "session opened") && !Contains(s, "session closed")
    requires ParseLog(s, now).Success?
    ensures ParseLog(s, now).value.eventCategory in {WindowsLogin, WindowsEvent}
    ensures ParseLog(s, now).value.eventSourceType == Windows
    ensures ParseLog(s, now).value.username == Some(user)
    ensures ParseLog(s, now).value.isBlacklisted <==> user in BlacklistedUsers
  {
    CaptureOfShape(s, AccountLit, pre, user, rest);
    ParsedFields(s, now);
  }

  // ---------------------------------------------------------------- the processor

  /** The record processLog hands to the forwarder for a wrapper whose
      `message` is given: nothing for a missing or empty message or a line
      whose parse throws. */
  function Forwarded(message: Option<string>, now: string): (r: Option<ParsedLog>)
    ensures r.Some? <==>
      message.Some? && message.value != [] && ParseLog(message.value, now).Success?
    ensures r.Some? ==> r.value == ParseLog(message.value, now).value
  {
    if message.None? || message.value == [] then None
    else match ParseLog(message.value, now)
      case Failure(_) => None
      case Success(p) => Some(p)
  }

  /** The category names of the records forwarded so far. */
  function CategoryNames(logs: seq<ParsedLog>): (r: seq<string>)
    ensures |r| == |logs|
    ensures forall i :: 0 <= i < |logs| ==> r[i] == logs[i].eventCategory.Name()
  {
    if logs == [] then [] else CategoryNames(logs[..|logs| - 1]) + [logs[|logs| - 1].eventCategory.Name()]
  }

  /** LogProcessor: the forwarder is modelled by the ghost sequence of the
      records handed to it, in order. */
  class Processor {
    var totalLogsProcessed: nat
    var categoryMetrics: map<string, nat>
    ghost var forwarded: seq<ParsedLog>

    /** Every forwarded record was counted once, in its category. */
    ghost predicate Valid()
      reads this
    {
      && totalLogsProcessed == |forwarded|
      && categoryMetrics == CountsOf(CategoryNames(forwarded))
    }

    constructor ()
      ensures Valid() && forwarded == []
      ensures totalLogsProcessed == 0 && categoryMetrics == map[]
    {
      totalLogsProcessed := 0;
      categoryMetrics := map[];
      forwarded := [];
    }

    /** processLog on a wrapper whose `message` field is `message` (None when
        the wrapper is not a JSON object with a string `message`). A dropped
        line changes nothing; a kept one is forwarded once, counted once in
        the total and once under its category. */
    method ProcessLog(message: Option<string>, now: string)
      requires Valid()
      modifies this
      ensures Valid()
      ensures Forwarded(message, now).None? ==>
        && forwarded == old(forwarded)
        && totalLogsProcessed == old(totalLogsProcessed)
        && categoryMetrics == old(categoryMetrics)
      ensures Forwarded(message, now).Some? ==>
        var p := Forwarded(message, now).value;
        && forwarded == old(forwarded) + [p]
        && totalLogsProcessed == old(totalLogsProcessed) + 1
        && categoryMetrics == Bump(old(categoryMetrics), p.eventCategory.Name())
    {
      if message.None? || message.value == [] {
        return;
      }
      var parsed := ParseLog(message.value, now);
      if parsed.Failure? {
        return;
      }
      var p := parsed.value;
      forwarded := forwarded + [p];
      totalLogsProcessed := totalLogsProcessed + 1;
      categoryMetrics := Bump(categoryMetrics, p.eventCategory.Name());
      assert CategoryNames(forwarded)[..|forwarded| - 1] == CategoryNames(old(forwarded));
    }

    /** getMetrics: the total and the per-category counts, which are exactly
        the counts of the forwarded records' categories and sum to the total. */
    method GetMetrics() returns (total: nat, byCategory: map<string, nat>)
      requires Valid()
      ensures total == |forwarded|
      ensures byCategory == CountsOf(CategoryNames(forwarded))
      ensures forall c :: c in byCategory <==> c in CategoryNames(forwarded)
      ensures forall c :: Get(byCategory, c) == multiset(CategoryNames(forwarded))[c]
      ensures MapSum(byCategory) == total
    {
      total := totalLogsProcessed;
      byCategory := categoryMetrics;
      CountsOfIsMultiset(CategoryNames(forwarded));
      MapSumCountsOf(CategoryNames(forwarded));
    }
  }
}
