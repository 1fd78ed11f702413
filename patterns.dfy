/**
  The four fixed regular expressions of the log-line parser, each written as a
  hand-made matcher and proved against a declarative statement of what
  `Matcher.find()` reports for that pattern: the leftmost start at which the
  pattern can match and, at that start, the group 1 that the greedy `\w+`
  settles on after backtracking (the longest one that lets the rest match).
 */
module Patterns {
  import opened Wrappers
  import opened JavaText

  // ---------------------------------------------------------------- runs

  /** Length of the longest run of word characters starting at p. */
  function WordRun(s: string, p: nat): (n: nat)
    requires p <= |s|
    ensures p + n <= |s|
    ensures forall m :: p <= m < p + n ==> IsWordChar(s[m])
    ensures p + n == |s| || !IsWordChar(s[p + n])
    decreases |s| - p
  {
    if p == |s| || !IsWordChar(s[p]) then 0 else 1 + WordRun(s, p + 1)
  }

  /** Length of the longest run of digits starting at p. */
  function DigitRun(s: string, p: nat): (n: nat)
    requires p <= |s|
    ensures p + n <= |s|
    ensures forall m :: p <= m < p + n ==> IsDigit(s[m])
    ensures p + n == |s| || !IsDigit(s[p + n])
    decreases |s| - p
  {
    if p == |s| || !IsDigit(s[p]) then 0 else 1 + DigitRun(s, p + 1)
  }

  /** A run of word characters cannot reach past the longest one. */
  lemma {:induction false} WordRunIsLongest(s: string, p: nat, k: nat)
    requires p + k <= |s|
    requires forall m :: p <= m < p + k ==> IsWordChar(s[m])
    ensures k <= WordRun(s, p)
    decreases k
  {
    if 0 < k {
      WordRunIsLongest(s, p + 1, k - 1);
    }
  }

  /** A run of digits cannot reach past the longest one. */
  lemma {:induction false} DigitRunIsLongest(s: string, p: nat, k: nat)
    requires p + k <= |s|
    requires forall m :: p <= m < p + k ==> IsDigit(s[m])
    ensures k <= DigitRun(s, p)
    decreases k
  {
    if 0 < k {
      DigitRunIsLongest(s, p + 1, k - 1);
    }
  }

  /** The longest run of digits stops at the first non-digit. */
  lemma {:induction false} DigitRunStopsAt(s: string, p: nat, q: nat)
    requires p <= q < |s| && !IsDigit(s[q])
    ensures p + DigitRun(s, p) <= q
    decreases q - p
  {
    if p < q && IsDigit(s[p]) {
      DigitRunStopsAt(s, p + 1, q);
    }
  }

  /** The longest run of word characters stops at the first other character. */
  lemma {:induction false} WordRunStopsAt(s: string, p: nat, q: nat)
    requires p <= q < |s| && !IsWordChar(s[q])
    ensures p + WordRun(s, p) <= q
    decreases q - p
  {
    if p < q && IsWordChar(s[p]) {
      WordRunStopsAt(s, p + 1, q);
    }
  }

  // ---------------------------------------------------------------- ^<(\d+)>

  /** `^<(\d+)>` matches, its `>` at index k, so that group 1 is s[1..k]. */
  predicate PriorityTagEndsAt(s: string, k: nat) {
    2 <= k < |s| && s[0] == '<' && s[k] == '>' && forall m :: 1 <= m < k ==> IsDigit(s[m])
  }

  /** The anchored priority pattern: group 1 when the line starts with `<digits>`. */
  function MatchPriority(s: string): (r: Option<string>)
    ensures r.None? <==> forall k: nat :: !PriorityTagEndsAt(s, k)
    ensures r.Some? ==> PriorityTagEndsAt(s, |r.value| + 1) && r.value == s[1..|r.value| + 1]
  {
    if |s| == 0 || s[0] != '<' then None
    else
      var n := DigitRun(s, 1);
      assert forall k: nat :: PriorityTagEndsAt(s, k) ==> k == 1 + n by {
        forall k: nat | PriorityTagEndsAt(s, k) ensures k == 1 + n {
          PriorityTagClosesDigitRun(s, k);
        }
      }
      if 1 <= n && 1 + n < |s| && s[1 + n] == '>' then
        assert PriorityTagEndsAt(s, 1 + n);
        Some(s[1..1 + n])
      else None
  }

  /** The `>` of the tag is the first character after the digit run. */
  lemma PriorityTagClosesDigitRun(s: string, k: nat)
    requires PriorityTagEndsAt(s, k)
    ensures k == 1 + DigitRun(s, 1)
  {
    DigitRunIsLongest(s, 1, k - 1);
    DigitRunStopsAt(s, 1, k);
  }

  /** At most one `>` can close the tag, so group 1 is determined by the line. */
  lemma PriorityTagUnique(s: string, k1: nat, k2: nat)
    requires PriorityTagEndsAt(s, k1) && PriorityTagEndsAt(s, k2)
    ensures k1 == k2
  {
    PriorityTagClosesDigitRun(s, k1);
    PriorityTagClosesDigitRun(s, k2);
  }

  // ---------------------------------------------------------------- lit(\w+)

  /** The pattern `lit(\w+)` can match at start i with a group 1 of length k. */
  predicate CaptureMatch(s: string, lit: string, i: nat, k: nat) {
    && OccursAt(s, i, lit)
    && 1 <= k
    && i + |lit| + k <= |s|
    && forall m :: i + |lit| <= m < i + |lit| + k ==> IsWordChar(s[m])
  }

  /** The match `find()` reports for `lit(\w+)`: leftmost start, longest group. */
  ghost predicate CaptureFound(s: string, lit: string, i: nat, k: nat) {
    && CaptureMatch(s, lit, i, k)
    && (forall j: nat, k': nat :: j < i ==> !CaptureMatch(s, lit, j, k'))
    && (forall k': nat :: k < k' ==> !CaptureMatch(s, lit, i, k'))
  }

  /** Scan start positions from `from` upwards for `lit(\w+)`. */
  function FindCapture(s: string, lit: string, from: nat): (r: Option<(nat, nat)>)
    ensures r.None? ==> forall j: nat, k: nat :: from <= j ==> !CaptureMatch(s, lit, j, k)
    ensures r.Some? ==> var (i, k) := r.value;
      && from <= i
      && CaptureMatch(s, lit, i, k)
      && (forall j: nat, k': nat :: from <= j < i ==> !CaptureMatch(s, lit, j, k'))
      && (forall k': nat :: k < k' ==> !CaptureMatch(s, lit, i, k'))
    decreases |s| - from
  {
    if |s| <= from + |lit| then None
    else
      var w := WordRun(s, from + |lit|);
      assert forall k': nat :: CaptureMatch(s, lit, from, k') ==> 1 <= k' <= w by {
        forall k': nat | CaptureMatch(s, lit, from, k') ensures 1 <= k' <= w {
          WordRunIsLongest(s, from + |lit|, k');
        }
      }
      if OccursAt(s, from, lit) && 1 <= w then Some((from, w))
      else FindCapture(s, lit, from + 1)
  }

  /** Group 1 of `lit(\w+)` as `Matcher.find()` then `group(1)` report it. */
  function Capture(s: string, lit: string): (r: Option<string>)
    ensures r.None? <==> forall i: nat, k: nat :: !CaptureMatch(s, lit, i, k)
    ensures r.Some? ==> exists i: nat, k: nat ::
      CaptureFound(s, lit, i, k) && r.value == s[i + |lit|..i + |lit| + k]
  {
    match FindCapture(s, lit, 0)
    case None => None
    case Some((i, k)) =>
      assert CaptureFound(s, lit, i, k);
      Some(s[i + |lit|..i + |lit| + k])
  }

  const LogoutLit: string := "session closed for user "
  const AccountLit: string := "Account Name: "

  /** LINUX_LOGOUT_PATTERN, `session closed for user (\w+)`. */
  function MatchLinuxLogout(s: string): (r: Option<string>)
    ensures r.None? <==> forall i: nat, k: nat :: !CaptureMatch(s, LogoutLit, i, k)
    ensures r.Some? ==> exists i: nat, k: nat ::
      CaptureFound(s, LogoutLit, i, k) && r.value == s[i + |LogoutLit|..i + |LogoutLit| + k]
  {
    Capture(s, LogoutLit)
  }

  /** WINDOWS_LOGIN_PATTERN, `Account Name: (\w+)`. */
  function MatchWindowsAccount(s: string): (r: Option<string>)
    ensures r.None? <==> forall i: nat, k: nat :: !CaptureMatch(s, AccountLit, i, k)
    ensures r.Some? ==> exists i: nat, k: nat ::
      CaptureFound(s, AccountLit, i, k) && r.value == s[i + |AccountLit|..i + |AccountLit| + k]
  {
    Capture(s, AccountLit)
  }

  // ---------------------------------------------------------------- session opened for user (\w+).*by (\w+)

  const LoginLit: string := "session opened for user "

  /** `by (\w+)` can match at j. */
  predicate ByWordAt(s: string, j: nat) {
    OccursAt(s, j, "by ") && j + 3 < |s| && IsWordChar(s[j + 3])
  }

  /** `.*` can match s[a..b]: no line terminator in between. */
  predicate DotsOnly(s: string, a: nat, b: nat) {
    forall m :: a <= m < b && m < |s| ==> !IsLineTerminator(s[m])
  }

  /** LINUX_LOGIN_PATTERN can match at start i with a group 1 of length k:
      the literal, k word characters, then `.*` up to some `by \w`. */
  ghost predicate LoginMatch(s: string, i: nat, k: nat) {
    && CaptureMatch(s, LoginLit, i, k)
    && exists j: nat :: i + |LoginLit| + k <= j && ByWordAt(s, j) && DotsOnly(s, i + |LoginLit| + k, j)
  }

  /** The match `find()` reports for LINUX_LOGIN_PATTERN. */
  ghost predicate LoginFound(s: string, i: nat, k: nat) {
    && LoginMatch(s, i, k)
    && (forall j: nat, k': nat :: j < i ==> !LoginMatch(s, j, k'))
    && (forall k': nat :: k < k' ==> !LoginMatch(s, i, k'))
  }

  /** First line terminator at or after p, or the end of the line. */
  function NextTerminator(s: string, p: nat): (t: nat)
    requires p <= |s|
    ensures p <= t <= |s| && DotsOnly(s, p, t)
    ensures t == |s| || IsLineTerminator(s[t])
    decreases |s| - p
  {
    if p == |s| || IsLineTerminator(s[p]) then p else NextTerminator(s, p + 1)
  }

  /** The last j in [lo, hi) at which `by \w` occurs. */
  function LastByWord(s: string, lo: nat, hi: nat): (r: Option<nat>)
    ensures r.Some? ==> lo <= r.value < hi && ByWordAt(s, r.value)
    ensures r.Some? ==> forall j: nat :: r.value < j < hi ==> !ByWordAt(s, j)
    ensures r.None? ==> forall j: nat :: lo <= j < hi ==> !ByWordAt(s, j)
    decreases hi
  {
    if hi <= lo then None
    else if ByWordAt(s, hi - 1) then Some(hi - 1)
    else LastByWord(s, lo, hi - 1)
  }

  /** The first line terminator after p lies past any stretch `.` can cross. */
  lemma {:induction false} NextTerminatorPast(s: string, p: nat, q: nat)
    requires p <= q < |s| && DotsOnly(s, p, q + 1)
    ensures q < NextTerminator(s, p)
    decreases q - p
  {
    if p < q {
      NextTerminatorPast(s, p + 1, q);
    }
  }

  /** Any `by \w` that `.*` can reach from inside the word run after the
      literal lies before the first line terminator past that run. */
  lemma ReachableByWordBeforeTerminator(s: string, p: nat, w: nat, k: nat, j: nat)
    requires p + w <= |s| && k <= w
    requires p + k <= j && ByWordAt(s, j) && DotsOnly(s, p + k, j)
    ensures j < NextTerminator(s, p + w)
  {
    assert s[j..j + 3] == "by ";
    assert s[j] == 'b';
    if p + w <= j {
      NextTerminatorPast(s, p + w, j);
    }
  }

  /** What a match at start i needs: a group no longer than the word run, and a
      `by \w` past the group and before the first line terminator after the run. */
  ghost predicate LoginReach(s: string, p: nat, w: nat, t: nat, k: nat) {
    k <= w && exists j: nat :: p + k <= j < t && ByWordAt(s, j)
  }

  /** The group 1 that LINUX_LOGIN_PATTERN settles on at start i, if it matches
      there: the whole word run when a `by \w` is reachable past it, otherwise
      the run cut back to just before the last reachable `by \w`. */
  function LoginGroupAt(s: string, i: nat): (r: Option<nat>)
    ensures r.None? ==> forall k: nat :: !LoginMatch(s, i, k)
    ensures r.Some? ==> LoginMatch(s, i, r.value)
    ensures r.Some? ==> forall k: nat :: r.value < k ==> !LoginMatch(s, i, k)
  {
    var p := i + |LoginLit|;
    if !OccursAt(s, i, LoginLit) then None
    else
      var w := WordRun(s, p);
      var t := NextTerminator(s, p + w);
      assert forall k: nat :: LoginMatch(s, i, k) ==> LoginReach(s, p, w, t, k) by {
        forall k: nat | LoginMatch(s, i, k) ensures LoginReach(s, p, w, t, k) {
          var j: nat :| p + k <= j && ByWordAt(s, j) && DotsOnly(s, p + k, j);
          WordRunIsLongest(s, p, k);
          ReachableByWordBeforeTerminator(s, p, w, k, j);
        }
      }
      if w == 0 then None
      else match LastByWord(s, p + 1, t)
      case None => None
      case Some(j) =>
        var k := if j - p < w then j - p else w;
        assert LoginMatch(s, i, k);
        Some(k)
  }

  /** Scan start positions from `from` upwards for LINUX_LOGIN_PATTERN. */
  function FindLogin(s: string, from: nat): (r: Option<(nat, nat)>)
    ensures r.None? ==> forall j: nat, k: nat :: from <= j ==> !LoginMatch(s, j, k)
    ensures r.Some? ==> var (i, k) := r.value;
      && from <= i
      && LoginMatch(s, i, k)
      && (forall j: nat, k': nat :: from <= j < i ==> !LoginMatch(s, j, k'))
      && (forall k': nat :: k < k' ==> !LoginMatch(s, i, k'))
    decreases |s| - from
  {
    if |s| <= from + |LoginLit| then None
    else
      match LoginGroupAt(s, from)
      case Some(k) => Some((from, k))
      case None => FindLogin(s, from + 1)
  }

  /** LINUX_LOGIN_PATTERN, `session opened for user (\w+).*by (\w+)`: group 1. */
  function MatchLinuxLogin(s: string): (r: Option<string>)
    ensures r.None? <==> forall i: nat, k: nat :: !LoginMatch(s, i, k)
    ensures r.Some? ==> exists i: nat, k: nat ::
      LoginFound(s, i, k) && r.value == s[i + |LoginLit|..i + |LoginLit| + k]
  {
    match FindLogin(s, 0)
    case None => None
    case Some((i, k)) =>
      assert LoginFound(s, i, k);
      Some(s[i + |LoginLit|..i + |LoginLit| + k])
  }

  // ---------------------------------------------------------------- the match on a line of known shape

  /** find() reports one match: two leftmost-longest captures are the same. */
  lemma CaptureFoundUnique(s: string, lit: string, i1: nat, k1: nat, i2: nat, k2: nat)
    requires CaptureFound(s, lit, i1, k1) && CaptureFound(s, lit, i2, k2)
    ensures i1 == i2 && k1 == k2
  {
  }

  /** The middle piece of a three-piece concatenation. */
  lemma MiddleOf(a: string, b: string, c: string)
    ensures (a + b + c)[|a|..|a| + |b|] == b
  {
    assert (a + b + c)[|a|..|a| + |b|] == (a + b)[|a|..|a| + |b|];
  }

  /** A line `pre + lit + user + rest` whose first occurrence of `lit` follows
      `pre`, with `user` a word and `rest` not continuing it, yields `user`. */
  lemma CaptureOfShape(s: string, lit: string, pre: string, user: string, rest: string)
    requires s == pre + lit + user + rest
    requires forall i :: 0 <= i < |pre| ==> !OccursAt(s, i, lit)
    requires user != [] && forall m :: 0 <= m < |user| ==> IsWordChar(user[m])
    requires rest == [] || !IsWordChar(rest[0])
    ensures Capture(s, lit) == Some(user)
  {
    var p := |pre| + |lit|;
    MiddleOf(pre, lit, user + rest);
    MiddleOf(pre + lit, user, rest);
    assert CaptureMatch(s, lit, |pre|, |user|) by {
      forall m | p <= m < p + |user| ensures IsWordChar(s[m]) {
        assert s[m] == user[m - p];
      }
    }
    if rest != [] {
      assert s[p + |user|] == rest[0];
      WordRunStopsAt(s, p, p + |user|);
    }
    forall k': nat | CaptureMatch(s, lit, |pre|, k') ensures k' <= |user| {
      WordRunIsLongest(s, p, k');
    }
    assert CaptureFound(s, lit, |pre|, |user|);
    var r := Capture(s, lit);
    var i: nat, k: nat :| CaptureFound(s, lit, i, k) && r.value == s[i + |lit|..i + |lit| + k];
    CaptureFoundUnique(s, lit, i, k, |pre|, |user|);
  }

  /** find() reports one match of LINUX_LOGIN_PATTERN. */
  lemma LoginFoundUnique(s: string, i1: nat, k1: nat, i2: nat, k2: nat)
    requires LoginFound(s, i1, k1) && LoginFound(s, i2, k2)
    ensures i1 == i2 && k1 == k2
  {
  }

  /** The login pattern where the literal first occurs at i, its word ends at
      q, and a `by \w` at j can be reached from q: group 1 is the whole word. */
  lemma LoginAtPositions(s: string, i: nat, q: nat, j: nat, user: string)
    requires OccursAt(s, i, LoginLit) && forall i' :: 0 <= i' < i ==> !OccursAt(s, i', LoginLit)
    requires i + |LoginLit| < q < |s| && !IsWordChar(s[q])
    requires forall m :: i + |LoginLit| <= m < q ==> IsWordChar(s[m])
    requires q <= j && ByWordAt(s, j) && DotsOnly(s, q, j)
    requires user == s[i + |LoginLit|..q]
    ensures MatchLinuxLogin(s) == Some(user)
  {
    var p := i + |LoginLit|;
    assert CaptureMatch(s, LoginLit, i, q - p);
    assert LoginMatch(s, i, q - p);
    WordRunStopsAt(s, p, q);
    forall k': nat | CaptureMatch(s, LoginLit, i, k') ensures k' <= q - p {
      WordRunIsLongest(s, p, k');
    }
    assert forall j': nat, k': nat :: j' < i ==> !LoginMatch(s, j', k');
    assert forall k': nat :: q - p < k' ==> !LoginMatch(s, i, k');
    assert LoginFound(s, i, q - p);
    var r := MatchLinuxLogin(s);
    var i': nat, k: nat :| LoginFound(s, i', k) && r.value == s[i' + |LoginLit|..i' + |LoginLit| + k];
    LoginFoundUnique(s, i', k, i, q - p);
  }

  /** Where the pieces of a five-piece concatenation sit. */
  lemma PiecesOf(s: string, a: string, b: string, c: string, d: string, e: string)
    requires s == a + b + c + d + e
    ensures s[|a|..|a| + |b|] == b
    ensures s[|a| + |b|..|a| + |b| + |c|] == c
    ensures s[|a| + |b| + |c|..|a| + |b| + |c| + |d|] == d
    ensures s[|a| + |b| + |c| + |d|..] == e
  {
    MiddleOf(a, b, c + d + e);
    MiddleOf(a + b, c, d + e);
    MiddleOf(a + b + c, d, e);
  }

  /** Where the pieces of a login line of known shape sit. */
  lemma LoginShapeLayout(s: string, pre: string, user: string, mid: string, tail: string)
    requires s == pre + LoginLit + user + mid + tail
    requires user != [] && forall m :: 0 <= m < |user| ==> IsWordChar(user[m])
    requires mid != [] && !IsWordChar(mid[0])
    requires forall m :: 0 <= m < |mid| ==> !IsLineTerminator(mid[m])
    requires |tail| > 3 && tail[..3] == "by " && IsWordChar(tail[3])
    ensures var p, q := |pre| + |LoginLit|, |pre| + |LoginLit| + |user|;
      && OccursAt(s, |pre|, LoginLit)
      && p < q < |s| && !IsWordChar(s[q])
      && (forall m :: p <= m < q ==> IsWordChar(s[m]))
      && ByWordAt(s, q + |mid|) && DotsOnly(s, q, q + |mid|)
  {
    var p := |pre| + |LoginLit|;
    var q := p + |user|;
    var j := q + |mid|;
    PiecesOf(s, pre, LoginLit, user, mid, tail);
    assert s[j..][..3] == "by ";
    assert s[j + 3] == tail[3];
    assert DotsOnly(s, q, j) by {
      forall m | q <= m < j && m < |s| ensures !IsLineTerminator(s[m]) {
        assert s[m] == s[q..j][m - q];
      }
    }
    forall m | p <= m < q ensures IsWordChar(s[m]) {
      assert s[m] == s[p..q][m - p];
    }
    assert s[q] == s[q..j][0];
  }

  /** On a line `pre + "session opened for user " + user + mid + tail` whose
      first literal follows `pre`, where `mid` ends the word and stays on the
      line and `tail` starts `by ` and a word character, group 1 is `user`,
      whatever account follows `by`. */
  lemma LoginOfShape(s: string, pre: string, user: string, mid: string, tail: string)
    requires s == pre + LoginLit + user + mid + tail
    requires forall i :: 0 <= i < |pre| ==> !OccursAt(s, i, LoginLit)
    requires user != [] && forall m :: 0 <= m < |user| ==> IsWordChar(user[m])
    requires mid != [] && !IsWordChar(mid[0])
    requires forall m :: 0 <= m < |mid| ==> !IsLineTerminator(mid[m])
    requires |tail| > 3 && tail[..3] == "by " && IsWordChar(tail[3])
    ensures MatchLinuxLogin(s) == Some(user)
  {
    var q := |pre| + |LoginLit| + |user|;
    PiecesOf(s, pre, LoginLit, user, mid, tail);
    LoginShapeLayout(s, pre, user, mid, tail);
    LoginAtPositions(s, |pre|, q, q + |mid|, user);
  }
}
