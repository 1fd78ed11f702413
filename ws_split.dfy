/**
  `String.split("\\s+")` as java.util.regex.Pattern.split performs it with a
  zero limit, and the hostname the parser reads from its result.
 */
module WsSplit {
  import opened Wrappers
  import opened JavaText

  predicate NoWhitespace(t: string) {
    forall k :: 0 <= k < |t| ==> !IsWhitespace(t[k])
  }

  /** Length of the longest prefix of s without whitespace. */
  function NonWsPrefix(s: string): (n: nat)
    ensures n <= |s| && NoWhitespace(s[..n])
    ensures n == |s| || IsWhitespace(s[n])
  {
    if s == [] || IsWhitespace(s[0]) then 0
    else
      var n := 1 + NonWsPrefix(s[1..]);
      assert s[..n] == [s[0]] + s[1..][..n - 1];
      n
  }

  /** Length of the longest prefix of s made of whitespace. */
  function WsPrefix(s: string): (n: nat)
    ensures n <= |s| && forall k :: 0 <= k < n ==> IsWhitespace(s[k])
    ensures n == |s| || !IsWhitespace(s[n])
  {
    if s == [] || !IsWhitespace(s[0]) then 0 else 1 + WsPrefix(s[1..])
  }

  /** The pieces Pattern.split cuts s into around each maximal run of
      whitespace, before trailing empty pieces are dropped: the piece before
      the first run (empty when s starts with whitespace), the pieces between
      runs and the piece after the last run (empty when s ends with
      whitespace); just `[s]` when s holds no whitespace. */
  function Pieces(s: string): (r: seq<string>)
    ensures |r| >= 1
    ensures forall i :: 0 <= i < |r| ==> NoWhitespace(r[i])
    ensures forall i :: 0 < i < |r| - 1 ==> r[i] != []
    ensures r[0] == [] <==> s == [] || IsWhitespace(s[0])
    decreases |s|
  {
    var n := NonWsPrefix(s);
    if n == |s| then [s]
    else
      var rest := s[n..];
      var m := WsPrefix(rest);
      [s[..n]] + Pieces(rest[m..])
  }

  /** Pattern.split with limit 0 removes the trailing empty strings. */
  function DropTrailingEmpty(r: seq<string>): (t: seq<string>)
    ensures |t| <= |r| && t == r[..|t|]
    ensures t == [] || t[|t| - 1] != []
    ensures forall i :: |t| <= i < |r| ==> r[i] == []
  {
    if r == [] || r[|r| - 1] != [] then r else DropTrailingEmpty(r[..|r| - 1])
  }

  /** `s.split("\\s+")`: when the pattern matches nowhere Pattern.split
      returns the input itself, so a line without whitespace (the empty line
      included) gives `[s]`; otherwise the pieces, less trailing empty ones. */
  function Split(s: string): (r: seq<string>)
    ensures forall i :: 0 <= i < |r| ==> NoWhitespace(r[i])
    ensures forall i :: 0 < i < |r| ==> r[i] != []
    ensures NoWhitespace(s) <==> r == [s]
  {
    if NonWsPrefix(s) == |s| then
      assert s[..|s|] == s;
      [s]
    else
      var p := Pieces(s);
      var r := DropTrailingEmpty(p);
      assert forall i :: 0 <= i < |r| ==> r[i] == p[i];
      assert !NoWhitespace(s) by { assert IsWhitespace(s[NonWsPrefix(s)]); }
      r
  }

  /** The words of s: its maximal runs of non-whitespace characters, in order. */
  function Words(s: string): (w: seq<string>)
    ensures forall i :: 0 <= i < |w| ==> IsToken(w[i])
    decreases |s|
  {
    var b := WsPrefix(s);
    if b == |s| then []
    else
      var t := s[b..];
      var n := NonWsPrefix(t);
      [t[..n]] + Words(t[n..])
  }

  /** Dropping trailing empty strings looks through a leading piece. */
  lemma {:induction false} DropTrailingEmptyCons(a: string, p: seq<string>)
    ensures DropTrailingEmpty([a] + p)
      == if a == [] && DropTrailingEmpty(p) == [] then [] else [a] + DropTrailingEmpty(p)
    decreases |p|
  {
    if p != [] && p[|p| - 1] == [] {
      assert ([a] + p)[..|p|] == [a] + p[..|p| - 1];
      DropTrailingEmptyCons(a, p[..|p| - 1]);
    } else if p == [] {
      assert [a] + p == [a];
    }
  }

  /** Past a leading blank stretch the words are unchanged. */
  lemma WordsAfterBlanks(s: string)
    ensures Words(s[WsPrefix(s)..]) == Words(s)
  {
    var v := s[WsPrefix(s)..];
    if v != [] {
      assert WsPrefix(v) == 0;
      assert v[0..] == v;
    }
  }

  /** For a line that does not start with whitespace, the pieces less trailing
      empty ones are exactly its words. */
  lemma {:induction false} PiecesAreWords(u: string)
    requires u == [] || !IsWhitespace(u[0])
    ensures DropTrailingEmpty(Pieces(u)) == Words(u)
    decreases |u|
  {
    if u != [] {
      var n := NonWsPrefix(u);
      assert WsPrefix(u) == 0 && u[0..] == u;
      if n == |u| {
        assert u[..n] == u && u[n..] == [];
        assert Words(u) == [u];
      } else {
        var rest := u[n..];
        var v := rest[WsPrefix(rest)..];
        assert Pieces(u) == [u[..n]] + Pieces(v);
        DropTrailingEmptyCons(u[..n], Pieces(v));
        PiecesAreWords(v);
        WordsAfterBlanks(rest);
        assert Words(u) == [u[..n]] + Words(rest);
      }
    }
  }

  /** `split("\\s+")` against the words of the line: the empty line gives one
      empty string, a line starting with whitespace gives an empty string
      before its words (nothing at all when it has no word), and any other
      line gives exactly its words. */
  lemma SplitIsWords(s: string)
    ensures Split(s) ==
      if s == [] then [""]
      else if IsWhitespace(s[0]) then (if Words(s) == [] then [] else [""] + Words(s))
      else Words(s)
  {
    if s != [] {
      if IsWhitespace(s[0]) {
        var v := s[WsPrefix(s)..];
        assert s[0..] == s;
        assert Pieces(s) == [[]] + Pieces(v);
        DropTrailingEmptyCons([], Pieces(v));
        PiecesAreWords(v);
        WordsAfterBlanks(s);
      } else {
        PiecesAreWords(s);
        if NonWsPrefix(s) == |s| {
          assert Pieces(s) == [s];
        }
      }
    }
  }

  /** Hostname as the parser reads it: element 1 of the split, when there is one. */
  function HostnameOf(s: string): Option<string> {
    var parts := Split(s);
    if |parts| > 1 then Some(parts[1]) else None
  }

  /** The second whitespace-delimited token, read off the line directly: skip
      the leading non-blank stretch (possibly empty), the blank stretch after
      it, and take the non-blank stretch that follows, if any. */
  function SecondToken(s: string): Option<string> {
    var f := NonWsPrefix(s);
    var rest := s[f..];
    var after := rest[WsPrefix(rest)..];
    if f == |s| || after == [] then None else Some(after[..NonWsPrefix(after)])
  }

  /** Element 1 of `split("\\s+")` is the second token of the line: the first
      word after a leading blank stretch, or the second word otherwise. */
  lemma HostnameIsSecondToken(s: string)
    ensures HostnameOf(s) == SecondToken(s)
    ensures HostnameOf(s).Some? ==> HostnameOf(s).value != [] && NoWhitespace(HostnameOf(s).value)
  {
    var f := NonWsPrefix(s);
    if f < |s| {
      var rest := s[f..];
      var after := rest[WsPrefix(rest)..];
      var p := Pieces(s);
      assert p == [s[..f]] + Pieces(after);
      if after != [] {
        assert !IsWhitespace(after[0]);
        var q := Pieces(after);
        if NonWsPrefix(after) == |after| {
          assert q == [after];
        } else {
          assert q[0] == after[..NonWsPrefix(after)];
        }
        assert p[1] == after[..NonWsPrefix(after)] != [];
        assert Split(s)[1] == p[1];
      } else {
        assert Pieces(after) == [[]];
        assert p == [s[..f], []];
      }
    }
  }

  /** Tokens joined by single spaces. */
  function JoinSpaced(toks: seq<string>): string {
    if |toks| == 0 then [] else if |toks| == 1 then toks[0] else toks[0] + " " + JoinSpaced(toks[1..])
  }

  predicate IsToken(t: string) {
    t != [] && NoWhitespace(t)
  }

  lemma {:induction false} NonWsPrefixOfToken(t: string, r: string)
    requires NoWhitespace(t)
    requires r == [] || IsWhitespace(r[0])
    ensures NonWsPrefix(t + r) == |t|
  {
    if t != [] {
      assert (t + r)[1..] == t[1..] + r;
      NonWsPrefixOfToken(t[1..], r);
    } else {
      assert t + r == r;
    }
  }

  /** Splitting undoes joining with single spaces: the tokens come back in
      order (no tokens join to the empty line, which splits to one empty string). */
  lemma {:induction false} SplitJoinSpaced(toks: seq<string>)
    requires forall i :: 0 <= i < |toks| ==> IsToken(toks[i])
    ensures Split(JoinSpaced(toks)) == if toks == [] then [""] else toks
  {
    PiecesJoinSpaced(toks);
    if toks != [] {
      assert DropTrailingEmpty(toks) == toks;
      if NonWsPrefix(JoinSpaced(toks)) == |JoinSpaced(toks)| {
        assert Pieces(JoinSpaced(toks)) == [JoinSpaced(toks)];
      }
    }
  }

  lemma {:induction false} PiecesJoinSpaced(toks: seq<string>)
    requires forall i :: 0 <= i < |toks| ==> IsToken(toks[i])
    ensures Pieces(JoinSpaced(toks)) == if toks == [] then [[]] else toks
  {
    if |toks| == 1 {
      NonWsPrefixOfToken(toks[0], []);
      assert toks[0] + [] == toks[0];
    } else if |toks| > 1 {
      var tail := JoinSpaced(toks[1..]);
      JoinSpacedStartsWithToken(toks[1..]);
      PiecesOfSpacedToken(toks[0], tail);
      PiecesJoinSpaced(toks[1..]);
      assert toks == [toks[0]] + toks[1..];
    }
  }

  /** One token, one space, then a line that starts with a token. */
  lemma PiecesOfSpacedToken(t: string, tail: string)
    requires IsToken(t) && tail != [] && !IsWhitespace(tail[0])
    ensures Pieces(t + " " + tail) == [t] + Pieces(tail)
  {
    var s := t + " " + tail;
    assert s == t + (" " + tail);
    NonWsPrefixOfToken(t, " " + tail);
    assert s[..|t|] == t;
    var rest := s[|t|..];
    assert rest == " " + tail;
    assert rest[1..] == tail;
    assert WsPrefix(rest) == 1;
  }

  lemma {:induction false} JoinSpacedStartsWithToken(toks: seq<string>)
    requires |toks| > 0 && forall i :: 0 <= i < |toks| ==> IsToken(toks[i])
    ensures toks[0] != [] && JoinSpaced(toks) != [] && JoinSpaced(toks)[0] == toks[0][0]
  {
    assert IsToken(toks[0]);
  }

  /** The hostname of a line made of single-spaced tokens is its second token. */
  lemma HostnameOfJoined(toks: seq<string>)
    requires |toks| >= 2 && forall i :: 0 <= i < |toks| ==> IsToken(toks[i])
    ensures HostnameOf(JoinSpaced(toks)) == Some(toks[1])
  {
    SplitJoinSpaced(toks);
  }
}
