/**
 * The JavaScript string built-ins the track-size list relies on:
 * `String.prototype.trim` (only through "is the trimmed string empty"),
 * `String.prototype.split` with a string separator and `Array.prototype.join`.
 */
module JsText {

  /** The white-space characters `trim` removes, restricted to the common ones. */
  predicate IsWhitespace(c: char) {
    c == ' ' || c == '\t' || c == '\n' || c == '\r' || c == '\U{000B}' || c == '\U{000C}'
    || c == '\U{00A0}' || c == '\U{FEFF}'
  }

  /** Every character of `s` is white space. */
  predicate IsBlank(s: string) {
    forall i :: 0 <= i < |s| ==> IsWhitespace(s[i])
  }

  /** `s` without its leading white space. */
  function TrimStart(s: string): (r: string)
    ensures |r| <= |s| && r == s[|s| - |r|..]
    ensures IsBlank(s[..|s| - |r|])
    ensures r == [] || !IsWhitespace(r[0])
  {
    if s == [] || !IsWhitespace(s[0]) then s
    else
      var r := TrimStart(s[1..]);
      assert s[1..][..|s| - 1 - |r|] == s[1..|s| - |r|];
      r
  }

  /** `s` without its trailing white space. */
  function TrimEnd(s: string): (r: string)
    ensures |r| <= |s| && r == s[..|r|]
    ensures IsBlank(s[|r|..])
    ensures r == [] || !IsWhitespace(r[|r| - 1])
  {
    if s == [] || !IsWhitespace(s[|s| - 1]) then s
    else
      var r := TrimEnd(s[..|s| - 1]);
      assert s[..|s| - 1][|r|..] == s[|r|..|s| - 1];
      r
  }

  /** `s.trim()`. */
  function Trim(s: string): string {
    TrimEnd(TrimStart(s))
  }

  /** `s.trim().length` is zero exactly when `s` is blank. */
  lemma TrimEmptyIffBlank(s: string)
    ensures |Trim(s)| == 0 <==> IsBlank(s)
  {
    var t := TrimStart(s);
    if |Trim(s)| == 0 {
      assert IsBlank(t[0..]);
      assert |t| == 0;
      assert s[..|s|] == s;
    }
  }

  /** An occurrence of `sep` in `s` starts at position `p`. */
  predicate MatchAt(s: string, sep: string, p: int) {
    0 <= p && p + |sep| <= |s| && s[p..p + |sep|] == sep
  }

  /** `sep` occurs somewhere in `s`. */
  predicate Contains(s: string, sep: string) {
    exists p | 0 <= p <= |s| :: MatchAt(s, sep, p)
  }

  /**
   * `s.split(sep)`: for a non-empty separator the pieces between the leftmost
   * non-overlapping occurrences of `sep`; for the empty separator one piece per
   * character (and no piece for the empty string).
   */
  function Split(s: string, sep: string): (r: seq<string>)
    ensures sep != [] ==> |r| >= 1
    ensures sep == [] ==> |r| == |s|
    decreases |s|
  {
    if sep == [] then seq(|s|, i requires 0 <= i < |s| => [s[i]])
    else if |s| < |sep| then [s]
    else if s[..|sep|] == sep then [""] + Split(s[|sep|..], sep)
    else
      var rest := Split(s[1..], sep);
      [[s[0]] + rest[0]] + rest[1..]
  }

  /** `parts.join(sep)`. */
  function Join(parts: seq<string>, sep: string): string {
    if |parts| == 0 then ""
    else if |parts| == 1 then parts[0]
    else parts[0] + sep + Join(parts[1..], sep)
  }

  /** Joining the pieces of a split with the same separator restores the string exactly. */
  lemma {:induction false} JoinSplit(s: string, sep: string)
    ensures Join(Split(s, sep), sep) == s
    decreases |s|
  {
    if sep == [] {
      JoinSplitChars(s);
    } else if |s| < |sep| {
    } else if s[..|sep|] == sep {
      JoinSplit(s[|sep|..], sep);
      JoinSplitAtMatch(s, sep);
    } else {
      JoinSplit(s[1..], sep);
      JoinSplitPastChar(s, sep);
    }
  }

  /** The step of `JoinSplit` where `s` starts with the separator. */
  lemma JoinSplitAtMatch(s: string, sep: string)
    requires sep != [] && |sep| <= |s| && s[..|sep|] == sep
    requires Join(Split(s[|sep|..], sep), sep) == s[|sep|..]
    ensures Join(Split(s, sep), sep) == s
  {
    var tail := s[|sep|..];
    var rest := Split(tail, sep);
    assert Split(s, sep) == [""] + rest;
    JoinCons("", rest, sep);
    EmptyAppend(sep + tail);
    SplitAt(s, |sep|);
  }

  /** Joining a part in front of at least one other part puts a separator between them. */
  lemma JoinCons(first: string, parts: seq<string>, sep: string)
    requires |parts| >= 1
    ensures Join([first] + parts, sep) == first + sep + Join(parts, sep)
  {
    assert ([first] + parts)[1..] == parts;
  }

  /** Appending to the empty sequence changes nothing. */
  lemma EmptyAppend<T>(s: seq<T>)
    ensures [] + s == s
  {
  }

  /** A non-empty sequence is its first element followed by the rest. */
  lemma HeadTail<T>(s: seq<T>)
    requires |s| >= 1
    ensures s == [s[0]] + s[1..]
  {
  }

  /** Putting the first element back in front of the rest of `a + b`. */
  lemma ConsAppend<T>(a: seq<T>, b: seq<T>)
    requires |a| >= 1
    ensures [a[0]] + (a[1..] + b) == a + b
  {
  }

  /** A sequence is its prefix followed by the rest. */
  lemma SplitAt<T>(s: seq<T>, n: nat)
    requires n <= |s|
    ensures s == s[..n] + s[n..]
  {
  }

  /** The step of `JoinSplit` where `s` does not start with the separator. */
  lemma JoinSplitPastChar(s: string, sep: string)
    requires sep != [] && |sep| <= |s| && s[..|sep|] != sep
    requires Join(Split(s[1..], sep), sep) == s[1..]
    ensures Join(Split(s, sep), sep) == s
  {
    JoinPrependToFirst(s[0], Split(s[1..], sep), sep);
    HeadTail(s);
  }


  /** The character-by-character case of `JoinSplit`. */
  lemma {:induction false} JoinSplitChars(s: string)
    ensures Join(Split(s, []), []) == s
    decreases |s|
  {
    if |s| > 1 {
      JoinSplitChars(s[1..]);
      assert Split(s, [])[1..] == Split(s[1..], []);
      assert s == [s[0]] + s[1..];
    }
  }

  /** Prepending a character to the first part prepends it to the joined string. */
  lemma JoinPrependToFirst(c: char, parts: seq<string>, sep: string)
    requires |parts| >= 1
    ensures Join([[c] + parts[0]] + parts[1..], sep) == [c] + Join(parts, sep)
  {
    var q := [[c] + parts[0]] + parts[1..];
    if |parts| > 1 {
      assert q[1..] == parts[1..];
    }
  }

  /** The first piece of a split by a non-empty separator is a prefix of the string. */
  lemma {:induction false} SplitFirstPrefix(s: string, sep: string)
    requires sep != []
    ensures Split(s, sep)[0] <= s
    decreases |s|
  {
    if |s| >= |sep| && s[..|sep|] != sep {
      SplitFirstPrefix(s[1..], sep);
    }
  }

  /** No piece of a split by a non-empty separator contains the separator. */
  lemma {:induction false} SplitPiecesFree(s: string, sep: string)
    requires sep != []
    ensures PiecesFree(Split(s, sep), sep)
    decreases |s|
  {
    if |s| < |sep| {
      forall p | MatchAt(s, sep, p) ensures false { }
    } else if s[..|sep|] == sep {
      SplitPiecesFree(s[|sep|..], sep);
      PiecesFreeAtMatch(s, sep);
    } else {
      SplitPiecesFree(s[1..], sep);
      PiecesFreePastChar(s, sep);
    }
  }

  /** No piece of `parts` contains `sep`. */
  predicate PiecesFree(parts: seq<string>, sep: string) {
    forall k :: 0 <= k < |parts| ==> !Contains(parts[k], sep)
  }

  /** The step of `SplitPiecesFree` where `s` starts with the separator. */
  lemma PiecesFreeAtMatch(s: string, sep: string)
    requires sep != [] && |sep| <= |s| && s[..|sep|] == sep
    requires PiecesFree(Split(s[|sep|..], sep), sep)
    ensures PiecesFree(Split(s, sep), sep)
  {
    var r := Split(s, sep);
    var rest := Split(s[|sep|..], sep);
    assert r == [""] + rest;
    forall k | 0 <= k < |r| ensures !Contains(r[k], sep) {
      if k == 0 {
        forall p | MatchAt(r[0], sep, p) ensures false { }
      } else {
        assert r[k] == rest[k - 1];
      }
    }
  }

  /** The step of `SplitPiecesFree` where `s` does not start with the separator. */
  lemma PiecesFreePastChar(s: string, sep: string)
    requires sep != [] && |sep| <= |s| && s[..|sep|] != sep
    requires PiecesFree(Split(s[1..], sep), sep)
    ensures PiecesFree(Split(s, sep), sep)
  {
    var rest := Split(s[1..], sep);
    SplitFirstPrefix(s, sep);
    FirstPieceFree(s, rest[0], sep);
    PiecesFreeReplaceFirst(rest, [s[0]] + rest[0], sep);
  }

  /** Replacing the first of pieces free of `sep` by another such piece keeps them free. */
  lemma PiecesFreeReplaceFirst(parts: seq<string>, first: string, sep: string)
    requires |parts| >= 1 && PiecesFree(parts, sep) && !Contains(first, sep)
    ensures PiecesFree([first] + parts[1..], sep)
  {
    var q := [first] + parts[1..];
    forall k | 1 <= k < |q| ensures !Contains(q[k], sep) {
      assert q[k] == parts[k];
    }
  }

  /**
   * A character of `s` put in front of a piece free of `sep` leaves it free of
   * `sep` when the result is a prefix of `s` and `s` does not start with `sep`.
   */
  lemma FirstPieceFree(s: string, piece: string, sep: string)
    requires |sep| <= |s| && s[..|sep|] != sep
    requires |s| >= 1 && [s[0]] + piece <= s
    requires !Contains(piece, sep)
    ensures !Contains([s[0]] + piece, sep)
  {
    var first := [s[0]] + piece;
    forall p | MatchAt(first, sep, p) ensures false {
      if p != 0 {
        assert first[p..p + |sep|] == piece[p - 1..p - 1 + |sep|];
        assert MatchAt(piece, sep, p - 1);
      }
    }
  }

  /**
   * When no occurrence of `sep` starts inside `head`, splitting `head + tail`
   * only lengthens the first piece of splitting `tail`.
   */
  lemma {:induction false} SplitUnmatchedHead(head: string, tail: string, sep: string)
    requires sep != []
    requires forall p :: 0 <= p < |head| ==> !MatchAt(head + tail, sep, p)
    ensures Split(head + tail, sep) == [head + Split(tail, sep)[0]] + Split(tail, sep)[1..]
    decreases |head|
  {
    if head != [] {
      var s := head + tail;
      assert s[1..] == head[1..] + tail;
      forall p | 0 <= p < |head| - 1 ensures !MatchAt(head[1..] + tail, sep, p) {
        assert !MatchAt(s, sep, p + 1);
        if p + |sep| <= |s[1..]| {
          assert s[1..][p..p + |sep|] == s[p + 1..p + 1 + |sep|];
        }
      }
      SplitUnmatchedHead(head[1..], tail, sep);
      assert !MatchAt(s, sep, 0);
      var t := Split(tail, sep);
      var r := Split(s[1..], sep);
      assert r == [head[1..] + t[0]] + t[1..];
      assert s[0] == head[0];
      if |s| < |sep| {
        assert |t| == 1;
      } else {
        assert s[..|sep|] != sep;
        assert Split(s, sep) == [[s[0]] + r[0]] + r[1..];
        ConsAppend(head, t[0]);
      }
    } else {
      assert head + tail == tail;
      var t := Split(tail, sep);
      EmptyAppend(t[0]);
      HeadTail(t);
    }
  }
}
