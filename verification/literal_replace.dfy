/**
 * Case-sensitive literal replacement, as performed by the ordinal
 * `String.Replace(find, replace)` of .NET: every occurrence of a non-empty
 * `find` is replaced, scanning from left to right, and a match is never
 * allowed to overlap the one before it.
 */
module LiteralReplace {
  import opened Wrappers

  /** `find` occurs in `text` starting at index `i`. */
  predicate OccursAt(find: string, text: string, i: int) {
    0 <= i && i + |find| <= |text| && text[i..i + |find|] == find
  }

  /** `find` occurs somewhere in `text`. */
  predicate Occurs(find: string, text: string) {
    exists i :: 0 <= i <= |text| && OccursAt(find, text, i)
  }

  /** Dropping the first character shifts every occurrence one place to the left. */
  lemma OccursShift(find: string, text: string)
    requires text != []
    ensures forall j :: 0 <= j ==> (OccursAt(find, text[1..], j) <==> OccursAt(find, text, j + 1))
    ensures forall i :: 1 <= i ==> (OccursAt(find, text, i) <==> OccursAt(find, text[1..], i - 1))
  {
  }

  /** An occurrence inside a prefix of `text` is an occurrence in `text`. */
  lemma OccursInPrefix(find: string, text: string, n: nat, j: int)
    requires n <= |text| && OccursAt(find, text[..n], j)
    ensures OccursAt(find, text, j)
  {
  }

  /** Every text in which `find` occurs has a leftmost occurrence of it. */
  lemma {:induction false} LeftmostOccurrence(find: string, text: string, i: nat)
    requires OccursAt(find, text, i)
    ensures exists k :: OccursAt(find, text, k) && forall j :: 0 <= j < k ==> !OccursAt(find, text, j)
    decreases i
  {
    if exists j :: 0 <= j < i && OccursAt(find, text, j) {
      var j :| 0 <= j < i && OccursAt(find, text, j);
      LeftmostOccurrence(find, text, j);
    }
  }

  /**
   * Ordinal search for the first occurrence of `find`
   * (`String.IndexOf(find, StringComparison.Ordinal)`),
   * defined by what it finds: `None` exactly when there is no occurrence,
   * otherwise the smallest index at which one starts.
   */
  ghost function IndexOf(text: string, find: string): (r: Option<nat>)
    ensures r.None? <==> !Occurs(find, text)
    ensures r.Some? ==> OccursAt(find, text, r.value)
    ensures r.Some? ==> forall j :: 0 <= j < r.value ==> !OccursAt(find, text, j)
  {
    if Occurs(find, text) then
      var i :| 0 <= i <= |text| && OccursAt(find, text, i);
      LeftmostOccurrence(find, text, i);
      var k :| OccursAt(find, text, k) && forall j :: 0 <= j < k ==> !OccursAt(find, text, j);
      Some(k)
    else
      None
  }

  /**
   * The replacement itself, one character at a time: at a match, emit
   * `repl` and resume after the match; otherwise keep the character.
   * Replacing `find` by itself gives the text back.
   */
  function Replace(text: string, find: string, repl: string): (r: string)
    requires find != []
    ensures repl == find ==> r == text
    decreases |text|
  {
    if text == [] then []
    else if find <= text then
      assert text == find + text[|find|..];
      repl + Replace(text[|find|..], find, repl)
    else
      assert text == [text[0]] + text[1..];
      [text[0]] + Replace(text[1..], find, repl)
  }

  /** The pieces of `text` between the leftmost non-overlapping matches (`String.Split`). */
  ghost function Split(text: string, find: string): (parts: seq<string>)
    requires find != []
    ensures |parts| >= 1
    decreases |text|
  {
    match IndexOf(text, find)
    case None => [text]
    case Some(i) => [text[..i]] + Split(text[i + |find|..], find)
  }

  /** The pieces glued back together with `sep` between neighbours (`String.Join`). */
  function Join(parts: seq<string>, sep: string): string
    requires |parts| >= 1
  {
    if |parts| == 1 then parts[0] else parts[0] + sep + Join(parts[1..], sep)
  }

  /** The number of replacements made in `text`. */
  ghost function MatchCount(text: string, find: string): nat
    requires find != []
  {
    |Split(text, find)| - 1
  }

  /** Sum of the lengths of the pieces. */
  function TotalLength(parts: seq<string>): nat {
    if parts == [] then 0 else |parts[0]| + TotalLength(parts[1..])
  }

  /** Characters before the first match are copied unchanged. */
  lemma {:induction false} ReplaceKeepsUnmatchedPrefix(text: string, find: string, repl: string, i: nat)
    requires find != [] && i <= |text|
    requires forall j :: 0 <= j < i ==> !OccursAt(find, text, j)
    ensures Replace(text, find, repl) == text[..i] + Replace(text[i..], find, repl)
  {
    if i > 0 {
      ReplaceKeepsUnmatchedChar(text, find, repl);
      NoMatchAfterShift(find, text, i);
      ReplaceKeepsUnmatchedPrefix(text[1..], find, repl, i - 1);
      HeadAndTail(text, i, Replace(text[i..], find, repl));
    }
  }

  /** Slicing after the first element, and putting that element back. */
  lemma HeadAndTail(s: string, i: nat, t: string)
    requires 0 < i <= |s|
    ensures s[1..][i - 1..] == s[i..]
    ensures [s[0]] + (s[1..][..i - 1] + t) == s[..i] + t
  {
    assert s[..i] == [s[0]] + s[1..][..i - 1];
  }

  /** A character that does not start a match is copied and the scan moves one place on. */
  lemma ReplaceKeepsUnmatchedChar(text: string, find: string, repl: string)
    requires find != [] && text != [] && !OccursAt(find, text, 0)
    ensures Replace(text, find, repl) == [text[0]] + Replace(text[1..], find, repl)
  {
    assert !(find <= text);
  }

  /** Positions free of matches stay free after dropping the first character. */
  lemma NoMatchAfterShift(find: string, text: string, i: nat)
    requires 0 < i <= |text|
    requires forall j :: 0 <= j < i ==> !OccursAt(find, text, j)
    ensures forall j :: 0 <= j < i - 1 ==> !OccursAt(find, text[1..], j)
  {
    OccursShift(find, text);
    forall j | 0 <= j < i - 1 ensures !OccursAt(find, text[1..], j) {
      assert !OccursAt(find, text, j + 1);
    }
  }

  /** Without an occurrence of `find`, the text comes back unchanged. */
  lemma ReplaceWithoutMatch(text: string, find: string, repl: string)
    requires find != [] && !Occurs(find, text)
    ensures Replace(text, find, repl) == text
  {
    ReplaceKeepsUnmatchedPrefix(text, find, repl, |text|);
    assert text[|text|..] == [];
  }

  /** The leftmost match is replaced and the scan resumes right after it. */
  lemma ReplaceAtFirstMatch(text: string, find: string, repl: string)
    requires find != [] && IndexOf(text, find).Some?
    ensures var i := IndexOf(text, find).value;
      Replace(text, find, repl) == text[..i] + repl + Replace(text[i + |find|..], find, repl)
  {
    var i := IndexOf(text, find).value;
    ReplaceKeepsUnmatchedPrefix(text, find, repl, i);
    var rest := text[i..];
    assert find <= rest;
    assert rest[|find|..] == text[i + |find|..];
  }

  /**
   * The scan-based `Replace` agrees with the search-based reference
   * definition: cut at the leftmost non-overlapping matches and glue the
   * pieces with `repl`.
   */
  lemma {:induction false} ReplaceIsJoinOfSplit(text: string, find: string, repl: string)
    requires find != []
    ensures Replace(text, find, repl) == Join(Split(text, find), repl)
    decreases |text|
  {
    match IndexOf(text, find)
    case None =>
      ReplaceWithoutMatch(text, find, repl);
      assert Split(text, find) == [text];
    case Some(i) =>
      var rest := text[i + |find|..];
      ReplaceIsJoinOfSplit(rest, find, repl);
      ReplaceJoinStep(text, find, repl, i);
  }

  /** The inductive step of `ReplaceIsJoinOfSplit`: agreement on the rest after the first match extends to the whole text. */
  lemma ReplaceJoinStep(text: string, find: string, repl: string, i: nat)
    requires find != [] && IndexOf(text, find) == Some(i)
    requires i + |find| <= |text|
    requires Replace(text[i + |find|..], find, repl) == Join(Split(text[i + |find|..], find), repl)
    ensures Replace(text, find, repl) == Join(Split(text, find), repl)
  {
    var rest := text[i + |find|..];
    ReplaceAtFirstMatch(text, find, repl);
    SplitAtFirstMatch(text, find, i);
    JoinCons(text[..i], Split(rest, find), repl);
  }

  /** Gluing the pieces back with `find` itself restores the text. */
  lemma {:induction false} SplitJoinRoundTrip(text: string, find: string)
    requires find != []
    ensures Join(Split(text, find), find) == text
    decreases |text|
  {
    match IndexOf(text, find)
    case None =>
      assert Split(text, find) == [text];
    case Some(i) =>
      var rest := text[i + |find|..];
      SplitJoinRoundTrip(rest, find);
      SplitAtFirstMatch(text, find, i);
      JoinCons(text[..i], Split(rest, find), find);
      assert OccursAt(find, text, i);
      SliceInThree(text, i, i + |find|);
  }

  /** Unfolding of `Split` at the first match. */
  lemma SplitAtFirstMatch(text: string, find: string, i: nat)
    requires find != [] && IndexOf(text, find) == Some(i)
    ensures i + |find| <= |text|
    ensures Split(text, find) == [text[..i]] + Split(text[i + |find|..], find)
  {
    SplitOnce(text, find);
  }

  /** One step of `Split`, whatever the search returns. */
  lemma SplitOnce(text: string, find: string)
    requires find != []
    ensures match IndexOf(text, find)
      case None => Split(text, find) == [text]
      case Some(i) => i + |find| <= |text| && Split(text, find) == [text[..i]] + Split(text[i + |find|..], find)
  {
  }

  /** A sequence is the concatenation of its three slices around `i` and `j`. */
  lemma SliceInThree(s: string, i: nat, j: nat)
    requires i <= j <= |s|
    ensures s == s[..i] + s[i..j] + s[j..]
  {
  }

  /** Unfolding of `Join` at its first piece. */
  lemma JoinCons(head: string, tail: seq<string>, sep: string)
    requires |tail| >= 1
    ensures Join([head] + tail, sep) == head + sep + Join(tail, sep)
  {
  }

  /** No piece contains `find`: every match was consumed by the scan. */
  lemma {:induction false} SplitPiecesHaveNoMatch(text: string, find: string)
    requires find != []
    ensures forall k :: 0 <= k < |Split(text, find)| ==> !Occurs(find, Split(text, find)[k])
    decreases |text|
  {
    match IndexOf(text, find)
    case None =>
    case Some(i) =>
      var rest := text[i + |find|..];
      SplitPiecesHaveNoMatch(rest, find);
      forall j | OccursAt(find, text[..i], j) ensures false {
        OccursInPrefix(find, text, i, j);
      }
      var parts := Split(text, find);
      assert parts == [text[..i]] + Split(rest, find);
      forall k | 0 <= k < |parts| ensures !Occurs(find, parts[k]) {
        if k > 0 {
          assert parts[k] == Split(rest, find)[k - 1];
        }
      }
  }

  /** Length of glued pieces: the pieces plus one separator between each neighbour. */
  lemma {:induction false} JoinLength(parts: seq<string>, sep: string)
    requires |parts| >= 1
    ensures |Join(parts, sep)| == TotalLength(parts) + (|parts| - 1) * |sep|
  {
    if |parts| > 1 {
      JoinLength(parts[1..], sep);
      assert TotalLength(parts[1..][1..]) + (|parts| - 1) * |sep| == TotalLength(parts[1..][1..]) + (|parts| - 2) * |sep| + |sep|;
    } else {
      assert parts[1..] == [];
    }
  }

  /** Each of the `MatchCount` replacements changes the length by `|repl| - |find|`. */
  lemma ReplaceLength(text: string, find: string, repl: string)
    requires find != []
    ensures |Replace(text, find, repl)| == |text| + MatchCount(text, find) * (|repl| - |find|)
  {
    var parts := Split(text, find);
    var n := |parts| - 1;
    ReplaceIsJoinOfSplit(text, find, repl);
    SplitJoinRoundTrip(text, find);
    JoinLength(parts, repl);
    JoinLength(parts, find);
    assert |Replace(text, find, repl)| == TotalLength(parts) + n * |repl|;
    assert |text| == TotalLength(parts) + n * |find|;
    assert MatchCount(text, find) == n;
    Distribute(n, |repl|, |find|);
  }

  /** Arithmetic step for `ReplaceUnchangedIff`. */
  lemma ProductNonZero(n: int, d: int)
    requires n >= 1 && d != 0
    ensures n * d != 0
  {
  }

  /** Arithmetic step for `ReplaceLength`. */
  lemma Distribute(n: int, a: int, b: int)
    ensures n * a - n * b == n * (a - b)
  {
  }

  /** A text with an occurrence of `find` is split into at least two pieces. */
  lemma MatchCountPositive(text: string, find: string)
    requires find != [] && Occurs(find, text)
    ensures MatchCount(text, find) >= 1
  {
  }

  /**
   * The text comes back unchanged exactly when `find` does not occur in it
   * or is replaced by itself.
   */
  lemma ReplaceUnchangedIff(text: string, find: string, repl: string)
    requires find != []
    ensures Replace(text, find, repl) == text <==> !Occurs(find, text) || repl == find
  {
    if Occurs(find, text) && repl != find {
      var r := Replace(text, find, repl);
      if |repl| != |find| {
        ReplaceLength(text, find, repl);
        MatchCountPositive(text, find);
        var n := MatchCount(text, find);
        ProductNonZero(n, |repl| - |find|);
        assert |r| != |text|;
      } else {
        var i := IndexOf(text, find).value;
        ReplaceAtFirstMatch(text, find, repl);
        assert r[i..i + |repl|] == repl;
        assert text[i..i + |find|] == find;
      }
    } else if !Occurs(find, text) {
      ReplaceWithoutMatch(text, find, repl);
    }
  }

  /**
   * A replacement can create a new occurrence of `find` out of the text
   * around a match, so the result is not free of `find` in general.
   */
  lemma ReplaceMayLeaveMatches()
    ensures Replace("abb", "ab", "a") == "ab"
  {
  }
}
