// The string operations of Go's `strings` package that ipic relies on:
// `strings.Join` (the search term) and `strings.Replace` with n < 0 (the big
// artwork URL). `Split` is not called by ipic; it is the reference definition
// that `ReplaceAll` and `Join` are checked against: for a non-empty `old`,
// Replace(s, old, new, -1) == Join(Split(s, old), new), as both definitions
// show (it fails for an empty `old`, where Replace also inserts at both ends).
//
// Strings are sequences of characters (Unicode scalar values). Go strings are
// sequences of bytes, usually UTF-8; the model does not count bytes and has no
// invalid UTF-8.
module Strings {

  /** Sum of the lengths of the strings in `parts`. */
  function TotalLength(parts: seq<string>): nat
  {
    if |parts| == 0 then 0 else |parts[0]| + TotalLength(parts[1..])
  }

  /** Go's strings.Join: the elements of `parts` with `sep` between each
      adjacent pair; the empty sequence gives the empty string. */
  function Join(parts: seq<string>, sep: string): (r: string)
    ensures |parts| == 0 ==> r == ""
    ensures |parts| > 0 ==> |r| == TotalLength(parts) + (|parts| - 1) * |sep|
  {
    if |parts| == 0 then ""
    else if |parts| == 1 then parts[0]
    else
      var rest := Join(parts[1..], sep);
      assert (|parts| - 1) * |sep| == |sep| + (|parts| - 2) * |sep|;
      parts[0] + sep + rest
  }

  /** Go's strings.Split for a non-empty separator: the pieces of `s` between
      the non-overlapping occurrences of `sep`, found left to right. There is
      always at least one piece. */
  function Split(s: string, sep: string): (r: seq<string>)
    requires |sep| > 0
    ensures |r| > 0
    decreases |s|
  {
    if |s| < |sep| then [s]
    else if s[..|sep|] == sep then [""] + Split(s[|sep|..], sep)
    else
      var rest := Split(s[1..], sep);
      [[s[0]] + rest[0]] + rest[1..]
  }

  /** True when `pat` occurs in `s` starting at index `i`. */
  predicate OccursAt(s: string, pat: string, i: int)
  {
    0 <= i && i + |pat| <= |s| && s[i..i + |pat|] == pat
  }

  /** True when `pat` occurs somewhere in `s`. */
  ghost predicate Occurs(s: string, pat: string)
  {
    exists i :: OccursAt(s, pat, i)
  }

  /** The number of non-overlapping occurrences of a non-empty `pat` in `s`,
      scanning left to right and resuming after each occurrence. */
  function Count(s: string, pat: string): nat
    requires |pat| > 0
    decreases |s|
  {
    if |s| < |pat| then 0
    else if s[..|pat|] == pat then 1 + Count(s[|pat|..], pat)
    else Count(s[1..], pat)
  }

  /** Go's strings.Replace with an empty `old`: `rep` is inserted before the
      first character, after every character, and once into an empty string. */
  function InsertAtBoundaries(s: string, rep: string): (r: string)
    ensures |r| == |s| + (|s| + 1) * |rep|
  {
    if |s| == 0 then rep
    else
      var rest := InsertAtBoundaries(s[1..], rep);
      assert (|s| + 1) * |rep| == |rep| + |s| * |rep|;
      rep + [s[0]] + rest
  }

  /** Go's strings.Replace(s, pat, rep, -1): every non-overlapping occurrence
      of `pat` in `s`, found left to right, is replaced by `rep`, and text that
      a replacement inserted is never scanned again. A replacement as long as
      the pattern keeps the length. */
  function ReplaceAll(s: string, pat: string, rep: string): (r: string)
    ensures |pat| > 0 && |rep| == |pat| ==> |r| == |s|
    decreases |s|
  {
    if |pat| == 0 then InsertAtBoundaries(s, rep)
    else if |s| < |pat| then s
    else if s[..|pat|] == pat then rep + ReplaceAll(s[|pat|..], pat, rep)
    else [s[0]] + ReplaceAll(s[1..], pat, rep)
  }

  /** Each of the Count(s, pat) replacements changes the length by |rep| - |pat|. */
  lemma {:induction false} ReplaceAllLength(s: string, pat: string, rep: string)
    requires |pat| > 0
    ensures |ReplaceAll(s, pat, rep)| == |s| + Count(s, pat) * (|rep| - |pat|)
    decreases |s|
  {
    if |s| < |pat| {
    } else if s[..|pat|] == pat {
      var rest := s[|pat|..];
      ReplaceAllLength(rest, pat, rep);
      assert |ReplaceAll(s, pat, rep)| == |rep| + |ReplaceAll(rest, pat, rep)|;
      assert Count(s, pat) == 1 + Count(rest, pat);
      OneMore(Count(rest, pat), |rep| - |pat|);
    } else {
      ReplaceAllLength(s[1..], pat, rep);
    }
  }

  /** (c + 1) * d == d + c * d. */
  lemma OneMore(c: nat, d: int)
    ensures (1 + c) * d == d + c * d
  {
  }

  // ---------------------------------------------------------------------
  // Join and Split

  /** Prepending a character to the first piece prepends it to the join. */
  lemma JoinConsFirst(c: char, parts: seq<string>, sep: string)
    requires |parts| > 0
    ensures Join([[c] + parts[0]] + parts[1..], sep) == [c] + Join(parts, sep)
  {
    var ps := [[c] + parts[0]] + parts[1..];
    assert ps[1..] == parts[1..];
    if |parts| > 1 {
      assert ps[0] + sep + Join(ps[1..], sep) == [c] + (parts[0] + sep + Join(parts[1..], sep));
    }
  }

  /** A string without the separator character is a single piece. */
  lemma {:induction false} SplitWithoutSeparator(x: string, c: char)
    requires c !in x
    ensures Split(x, [c]) == [x]
    decreases |x|
  {
    if |x| > 0 {
      assert x[..1] == [x[0]];
      SplitWithoutSeparator(x[1..], c);
      assert [x[0]] + x[1..] == x;
    }
  }

  /** Splitting at the first separator character of `x + [c] + y`. */
  lemma {:induction false} SplitAtFirst(x: string, c: char, y: string)
    requires c !in x
    ensures Split(x + [c] + y, [c]) == [x] + Split(y, [c])
    decreases |x|
  {
    var s := x + [c] + y;
    if |x| == 0 {
      assert s[..1] == [c];
      assert s[1..] == y;
    } else {
      assert s[..1] == [x[0]];
      assert s[1..] == x[1..] + [c] + y;
      SplitAtFirst(x[1..], c, y);
      assert [x[0]] + x[1..] == x;
    }
  }

  /** Joining with a one-character separator and splitting at it again gives
      back the pieces, provided none of them holds that character. So the
      search term determines the positional arguments when none of them
      contains a space. */
  lemma {:induction false} SplitJoinRoundTrip(parts: seq<string>, c: char)
    requires |parts| > 0
    requires forall k :: 0 <= k < |parts| ==> c !in parts[k]
    ensures Split(Join(parts, [c]), [c]) == parts
    decreases |parts|
  {
    if |parts| == 1 {
      SplitWithoutSeparator(parts[0], c);
    } else {
      SplitAtFirst(parts[0], c, Join(parts[1..], [c]));
      SplitJoinRoundTrip(parts[1..], c);
      assert [parts[0]] + parts[1..] == parts;
    }
  }

  // ---------------------------------------------------------------------
  // ReplaceAll against Split and Join

  /** For a non-empty pattern, replacing every occurrence is splitting at
      them and joining the pieces with the replacement. */
  lemma {:induction false} ReplaceAllIsJoinOfSplit(s: string, pat: string, rep: string)
    requires |pat| > 0
    ensures ReplaceAll(s, pat, rep) == Join(Split(s, pat), rep)
    decreases |s|
  {
    if |s| < |pat| {
    } else if s[..|pat|] == pat {
      var rest := Split(s[|pat|..], pat);
      ReplaceAllIsJoinOfSplit(s[|pat|..], pat, rep);
      assert ([""] + rest)[1..] == rest;
      assert Join([""] + rest, rep) == "" + rep + Join(rest, rep);
    } else {
      ReplaceAllIsJoinOfSplit(s[1..], pat, rep);
      JoinConsFirst(s[0], Split(s[1..], pat), rep);
    }
  }

  /** The first piece of a split is a prefix of the string. */
  lemma {:induction false} SplitFirstIsPrefix(s: string, sep: string)
    requires |sep| > 0
    ensures Split(s, sep)[0] <= s
    decreases |s|
  {
    if |s| < |sep| {
    } else if s[..|sep|] == sep {
    } else {
      SplitFirstIsPrefix(s[1..], sep);
      var first := Split(s[1..], sep)[0];
      assert [s[0]] + first == s[..|first| + 1];
    }
  }

  /** No piece of a split contains the separator. (Occurrences that overlap
      a cut are not cut again; see `OverlappingOccurrences`.) */
  lemma {:induction false} SplitPiecesFree(s: string, sep: string)
    requires |sep| > 0
    ensures forall k :: 0 <= k < |Split(s, sep)| ==> !Occurs(Split(s, sep)[k], sep)
    decreases |s|
  {
    var r := Split(s, sep);
    if |s| < |sep| {
      assert r == [s];
      assert forall i :: !OccursAt(s, sep, i);
    } else if s[..|sep|] == sep {
      var rest := Split(s[|sep|..], sep);
      SplitPiecesFree(s[|sep|..], sep);
      assert r == [""] + rest;
      assert forall i :: !OccursAt("", sep, i);
      forall k | 0 < k < |r| ensures !Occurs(r[k], sep) {
        assert r[k] == rest[k - 1];
      }
    } else {
      var rest := Split(s[1..], sep);
      SplitPiecesFree(s[1..], sep);
      SplitFirstIsPrefix(s[1..], sep);
      var first := [s[0]] + rest[0];
      assert r == [first] + rest[1..];
      assert first[1..] == rest[0];
      assert first == s[..|first|];
      assert |sep| <= |first| ==> first[..|sep|] != sep by {
        if |sep| <= |first| { assert first[..|sep|] == s[..|sep|]; }
      }
      OccursNotAtStart(first, sep);
      forall k | 0 < k < |r| ensures !Occurs(r[k], sep) {
        assert r[k] == rest[k];
      }
    }
  }

  /** The split cuts at the leftmost occurrence: no occurrence starts inside
      the first piece; a single piece is the whole string, which then has no
      occurrence; otherwise an occurrence starts right after the first piece
      and the remaining pieces are the split of what follows it. */
  lemma {:induction false} SplitCutsAtFirst(s: string, sep: string)
    requires |sep| > 0
    ensures var r := Split(s, sep);
      && (forall i :: 0 <= i < |r[0]| ==> !OccursAt(s, sep, i))
      && (|r| == 1 ==> r[0] == s && !Occurs(s, sep))
      && (|r| > 1 ==> OccursAt(s, sep, |r[0]|) && r[1..] == Split(s[|r[0]| + |sep|..], sep))
    decreases |s|
  {
    var r := Split(s, sep);
    if |s| < |sep| {
      assert forall i :: !OccursAt(s, sep, i);
    } else if s[..|sep|] == sep {
      assert s[0..|sep|] == s[..|sep|];
    } else {
      SplitCutsAtFirst(s[1..], sep);
      var rest := Split(s[1..], sep);
      assert r == [[s[0]] + rest[0]] + rest[1..];
      assert !OccursAt(s, sep, 0) by { assert s[0..|sep|] == s[..|sep|]; }
      forall i | 1 <= i < |r[0]| ensures !OccursAt(s, sep, i) {
        if OccursAt(s, sep, i) {
          assert s[1..][i - 1..i - 1 + |sep|] == s[i..i + |sep|];
          assert OccursAt(s[1..], sep, i - 1);
        }
      }
      if |rest| == 1 {
        assert [s[0]] + s[1..] == s;
        OccursNotAtStart(s, sep);
      } else {
        var n := |rest[0]|;
        assert s[1..][n..n + |sep|] == s[n + 1..n + 1 + |sep|];
        assert s[1..][n + |sep|..] == s[n + 1 + |sep|..];
      }
    }
  }

  /** Occurrences that overlap are not all cut: "100x100" occurs at 1 and at
      5 in "1100x100x100", but the scan resumes after the first and leaves the
      second, so the split has two pieces and one replacement is made. */
  lemma OverlappingOccurrences()
    ensures OccursAt("1100x100x100", "100x100", 1)
    ensures OccursAt("1100x100x100", "100x100", 5)
    ensures Split("1100x100x100", "100x100") == ["1", "x100"]
    ensures ReplaceAll("1100x100x100", "100x100", "4096x4096") == "14096x4096x100"
  {
    var s, pat, rep := "1100x100x100", "100x100", "4096x4096";
    assert s[..7] != pat by { assert s[1] == '1' && pat[1] == '0'; }
    var tail := s[1..];
    assert tail == "100x100x100";
    assert tail[..7] == pat && tail[7..] == "x100";
    assert Split("x100", pat) == ["x100"];
    assert Split(tail, pat) == [""] + Split("x100", pat);
    var rest := Split(tail, pat);
    assert rest == ["", "x100"];
    assert Split(s, pat) == [[s[0]] + rest[0]] + rest[1..];
    assert [s[0]] + rest[0] == "1" && rest[1..] == ["x100"];
    assert s[1..8] == pat && s[5..12] == pat;
    ReplaceAllShort("x100", pat, rep);
    assert ReplaceAll(tail, pat, rep) == rep + "x100";
    assert ReplaceAll(s, pat, rep) == [s[0]] + ReplaceAll(tail, pat, rep);
    assert [s[0]] + (rep + "x100") == "14096x4096x100";
  }

  /** Replacing a pattern by itself changes nothing. */
  lemma {:induction false} ReplaceAllSelf(s: string, pat: string)
    ensures ReplaceAll(s, pat, pat) == s
    decreases |s|
  {
    if |pat| == 0 {
      InsertNothing(s);
    } else if |s| < |pat| {
    } else if s[..|pat|] == pat {
      ReplaceAllSelf(s[|pat|..], pat);
      assert s[..|pat|] + s[|pat|..] == s;
    } else {
      ReplaceAllSelf(s[1..], pat);
      assert [s[0]] + s[1..] == s;
    }
  }

  /** Inserting the empty string everywhere changes nothing. */
  lemma {:induction false} InsertNothing(s: string)
    ensures InsertAtBoundaries(s, "") == s
    decreases |s|
  {
    if |s| > 0 {
      InsertNothing(s[1..]);
      assert [s[0]] + s[1..] == s;
    }
  }

  /** Splitting at a separator and joining with it gives back the string. */
  lemma JoinSplitRoundTrip(s: string, sep: string)
    requires |sep| > 0
    ensures Join(Split(s, sep), sep) == s
  {
    ReplaceAllIsJoinOfSplit(s, sep, sep);
    ReplaceAllSelf(s, sep);
  }

  // ---------------------------------------------------------------------
  // Occurrences

  /** An occurrence in the tail is an occurrence in the whole string. */
  lemma OccursInTail(s: string, pat: string)
    requires |s| > 0 && Occurs(s[1..], pat)
    ensures Occurs(s, pat)
  {
    var i :| OccursAt(s[1..], pat, i);
    assert s[i + 1..i + 1 + |pat|] == s[1..][i..i + |pat|];
    assert OccursAt(s, pat, i + 1);
  }

  /** An occurrence that does not start at the first character lies in the tail. */
  lemma OccursNotAtStart(s: string, pat: string)
    requires |s| > 0 && (|pat| <= |s| ==> s[..|pat|] != pat)
    ensures Occurs(s, pat) ==> Occurs(s[1..], pat)
  {
    if Occurs(s, pat) {
      var i :| OccursAt(s, pat, i);
      assert i != 0 by { assert s[0..|pat|] == s[..|pat|]; }
      assert s[1..][i - 1..i - 1 + |pat|] == s[i..i + |pat|];
      assert OccursAt(s[1..], pat, i - 1);
    }
  }

  /** The left-to-right scan finds an occurrence exactly when there is one. */
  lemma {:induction false} OccursIffCounted(s: string, pat: string)
    requires |pat| > 0
    ensures Occurs(s, pat) <==> Count(s, pat) > 0
    decreases |s|
  {
    if |s| < |pat| {
    } else if s[..|pat|] == pat {
      assert OccursAt(s, pat, 0);
    } else {
      OccursIffCounted(s[1..], pat);
      OccursNotAtStart(s, pat);
      if Occurs(s[1..], pat) { OccursInTail(s, pat); }
    }
  }

  /** A string without the pattern comes back unchanged, whatever the replacement. */
  lemma {:induction false} ReplaceAllAbsent(s: string, pat: string, rep: string)
    requires |pat| > 0 && !Occurs(s, pat)
    ensures ReplaceAll(s, pat, rep) == s
    decreases |s|
  {
    if |pat| <= |s| {
      assert !OccursAt(s, pat, 0);
      assert s[..|pat|] != pat by { assert s[0..0 + |pat|] == s[..|pat|]; }
      if Occurs(s[1..], pat) { OccursInTail(s, pat); }
      ReplaceAllAbsent(s[1..], pat, rep);
      assert [s[0]] + s[1..] == s;
    }
  }

  /** When the replacement differs in length from the pattern, the string is
      left unchanged exactly when the pattern does not occur in it. */
  lemma UnchangedIffAbsent(s: string, pat: string, rep: string)
    requires |pat| > 0 && |rep| != |pat|
    ensures ReplaceAll(s, pat, rep) == s <==> !Occurs(s, pat)
  {
    OccursIffCounted(s, pat);
    ReplaceAllLength(s, pat, rep);
    if Occurs(s, pat) {
      MultipleOfNonZero(Count(s, pat), |rep| - |pat|);
    } else {
      ReplaceAllAbsent(s, pat, rep);
    }
  }

  /** Text without the first character of the pattern is copied through. */
  lemma {:induction false} ReplaceAllSkips(x: string, y: string, pat: string, rep: string)
    requires |pat| > 0 && pat[0] !in x
    ensures ReplaceAll(x + y, pat, rep) == x + ReplaceAll(y, pat, rep)
    decreases |x|
  {
    if |x| == 0 {
      assert x + y == y;
    } else {
      var s := x + y;
      assert s[0] == x[0] && x[0] in x;
      assert s[1..] == x[1..] + y;
      ReplaceAllSkips(x[1..], y, pat, rep);
      ReplaceAllStep(s, pat, rep);
      calc {
        ReplaceAll(s, pat, rep);
        [x[0]] + ReplaceAll(x[1..] + y, pat, rep);
        [x[0]] + (x[1..] + ReplaceAll(y, pat, rep));
        { assert [x[0]] + x[1..] == x; }
        x + ReplaceAll(y, pat, rep);
      }
    }
  }

  /** A string whose first character does not start the pattern: that
      character is copied and the scan moves on. */
  lemma ReplaceAllStep(s: string, pat: string, rep: string)
    requires 0 < |pat| && 0 < |s| && s[0] != pat[0]
    ensures ReplaceAll(s, pat, rep) == [s[0]] + ReplaceAll(s[1..], pat, rep)
  {
    if |s| < |pat| {
      ReplaceAllShort(s[1..], pat, rep);
      assert [s[0]] + s[1..] == s;
    } else {
      assert s[..|pat|][0] == s[0];
    }
  }

  /** A string that starts with the pattern: the replacement is emitted and
      the scan resumes after the occurrence. */
  lemma ReplaceAllAtMatch(p: string, rest: string, rep: string)
    requires 0 < |p|
    ensures ReplaceAll(p + rest, p, rep) == rep + ReplaceAll(rest, p, rep)
  {
    var s := p + rest;
    assert s[..|p|] == p && s[|p|..] == rest;
  }

  /** A string shorter than a non-empty pattern is left alone. */
  lemma ReplaceAllShort(s: string, pat: string, rep: string)
    requires 0 < |pat| && |s| < |pat|
    ensures ReplaceAll(s, pat, rep) == s
  {
  }

  /** A positive multiple of a non-zero difference is non-zero. */
  lemma {:induction false} MultipleOfNonZero(c: nat, d: int)
    requires c > 0 && d != 0
    ensures c * d != 0
    ensures d > 0 ==> c * d >= d
    ensures d < 0 ==> c * d <= d
  {
    if c > 1 {
      MultipleOfNonZero(c - 1, d);
      assert c * d == (c - 1) * d + d;
    }
  }
}
