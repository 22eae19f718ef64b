/**
 * Python's `str.replace(old, new)` and `str.split(sep)` for a non-empty `old`
 * or `sep`: the string is scanned from the left, each occurrence found is
 * consumed whole, and the scan resumes after it (occurrences never overlap).
 */
module Text {

  predicate OccursAt(s: string, pat: string, i: nat)
  {
    i + |pat| <= |s| && s[i..i + |pat|] == pat
  }

  /** `pat in s` */
  predicate Contains(s: string, pat: string)
  {
    exists i: nat | i + |pat| <= |s| :: OccursAt(s, pat, i)
  }

  /** `t.replace(pat, rep)` */
  function ReplaceAll(t: string, pat: string, rep: string): string
    requires pat != ""
    decreases |t|
  {
    if |t| < |pat| then t
    else if t[..|pat|] == pat then rep + ReplaceAll(t[|pat|..], pat, rep)
    else [t[0]] + ReplaceAll(t[1..], pat, rep)
  }

  /** `t.split(pat)`: the text between the occurrences the scan finds. */
  function Split(t: string, pat: string): (pieces: seq<string>)
    requires pat != ""
    ensures |pieces| >= 1
    ensures |pieces[0]| <= |t| && pieces[0] == t[..|pieces[0]|]
    decreases |t|
  {
    if |t| < |pat| then [t]
    else if t[..|pat|] == pat then [""] + Split(t[|pat|..], pat)
    else
      var rest := Split(t[1..], pat);
      [[t[0]] + rest[0]] + rest[1..]
  }

  /** `sep.join(pieces)` */
  function Join(sep: string, pieces: seq<string>): string
    requires |pieces| >= 1
  {
    if |pieces| == 1 then pieces[0] else pieces[0] + sep + Join(sep, pieces[1..])
  }

  lemma {:induction false} JoinConsFirst(sep: string, c: char, rest: seq<string>)
    requires |rest| >= 1
    ensures Join(sep, [[c] + rest[0]] + rest[1..]) == [c] + Join(sep, rest)
  {
    var pieces := [[c] + rest[0]] + rest[1..];
    if |rest| > 1 {
      assert pieces[1..] == rest[1..];
    }
  }

  /** Replacing is splitting at the occurrences and joining with the replacement. */
  lemma {:induction false} ReplaceAllIsSplitJoin(t: string, pat: string, rep: string)
    requires pat != ""
    ensures ReplaceAll(t, pat, rep) == Join(rep, Split(t, pat))
    decreases |t|
  {
    if |t| < |pat| {
    } else if t[..|pat|] == pat {
      ReplaceAllIsSplitJoin(t[|pat|..], pat, rep);
      var rest := Split(t[|pat|..], pat);
      assert ([""] + rest)[1..] == rest;
    } else {
      ReplaceAllIsSplitJoin(t[1..], pat, rep);
      JoinConsFirst(rep, t[0], Split(t[1..], pat));
    }
  }

  /** Joining the pieces with the separator gives the string back. */
  lemma {:induction false} SplitJoin(t: string, pat: string)
    requires pat != ""
    ensures Join(pat, Split(t, pat)) == t
    decreases |t|
  {
    if |t| < |pat| {
    } else if t[..|pat|] == pat {
      SplitJoin(t[|pat|..], pat);
      var rest := Split(t[|pat|..], pat);
      assert ([""] + rest)[1..] == rest;
      assert t == t[..|pat|] + t[|pat|..];
    } else {
      SplitJoin(t[1..], pat);
      JoinConsFirst(pat, t[0], Split(t[1..], pat));
      assert t == [t[0]] + t[1..];
    }
  }

  /** No piece contains the separator: the scan found every occurrence. */
  lemma {:induction false} SplitPiecesFree(t: string, pat: string)
    requires pat != ""
    ensures forall k :: 0 <= k < |Split(t, pat)| ==> !Contains(Split(t, pat)[k], pat)
    decreases |t|
  {
    var pieces := Split(t, pat);
    if |t| < |pat| {
      forall i: nat | OccursAt(t, pat, i) ensures false { }
    } else if t[..|pat|] == pat {
      SplitPiecesFree(t[|pat|..], pat);
      var rest := Split(t[|pat|..], pat);
      assert pieces == [""] + rest;
      forall k | 0 <= k < |pieces| ensures !Contains(pieces[k], pat) {
        if k == 0 {
          forall i: nat | OccursAt(pieces[0], pat, i) ensures false { }
        } else {
          assert pieces[k] == rest[k - 1];
        }
      }
    } else {
      SplitPiecesFree(t[1..], pat);
      var rest := Split(t[1..], pat);
      var first := [t[0]] + rest[0];
      assert pieces == [first] + rest[1..];
      assert first == t[..|first|];
      forall i: nat | OccursAt(first, pat, i) ensures false {
        if i > 0 {
          assert first[i..i + |pat|] == rest[0][i - 1..i - 1 + |pat|];
          assert OccursAt(rest[0], pat, i - 1);
        }
      }
      forall k | 0 <= k < |pieces| ensures !Contains(pieces[k], pat) {
        if k > 0 {
          assert pieces[k] == rest[k];
        }
      }
    }
  }

  /** An occurrence after the first character is one in the rest of the string. */
  lemma OccursAtShift(t: string, pat: string, i: nat)
    requires 0 < |t|
    ensures OccursAt(t, pat, i + 1) <==> OccursAt(t[1..], pat, i)
  {
    if i + 1 + |pat| <= |t| {
      assert t[1..][i..i + |pat|] == t[i + 1..i + 1 + |pat|];
    }
  }

  /** No occurrence starts inside the first piece of a split. */
  lemma {:induction false} SplitFirstPieceBeforeOccurrences(t: string, pat: string)
    requires pat != ""
    ensures forall i: nat | i < |Split(t, pat)[0]| :: !OccursAt(t, pat, i)
    decreases |t|
  {
    if |t| >= |pat| && t[..|pat|] != pat {
      SplitFirstPieceBeforeOccurrences(t[1..], pat);
      var rest := Split(t[1..], pat);
      assert Split(t, pat)[0] == [t[0]] + rest[0];
      forall i: nat | i < |rest[0]| + 1 ensures !OccursAt(t, pat, i) {
        if i > 0 {
          OccursAtShift(t, pat, i - 1);
        }
      }
    }
  }

  /** A split into one piece leaves the string whole. */
  lemma {:induction false} SplitOnePiece(t: string, pat: string)
    requires pat != ""
    ensures |Split(t, pat)| == 1 ==> Split(t, pat)[0] == t
    decreases |t|
  {
    if |t| >= |pat| && t[..|pat|] != pat {
      SplitOnePiece(t[1..], pat);
      assert [t[0]] + t[1..] == t;
    }
  }

  /** After the first piece comes the pattern, and the other pieces are the split of what follows it. */
  lemma {:induction false} SplitLaterPieces(t: string, pat: string)
    requires pat != ""
    ensures var pieces := Split(t, pat); var n := |pieces[0]|;
      |pieces| > 1 ==> OccursAt(t, pat, n) && pieces[1..] == Split(t[n + |pat|..], pat)
    decreases |t|
  {
    if |t| < |pat| {
    } else if t[..|pat|] == pat {
      var rest := Split(t[|pat|..], pat);
      assert Split(t, pat) == [""] + rest;
      assert Split(t, pat)[1..] == rest;
    } else {
      var rest := Split(t[1..], pat);
      if |rest| > 1 {
        SplitLaterPieces(t[1..], pat);
        var m := |rest[0]|;
        var pieces := Split(t, pat);
        assert pieces == [[t[0]] + rest[0]] + rest[1..];
        OccursAtShift(t, pat, m);
        assert t[1..][m + |pat|..] == t[m + 1 + |pat|..];
        assert pieces[1..] == rest[1..];
      }
    }
  }

  /**
   * The split is made at the leftmost occurrence: the first piece runs up to
   * it with no occurrence starting earlier, and the other pieces are the
   * split of what follows it; without an occurrence the string is one piece.
   */
  lemma SplitAtLeftmost(t: string, pat: string)
    requires pat != ""
    ensures var pieces := Split(t, pat); var n := |pieces[0]|;
      && (forall i: nat | i < n :: !OccursAt(t, pat, i))
      && (|pieces| == 1 ==> pieces[0] == t)
      && (|pieces| > 1 ==> OccursAt(t, pat, n) && pieces[1..] == Split(t[n + |pat|..], pat))
  {
    SplitFirstPieceBeforeOccurrences(t, pat);
    SplitOnePiece(t, pat);
    SplitLaterPieces(t, pat);
  }

  /** A string without the pattern is its own only piece. */
  lemma {:induction false} SplitWithoutOccurrence(t: string, pat: string)
    requires pat != "" && !Contains(t, pat)
    ensures Split(t, pat) == [t]
    decreases |t|
  {
    if |t| >= |pat| {
      assert !OccursAt(t, pat, 0);
      assert !Contains(t[1..], pat) by {
        forall i: nat | OccursAt(t[1..], pat, i) ensures false {
          assert t[1..][i..i + |pat|] == t[i + 1..i + 1 + |pat|];
          assert OccursAt(t, pat, i + 1);
        }
      }
      SplitWithoutOccurrence(t[1..], pat);
      assert [t[0]] + t[1..] == t;
    }
  }

  /** A string without the pattern comes back from `replace` unchanged. */
  lemma ReplaceAllWithoutOccurrence(t: string, pat: string, rep: string)
    requires pat != "" && !Contains(t, pat)
    ensures ReplaceAll(t, pat, rep) == t
  {
    ReplaceAllIsSplitJoin(t, pat, rep);
    SplitWithoutOccurrence(t, pat);
  }
}
