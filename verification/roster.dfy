/**
 The student list loader (`parse_csv_file`): every line of the list file
 becomes one identifier, trimmed of leading and trailing whitespace, in file
 order. Blank lines are kept, as empty identifiers. Splitting the file into
 lines is left to the caller, which hands over the lines.
 */
module Roster {
  import opened Unicode
  import opened Seqs

  /** `s` neither starts nor ends with whitespace. */
  predicate IsTrimmed(s: string) {
    |s| == 0 || (!IsWhitespace(s[0]) && !IsWhitespace(s[|s| - 1]))
  }

  /**
   `s[i..j]` is what remains of `s` once the whitespace-only prefix `s[..i]`
   and the whitespace-only suffix `s[j..]` are cut away.
   */
  predicate CutsWhitespace(s: string, i: int, j: int) {
    && 0 <= i <= j <= |s|
    && (forall k :: 0 <= k < i ==> IsWhitespace(s[k]))
    && (forall k :: j <= k < |s| ==> IsWhitespace(s[k]))
  }

  /** `s` without its leading whitespace. */
  function TrimStart(s: string): (r: string)
    ensures |r| <= |s|
    ensures |r| == 0 || !IsWhitespace(r[0])
    decreases |s|
  {
    if |s| > 0 && IsWhitespace(s[0]) then TrimStart(s[1..]) else s
  }

  /** What `TrimStart` removes is a prefix of whitespace. */
  lemma {:induction false} TrimStartCuts(s: string)
    ensures TrimStart(s) == s[|s| - |TrimStart(s)|..]
    ensures forall k :: 0 <= k < |s| - |TrimStart(s)| ==> IsWhitespace(s[k])
    decreases |s|
  {
    if |s| > 0 && IsWhitespace(s[0]) {
      TrimStartCuts(s[1..]);
      forall k | 1 <= k < |s| - |TrimStart(s)| ensures IsWhitespace(s[k]) {
        assert s[k] == s[1..][k - 1];
      }
    }
  }

  /** `s` without its trailing whitespace. */
  function TrimEnd(s: string): (r: string)
    ensures |r| <= |s|
    ensures |r| == 0 || !IsWhitespace(r[|r| - 1])
    decreases |s|
  {
    if |s| > 0 && IsWhitespace(s[|s| - 1]) then TrimEnd(s[..|s| - 1]) else s
  }

  /** What `TrimEnd` removes is a suffix of whitespace. */
  lemma {:induction false} TrimEndCuts(s: string)
    ensures TrimEnd(s) == s[..|TrimEnd(s)|]
    ensures forall k :: |TrimEnd(s)| <= k < |s| ==> IsWhitespace(s[k])
    decreases |s|
  {
    if |s| > 0 && IsWhitespace(s[|s| - 1]) {
      TrimEndCuts(s[..|s| - 1]);
    }
  }

  /** `s` without its leading and trailing whitespace, as Rust's `str::trim`. */
  function Trim(s: string): (r: string)
    ensures |r| <= |s|
    ensures IsTrimmed(r)
  {
    TrimEndCuts(TrimStart(s));
    TrimEnd(TrimStart(s))
  }

  /**
   The trimmed string is a slice of `s` that is surrounded in `s` by
   whitespace only; with `IsTrimmed`, this pins it down (see `TrimUnique`).
   */
  lemma TrimCuts(s: string) returns (i: int, j: int)
    ensures CutsWhitespace(s, i, j) && Trim(s) == s[i..j]
  {
    var front := TrimStart(s);
    var r := TrimEnd(front);
    TrimStartCuts(s);
    TrimEndCuts(front);
    i, j := |s| - |front|, |s| - |front| + |r|;
    assert r == s[i..j];
    forall k | j <= k < |s| ensures IsWhitespace(s[k]) {
      assert s[k] == front[k - i];
    }
  }

  /**
   Trimming has exactly one possible outcome: any slice of `s` that is
   surrounded by whitespace only and that neither starts nor ends with
   whitespace is `Trim(s)`.
   */
  lemma TrimUnique(s: string, i: int, j: int)
    requires CutsWhitespace(s, i, j) && IsTrimmed(s[i..j])
    ensures s[i..j] == Trim(s)
  {
    var i', j' := TrimCuts(s);
    if i < j {
      // Both s[i] and s[i'] are the first character of s that is not
      // whitespace, and both s[j - 1] and s[j' - 1] the last one.
      assert !IsWhitespace(s[i]) && !IsWhitespace(s[j - 1]);
      assert i == i' && j == j';
    } else {
      assert All(s, IsWhitespace) by {
        forall k | 0 <= k < |s| ensures IsWhitespace(s[k]) {
          assert k < i || j <= k;
        }
      }
    }
  }

  /** A string is left alone by trimming exactly when it is already trimmed. */
  lemma TrimFixedPoint(s: string)
    ensures Trim(s) == s <==> IsTrimmed(s)
  {
    if IsTrimmed(s) {
      assert s[0..|s|] == s;
      TrimUnique(s, 0, |s|);
    }
  }

  /** Trimming a trimmed identifier again changes nothing. */
  lemma TrimIdempotent(s: string)
    ensures Trim(Trim(s)) == Trim(s)
  {
    TrimFixedPoint(Trim(s));
  }

  /** A line trims to the empty identifier exactly when it is blank. */
  lemma TrimBlank(s: string)
    ensures Trim(s) == "" <==> All(s, IsWhitespace)
  {
    if All(s, IsWhitespace) {
      TrimUnique(s, 0, 0);
    } else {
      var k :| 0 <= k < |s| && !IsWhitespace(s[k]);
      var i, j := TrimCuts(s);
      assert i <= k < j;
    }
  }

  /** Each line of the student list file, trimmed: the identifiers it holds. */
  function TrimLines(lines: seq<string>): (students: seq<string>)
    ensures |students| == |lines|
  {
    seq(|lines|, n requires 0 <= n < |lines| => Trim(lines[n]))
  }

  /**
   The identifiers read from the lines of a student list file: one per line,
   in file order, each the trimmed line; a blank line gives the empty
   identifier rather than being skipped.
   */
  method ParseStudentLines(lines: seq<string>) returns (students: seq<string>)
    ensures students == TrimLines(lines)
    ensures |students| == |lines|
    ensures forall n :: 0 <= n < |lines| ==> IsTrimmed(students[n])
    ensures forall n :: 0 <= n < |lines| ==> (students[n] == "" <==> All(lines[n], IsWhitespace))
  {
    students := [];
    for n := 0 to |lines|
      invariant |students| == n
      invariant forall m :: 0 <= m < n ==> students[m] == Trim(lines[m])
    {
      students := students + [Trim(lines[n])];
    }
    forall n | 0 <= n < |lines| ensures students[n] == "" <==> All(lines[n], IsWhitespace) {
      TrimBlank(lines[n]);
    }
  }
}
