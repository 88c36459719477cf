/**
 The orchestrator (`main`) and the verification pass (`verify_students`):
 every student is looked up once, in input order, and lands in the found
 list or the not-found list; each list is then written to its own file.
 */
module Students {
  import opened Seqs
  import opened Lookup
  import opened Report
  import opened Roster
  import opened Token

  /** The students the directory resolves to a user id when queried with `token`. */
  function Resolves(directory: Directory, token: string): string -> bool {
    student => RetrieveUserId(directory, token, student).Some?
  }

  /** The contents of the two output files. */
  datatype OutputFiles = OutputFiles(found: string, notFound: string)

  /** How a run ends: the usage text, or the two output files written. */
  datatype Outcome = Usage | Completed(files: OutputFiles)

  /** The two lists a verification pass builds. */
  datatype Partition = Partition(found: seq<string>, notFound: seq<string>)

  /**
   The lookup loop: one pass over `students` appending each student to the
   found list when the lookup yields an id and to the not-found list otherwise.
   */
  method PartitionStudents(directory: Directory, token: string, students: seq<string>)
    returns (lists: Partition)
    ensures lists.found == Filter(students, Resolves(directory, token))
    ensures lists.notFound == Filter(students, Not(Resolves(directory, token)))
  {
    var found, notFound := [], [];
    for n := 0 to |students|
      invariant found == Filter(students[..n], Resolves(directory, token))
      invariant notFound == Filter(students[..n], Not(Resolves(directory, token)))
    {
      var student := students[n];
      var id := RetrieveUserId(directory, token, student);
      if id.Some? {
        found := found + [student];
      } else {
        notFound := notFound + [student];
      }
      assert students[..n + 1] == students[..n] + [student];
      FilterSnoc(students[..n], student, Resolves(directory, token));
      FilterSnoc(students[..n], student, Not(Resolves(directory, token)));
    }
    assert students[..|students|] == students;
    lists := Partition(found, notFound);
  }

  /**
   The two lists of a partition are ordered sublists of the students that
   together hold every student exactly as often as the input does, and a
   student is in one list exactly when it is not in the other.
   */
  lemma PartitionIsExact(directory: Directory, token: string, students: seq<string>)
    ensures
      var found := Filter(students, Resolves(directory, token));
      var notFound := Filter(students, Not(Resolves(directory, token)));
      && |found| + |notFound| == |students|
      && multiset(found) + multiset(notFound) == multiset(students)
      && IsSubsequence(found, students) && IsSubsequence(notFound, students)
      && forall s :: s in students ==>
        && (s in found <==> RetrieveUserId(directory, token, s).Some?)
        && (s in notFound <==> RetrieveUserId(directory, token, s).None?)
  {
    var resolves := Resolves(directory, token);
    FilterPartition(students, resolves);
    FilterIsSubsequence(students, resolves);
    FilterIsSubsequence(students, Not(resolves));
    forall s | s in students
      ensures && (s in Filter(students, resolves) <==> RetrieveUserId(directory, token, s).Some?)
              && (s in Filter(students, Not(resolves)) <==> RetrieveUserId(directory, token, s).None?)
    {
      FilterMembership(students, resolves, s);
      FilterMembership(students, Not(resolves), s);
    }
  }

  /**
   `verify_students`: partition the students, then write the found list and
   the not-found list, one identifier per line. When no student contains a
   line feed, each file read back line by line gives its list again.
   */
  method VerifyStudents(directory: Directory, token: string, students: seq<string>)
    returns (files: OutputFiles)
    ensures files.found == RenderLines(Filter(students, Resolves(directory, token)))
    ensures files.notFound == RenderLines(Filter(students, Not(Resolves(directory, token))))
    ensures NoLineBreaks(students) ==>
      && SplitLines(files.found) == Filter(students, Resolves(directory, token))
      && SplitLines(files.notFound) == Filter(students, Not(Resolves(directory, token)))
  {
    var lists := PartitionStudents(directory, token, students);
    if NoLineBreaks(students) {
      FilterKeepsNoLineBreaks(students, Resolves(directory, token));
      FilterKeepsNoLineBreaks(students, Not(Resolves(directory, token)));
    }
    var foundFile := WriteLines(lists.found);
    var notFoundFile := WriteLines(lists.notFound);
    files := OutputFiles(foundFile, notFoundFile);
  }

  /** A filtered list of line-feed-free names is line-feed free. */
  lemma FilterKeepsNoLineBreaks(names: seq<string>, p: string -> bool)
    requires NoLineBreaks(names)
    ensures NoLineBreaks(Filter(names, p))
  {
    var kept := Filter(names, p);
    forall n | 0 <= n < |kept| ensures '\n' !in kept[n] {
      FilterMembership(names, p, kept[n]);
    }
  }

  /**
   `main`: anything but exactly six command-line arguments (the program name
   and five more) prints the usage text and does nothing else; otherwise the
   token is normalised, the student lines are parsed and every student is
   looked up with that token. `tokenText` is the text of the token file
   named by the sixth argument, and `lines` the lines of the student list
   file named by the fifth.
   */
  method Run(args: seq<string>, tokenText: string, lines: seq<string>, directory: Directory)
    returns (outcome: Outcome)
    ensures outcome.Usage? <==> |args| != 6
    ensures outcome.Completed? ==>
      var resolves := Resolves(directory, NormaliseToken(tokenText));
      && outcome.files.found == RenderLines(Filter(TrimLines(lines), resolves))
      && outcome.files.notFound == RenderLines(Filter(TrimLines(lines), Not(resolves)))
  {
    if |args| != 6 {
      return Usage;
    }
    var token := NormaliseToken(tokenText);
    var students := ParseStudentLines(lines);
    var files := VerifyStudents(directory, token, students);
    outcome := Completed(files);
  }

  /**
   Every identifier of the list file ends up on a line of exactly one of the
   two output files: the found file when the lookup yields an id, the
   not-found file otherwise. The two files together hold one line per line
   of the list file.
   */
  lemma EveryStudentReportedOnce(directory: Directory, token: string, lines: seq<string>)
    requires NoLineBreaks(lines)
    ensures
      var students := TrimLines(lines);
      var found := SplitLines(RenderLines(Filter(students, Resolves(directory, token))));
      var notFound := SplitLines(RenderLines(Filter(students, Not(Resolves(directory, token)))));
      && |found| + |notFound| == |lines|
      && forall s :: s in students ==>
        && (s in found <==> RetrieveUserId(directory, token, s).Some?)
        && (s in notFound <==> RetrieveUserId(directory, token, s).None?)
  {
    var students := TrimLines(lines);
    TrimLinesHasNoLineBreaks(lines);
    var resolves := Resolves(directory, token);
    FilterKeepsNoLineBreaks(students, resolves);
    FilterKeepsNoLineBreaks(students, Not(resolves));
    SplitRenderLines(Filter(students, resolves));
    SplitRenderLines(Filter(students, Not(resolves)));
    PartitionIsExact(directory, token, students);
  }

  /** Trimming never introduces a line feed. */
  lemma TrimLinesHasNoLineBreaks(lines: seq<string>)
    requires NoLineBreaks(lines)
    ensures NoLineBreaks(TrimLines(lines))
  {
    var students := TrimLines(lines);
    forall n | 0 <= n < |students| ensures '\n' !in students[n] {
      var i, j := TrimCuts(lines[n]);
      assert students[n] == lines[n][i..j];
    }
  }

  /**
   A run over the list file "alice", "bob", "carol" with a directory that
   knows alice and carol: the found file lists alice then carol, the
   not-found file lists bob.
   */
  lemma ExampleRun()
    ensures
      var directory: Directory := (token, name) => if name == "bob" then [] else [ProjectUser(1)];
      var students := TrimLines(["alice", "bob", "carol"]);
      && RenderLines(Filter(students, Resolves(directory, "token"))) == "alice\ncarol\n"
      && RenderLines(Filter(students, Not(Resolves(directory, "token")))) == "bob\n"
  {
    var directory: Directory := (token, name) => if name == "bob" then [] else [ProjectUser(1)];
    var lines := ["alice", "bob", "carol"];
    TrimFixedPoint("alice");
    TrimFixedPoint("bob");
    TrimFixedPoint("carol");
    var students := TrimLines(lines);
    assert students == lines;
    assert lines[1..] == ["bob", "carol"];
    assert lines[1..][1..] == ["carol"];
    assert "alice" != "bob" && "carol" != "bob";
    assert Filter(students, Resolves(directory, "token")) == ["alice", "carol"];
    assert Filter(students, Not(Resolves(directory, "token"))) == ["bob"];
    assert ["alice", "carol"][1..] == ["carol"];
  }
}
