/**
 The result writer: each output file (`found.txt`, `not_found.txt`) holds its
 list of identifiers, each followed by a line feed, in list order. Creating
 and writing the file is left out; the model produces the file's contents.
 */
module Report {

  /** The file contents for `names`: one line per name, each ending in "\n". */
  function RenderLines(names: seq<string>): (text: string)
    ensures text == "" <==> |names| == 0
    ensures |names| > 0 ==> text[|text| - 1] == '\n'
    decreases |names|
  {
    if |names| == 0 then "" else names[0] + "\n" + RenderLines(names[1..])
  }

  /** Writing two lists one after the other gives the two files' contents concatenated. */
  lemma {:induction false} RenderLinesAppend(a: seq<string>, b: seq<string>)
    ensures RenderLines(a + b) == RenderLines(a) + RenderLines(b)
    decreases |a|
  {
    if |a| == 0 {
      assert a + b == b;
    } else {
      assert (a + b)[1..] == a[1..] + b;
      RenderLinesAppend(a[1..], b);
    }
  }

  /**
   The contents of a file written as the source writes it: an empty file,
   then one `name + "\n"` appended per name, in list order.
   */
  method WriteLines(names: seq<string>) returns (file: string)
    ensures file == RenderLines(names)
    ensures NoLineBreaks(names) ==> SplitLines(file) == names
  {
    file := "";
    for n := 0 to |names|
      invariant file == RenderLines(names[..n])
    {
      RenderLinesAppend(names[..n], [names[n]]);
      assert names[..n + 1] == names[..n] + [names[n]];
      file := file + (names[n] + "\n");
    }
    assert names[..|names|] == names;
    if NoLineBreaks(names) {
      SplitRenderLines(names);
    }
  }

  /** No name contains a line feed (true of every line a line reader yields). */
  predicate NoLineBreaks(names: seq<string>) {
    forall n :: 0 <= n < |names| ==> '\n' !in names[n]
  }

  /** The position of the first line feed of `text`, or `|text|` when there is none. */
  function LineEnd(text: string): (k: nat)
    ensures k <= |text|
    ensures forall m :: 0 <= m < k ==> text[m] != '\n'
    ensures k < |text| ==> text[k] == '\n'
    decreases |text|
  {
    if |text| == 0 || text[0] == '\n' then 0 else 1 + LineEnd(text[1..])
  }

  /**
   Reading a file back line by line: the text between line feeds, the final
   line feed ending the last line rather than starting an empty one.
   */
  function SplitLines(text: string): (lines: seq<string>)
    ensures forall n :: 0 <= n < |lines| ==> '\n' !in lines[n]
    decreases |text|
  {
    if |text| == 0 then []
    else
      var k := LineEnd(text);
      if k == |text| then [text] else [text[..k]] + SplitLines(text[k + 1..])
  }

  /**
   Round trip: reading a written file back line by line gives the list that
   was written, one line per entry, in order.
   */
  lemma {:induction false} SplitRenderLines(names: seq<string>)
    requires NoLineBreaks(names)
    ensures SplitLines(RenderLines(names)) == names
    decreases |names|
  {
    if |names| > 0 {
      var rest := names[1..];
      assert NoLineBreaks(rest) by {
        forall n | 0 <= n < |rest| ensures '\n' !in rest[n] {
          assert rest[n] == names[n + 1];
        }
      }
      calc {
        SplitLines(RenderLines(names));
        SplitLines(names[0] + "\n" + RenderLines(rest));
        { FirstLine(names[0], RenderLines(rest)); }
        [names[0]] + SplitLines(RenderLines(rest));
        { SplitRenderLines(rest); }
        [names[0]] + rest;
        names;
      }
    }
  }

  /** The first line of `line + "\n" + rest` is `line`, and what follows it is `rest`. */
  lemma FirstLine(line: string, rest: string)
    requires '\n' !in line
    ensures SplitLines(line + "\n" + rest) == [line] + SplitLines(rest)
  {
    var text := line + "\n" + rest;
    var k := |line|;
    assert text[k] == '\n';
    assert forall m :: 0 <= m < k ==> text[m] == line[m];
    assert LineEnd(text) == k;
    assert text[..k] == line;
    assert text[k + 1..] == rest;
  }
}
