/** square_text: the explanation of a command boxed for the terminal. Every line of the text is
    cut into chunks of `columns - 4` characters, each chunk becomes a row "| chunk |" padded to
    the full width, and the rows sit between two rules of dashes. The width is a parameter
    here; the source reads it from the terminal. */
module Layout {
  import opened Text

  /** A line of `columns` dashes. */
  function Rule(columns: nat): (r: string)
    ensures |r| == columns
    ensures forall i :: 0 <= i < |r| ==> r[i] == '-'
  {
    seq(columns, _ => '-')
  }

  /** Python's s.ljust(width): `s` followed by enough spaces to reach `width`. */
  function PadRight(s: string, width: nat): (r: string)
    ensures |r| == if |s| >= width then |s| else width
    ensures r[..|s|] == s
    ensures forall i :: |s| <= i < |r| ==> r[i] == ' '
  {
    if |s| >= width then s else s + seq(width - |s|, _ => ' ')
  }

  /** The chunks line[i:i+width] for i in range(start, len(line), width). */
  function ChunksFrom(line: string, start: nat, width: nat): (chunks: seq<string>)
    requires width > 0
    ensures forall k :: 0 <= k < |chunks| ==> 0 < |chunks[k]| <= width
    decreases |line| - start
  {
    if start >= |line| then []
    else
      var stop := if start + width <= |line| then start + width else |line|;
      [line[start..stop]] + ChunksFrom(line, start + width, width)
  }

  /** Put back together, the chunks are the line: nothing is lost, repeated or reordered. */
  lemma {:induction false} ChunksReassemble(line: string, start: nat, width: nat)
    requires width > 0 && start <= |line|
    ensures Concat(ChunksFrom(line, start, width)) == line[start..]
    decreases |line| - start
  {
    if start < |line| {
      var stop := if start + width <= |line| then start + width else |line|;
      var chunks := ChunksFrom(line, start, width);
      assert chunks[1..] == ChunksFrom(line, stop, width) by {
        if stop == |line| {
          assert ChunksFrom(line, start + width, width) == [];
          assert ChunksFrom(line, stop, width) == [];
        }
      }
      ChunksReassemble(line, stop, width);
      assert line[start..] == line[start..stop] + line[stop..];
    }
  }

  /** Every chunk is a piece of the line it was cut from. */
  lemma {:induction false} ChunksAreSlices(line: string, start: nat, width: nat)
    requires width > 0
    ensures forall k :: 0 <= k < |ChunksFrom(line, start, width)| ==>
              forall c :: c in ChunksFrom(line, start, width)[k] ==> c in line
    decreases |line| - start
  {
    if start < |line| {
      ChunksAreSlices(line, start + width, width);
      var stop := if start + width <= |line| then start + width else |line|;
      forall c | c in line[start..stop] ensures c in line {
        var i :| 0 <= i < stop - start && line[start..stop][i] == c;
        assert line[start + i] == c;
      }
    }
  }

  /** One boxed row: "| " + chunk.ljust(width) + " |". */
  function Row(chunk: string, width: nat): (row: string)
    requires |chunk| <= width
    ensures |row| == width + 4
  {
    "| " + PadRight(chunk, width) + " |"
  }

  /** A row holds its chunk after "| ", then only spaces up to the closing " |": removing the
      frame and the padding gives the chunk back. */
  lemma RowShape(chunk: string, width: nat)
    requires |chunk| <= width
    ensures var row := Row(chunk, width);
      && row[..2] == "| " && row[width + 2..] == " |"
      && row[2..2 + |chunk|] == chunk
      && forall i :: 2 + |chunk| <= i < width + 2 ==> row[i] == ' '
  {
    var padded := PadRight(chunk, width);
    var row := Row(chunk, width);
    assert row[2..2 + width] == padded;
    assert row[2..2 + |chunk|] == padded[..|chunk|];
  }

  function RowsOf(chunks: seq<string>, width: nat): (rows: seq<string>)
    requires forall k :: 0 <= k < |chunks| ==> |chunks[k]| <= width
    ensures |rows| == |chunks|
  {
    if chunks == [] then [] else [Row(chunks[0], width)] + RowsOf(chunks[1..], width)
  }

  lemma {:induction false} RowsOfIndex(chunks: seq<string>, width: nat)
    requires forall k :: 0 <= k < |chunks| ==> |chunks[k]| <= width
    ensures forall k :: 0 <= k < |chunks| ==> RowsOf(chunks, width)[k] == Row(chunks[k], width)
  {
    if chunks != [] {
      RowsOfIndex(chunks[1..], width);
    }
  }

  /** The rows of every line, in order; a line's rows come from its chunks. */
  function LinesRows(lines: seq<string>, width: nat): seq<string>
    requires width > 0
  {
    if lines == [] then []
    else
      var last := lines[|lines| - 1];
      LinesRows(lines[..|lines| - 1], width) + RowsOf(ChunksFrom(last, 0, width), width)
  }

  /** Every row is as wide as the box. */
  lemma {:induction false} LinesRowsWidth(lines: seq<string>, width: nat)
    requires width > 0
    ensures forall k :: 0 <= k < |LinesRows(lines, width)| ==> |LinesRows(lines, width)[k]| == width + 4
  {
    if lines != [] {
      LinesRowsWidth(lines[..|lines| - 1], width);
      RowsOfIndex(ChunksFrom(lines[|lines| - 1], 0, width), width);
    }
  }

  /** Python's sep.join on the list [Rule] + rows + [Rule], as the loops of square_text build it. */
  function BoxedText(text: string, columns: nat): string
    requires columns > 4
  {
    Join([Rule(columns)] + LinesRows(Split(text, '\n'), columns - 4) + [Rule(columns)], '\n')
  }

  lemma {:induction false} JoinSnoc(parts: seq<string>, last: string, sep: char)
    requires |parts| >= 1
    ensures Join(parts + [last], sep) == Join(parts, sep) + [sep] + last
  {
    if |parts| > 1 {
      JoinSnoc(parts[1..], last, sep);
      assert (parts + [last])[1..] == parts[1..] + [last];
    }
  }

  /** The rows of a line from `start` on: the row of the chunk at `start`, then the rest. */
  lemma RowStep(line: string, start: nat, width: nat)
    requires width > 0 && start < |line|
    ensures var stop := if start + width <= |line| then start + width else |line|;
      RowsOf(ChunksFrom(line, start, width), width)
        == [Row(line[start..stop], width)] + RowsOf(ChunksFrom(line, start + width, width), width)
  {
    var stop := if start + width <= |line| then start + width else |line|;
    var rest := ChunksFrom(line, start + width, width);
    assert ChunksFrom(line, start, width) == [line[start..stop]] + rest;
    assert ([line[start..stop]] + rest)[1..] == rest;
  }

  /** `done` holds the rows of the first `n` lines. */
  ghost predicate RowsSoFar(lines: seq<string>, n: nat, width: nat, done: seq<string>)
    requires width > 0 && n <= |lines|
  {
    done == LinesRows(lines[..n], width)
  }

  lemma LinesRowsStep(lines: seq<string>, n: nat, width: nat, done: seq<string>)
    requires width > 0 && n < |lines|
    requires RowsSoFar(lines, n, width, done)
    ensures RowsPending(done, lines[n], 0, width, LinesRows(lines[..n + 1], width))
  {
    assert lines[..n + 1][..n] == lines[..n];
  }

  lemma AllLinesDone(lines: seq<string>, width: nat, done: seq<string>)
    requires width > 0
    requires RowsSoFar(lines, |lines|, width, done)
    ensures done == LinesRows(lines, width)
  {
    assert lines[..|lines|] == lines;
  }

  lemma RowsFinished(done: seq<string>, line: string, start: nat, width: nat, target: seq<string>)
    requires width > 0 && start >= |line|
    requires RowsPending(done, line, start, width, target)
    ensures done == target
  {
    assert done + [] == done;
  }

  /** The rows built so far, followed by the rows of the chunks of `line` from `start` on, are
      the rows `target` of all lines up to this one. */
  ghost predicate RowsPending(done: seq<string>, line: string, start: nat, width: nat, target: seq<string>)
    requires width > 0
  {
    done + RowsOf(ChunksFrom(line, start, width), width) == target
  }

  /** One turn of the inner loop of square_text: the row of the chunk at `start` moves from the
      rows still to come to the rows built. */
  lemma RowAppended(done: seq<string>, line: string, start: nat, width: nat, target: seq<string>)
    requires width > 0 && start < |line|
    requires RowsPending(done, line, start, width, target)
    ensures var stop := if start + width <= |line| then start + width else |line|;
      RowsPending(done + [Row(line[start..stop], width)], line, start + width, width, target)
  {
    var stop := if start + width <= |line| then start + width else |line|;
    var row := Row(line[start..stop], width);
    RowStep(line, start, width);
    var rest := RowsOf(ChunksFrom(line, start + width, width), width);
    ConcatAssociative(done, [row], rest);
  }

  /** `out` is the top rule followed by the rows `done`, one per line. */
  ghost predicate Built(out: string, columns: nat, done: seq<string>) {
    out == Join([Rule(columns)] + done, '\n')
  }

  /** Appending a row to the text is appending it to the list the text joins. */
  lemma JoinGrows(out: string, columns: nat, done: seq<string>, row: string)
    requires Built(out, columns, done)
    ensures Built(out + "\n" + row, columns, done + [row])
  {
    JoinSnoc([Rule(columns)] + done, row, '\n');
    assert [Rule(columns)] + done + [row] == [Rule(columns)] + (done + [row]);
  }

  /** The bottom rule closes the box. */
  lemma BoxClosed(out: string, text: string, columns: nat, done: seq<string>)
    requires columns > 4
    requires Built(out, columns, done)
    requires done == LinesRows(Split(text, '\n'), columns - 4)
    ensures out + "\n" + Rule(columns) == BoxedText(text, columns)
  {
    JoinSnoc([Rule(columns)] + done, Rule(columns), '\n');
  }

  /** The inner loop of square_text: one row per chunk of `line`, each on a new line of the
      text. `done` are the rows already in `out`, `target` those rows followed by the rows of
      `line`. */
  method AppendRows(out: string, line: string, columns: nat, ghost done: seq<string>, ghost target: seq<string>)
    returns (res: string)
    requires columns > 4
    requires Built(out, columns, done)
    requires RowsPending(done, line, 0, columns - 4, target)
    ensures Built(res, columns, target)
  {
    var width := columns - 4;
    res := out;
    ghost var rows := done;
    var i: nat := 0;
    while i < |line|
      invariant RowsPending(rows, line, i, width, target)
      invariant Built(res, columns, rows)
      decreases |line| - i
    {
      var stop := if i + width <= |line| then i + width else |line|;
      var row := Row(line[i..stop], width);
      RowAppended(rows, line, i, width, target);
      JoinGrows(res, columns, rows, row);
      res := res + "\n" + row;
      rows := rows + [row];
      i := i + width;
    }
    RowsFinished(rows, line, i, width, target);
  }

  /** square_text with the terminal width given as `columns`. */
  method SquareText(text: string, columns: nat) returns (out: string)
    requires columns > 4
    ensures out == BoxedText(text, columns)
  {
    var width := columns - 4;
    var lines := Split(text, '\n');
    out := Rule(columns);
    ghost var done: seq<string> := [];
    var n := 0;
    while n < |lines|
      invariant 0 <= n <= |lines|
      invariant RowsSoFar(lines, n, width, done)
      invariant Built(out, columns, done)
    {
      ghost var target := LinesRows(lines[..n + 1], width);
      LinesRowsStep(lines, n, width, done);
      out := AppendRows(out, lines[n], columns, done, target);
      done := target;
      n := n + 1;
    }
    AllLinesDone(lines, width, done);
    BoxClosed(out, text, columns, done);
    out := out + "\n" + Rule(columns);
  }

  /** A line with nothing on it contributes no row; not even a blank one. */
  lemma EmptyLineHasNoRows(lines: seq<string>, width: nat)
    requires width > 0
    ensures LinesRows(lines + [[]], width) == LinesRows(lines, width)
  {
    assert (lines + [[]])[..|lines|] == lines;
  }

  // ---------------------------------------------------------------------------------------
  // The boxed text read back line by line
  // ---------------------------------------------------------------------------------------

  lemma {:induction false} LinesRowsHaveNoNewline(lines: seq<string>, width: nat)
    requires width > 0
    requires forall k :: 0 <= k < |lines| ==> '\n' !in lines[k]
    ensures forall k :: 0 <= k < |LinesRows(lines, width)| ==> '\n' !in LinesRows(lines, width)[k]
  {
    if lines != [] {
      var init := lines[..|lines| - 1];
      var last := lines[|lines| - 1];
      LinesRowsHaveNoNewline(init, width);
      ChunksAreSlices(last, 0, width);
      var chunks := ChunksFrom(last, 0, width);
      var rows := RowsOf(chunks, width);
      RowsOfIndex(chunks, width);
      forall k | 0 <= k < |rows| ensures '\n' !in rows[k] {
        var r := rows[k];
        assert r == Row(chunks[k], width);
        RowShape(chunks[k], width);
        forall i | 0 <= i < |r| ensures r[i] != '\n' {
          if i < 2 {
            assert r[i] == r[..2][i];
          } else if i < 2 + |chunks[k]| {
            assert r[i] == r[2..2 + |chunks[k]|][i - 2];
            assert r[i] in chunks[k];
          } else if i >= width + 2 {
            assert r[i] == r[width + 2..][i - width - 2];
          }
        }
      }
    }
  }

  /** Splitting the box at its newlines gives back the top rule, the rows, and the bottom rule;
      every row is exactly `columns` wide, and each holds its chunk after "| ". */
  lemma BoxedTextLines(text: string, columns: nat)
    requires columns > 4
    ensures var rows := LinesRows(Split(text, '\n'), columns - 4);
      && Split(BoxedText(text, columns), '\n') == [Rule(columns)] + rows + [Rule(columns)]
      && forall k :: 0 <= k < |rows| ==> |rows[k]| == columns
  {
    var width := columns - 4;
    var lines := Split(text, '\n');
    var rows := LinesRows(lines, width);
    LinesRowsHaveNoNewline(lines, width);
    LinesRowsWidth(lines, width);
    var parts := [Rule(columns)] + rows + [Rule(columns)];
    forall k | 0 <= k < |parts| ensures '\n' !in parts[k] {
      if k == 0 || k == |parts| - 1 {
        assert parts[k] == Rule(columns);
      } else {
        assert parts[k] == rows[k - 1];
      }
    }
    SplitJoin(parts, '\n');
  }
}
