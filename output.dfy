/**
 * Tabular text output: each column starts as wide as its name, widens to fit its
 * cells while the table stays within the buffer width, and a cell wider than its
 * column wraps onto continuation lines. Cell values arrive already rendered as
 * strings; `isNumber` says whether a string parses as a number.
 */
module Output {

  import opened Wrappers
  import Text
  import Arith

  function Max(a: int, b: int): int
  {
    if a < b then b else a
  }

  // ---------------------------------------------------------------- widths

  /** DetermineColumnWidthFromName: at least 4, 6 for "price" and 8 for "total" in any case, and never narrower than the name. */
  function DetermineColumnWidthFromName(columnName: string): (w: int)
    ensures Text.ToLower(columnName) == "price" ==> w == 6
    ensures Text.ToLower(columnName) == "total" ==> w == 8
    ensures Text.ToLower(columnName) != "price" && Text.ToLower(columnName) != "total" ==> w == Max(4, |columnName|)
    ensures w >= 4 && w >= |columnName|
  {
    var lower := Text.ToLower(columnName);
    var columnWidth := if lower == "price" then 6 else if lower == "total" then 8 else 4;
    Max(columnWidth, |columnName|)
  }

  function InitialWidths(names: seq<string>): (w: seq<int>)
    ensures |w| == |names|
    ensures forall j :: 0 <= j < |names| ==> w[j] == DetermineColumnWidthFromName(names[j])
  {
    seq(|names|, j requires 0 <= j < |names| => DetermineColumnWidthFromName(names[j]))
  }

  function Sum(s: seq<int>): int
    decreases |s|
  {
    if s == [] then 0 else Sum(s[..|s| - 1]) + s[|s| - 1]
  }

  lemma {:induction false} SumUpdate(s: seq<int>, j: int, v: int)
    requires 0 <= j < |s|
    ensures Sum(s[j := v]) == Sum(s) - s[j] + v
    decreases |s|
  {
    var n := |s| - 1;
    if j < n {
      SumUpdate(s[..n], j, v);
      assert s[j := v][..n] == s[..n][j := v];
    } else {
      assert s[j := v][..n] == s[..n];
    }
  }

  /** The width of all columns plus one separator each. */
  function TotalWidth(w: seq<int>): int
  {
    Sum(w) + |w|
  }

  /** One widening step for a cell of length `len` in column j. */
  function WidenStep(w: seq<int>, j: int, len: int, bufferWidth: int): (r: seq<int>)
    requires 0 <= j < |w|
    ensures |r| == |w|
    ensures forall k :: 0 <= k < |w| && k != j ==> r[k] == w[k]
    ensures r[j] >= w[j]
    ensures TotalWidth(w) > bufferWidth ==> r == w
    ensures TotalWidth(w) <= bufferWidth ==> TotalWidth(r) <= bufferWidth
    ensures TotalWidth(w) - w[j] + len <= bufferWidth ==> r[j] >= len
  {
    var totalWidth := TotalWidth(w);
    if totalWidth > bufferWidth then w
    else if w[j] < len then
      if totalWidth - w[j] + len <= bufferWidth then
        SumUpdate(w, j, len);
        w[j := len]
      else
        SumUpdate(w, j, Max(w[j], bufferWidth - totalWidth + w[j]));
        w[j := Max(w[j], bufferWidth - totalWidth + w[j])]
    else w
  }

  /** The widening steps for the cells of one row, in column order. */
  function WidenCells(w: seq<int>, cells: seq<string>, bufferWidth: int): (r: seq<int>)
    requires |cells| <= |w|
    ensures |r| == |w|
    ensures forall k :: 0 <= k < |w| ==> r[k] >= w[k]
    ensures TotalWidth(w) > bufferWidth ==> r == w
    ensures TotalWidth(w) <= bufferWidth ==> TotalWidth(r) <= bufferWidth
    decreases |cells|
  {
    if cells == [] then w
    else WidenStep(WidenCells(w, cells[..|cells| - 1], bufferWidth), |cells| - 1, |cells[|cells| - 1]|, bufferWidth)
  }

  predicate RowsFit(rows: seq<seq<string>>, columns: int)
  {
    forall i :: 0 <= i < |rows| ==> |rows[i]| == columns
  }

  /** The widening steps for all rows in order: widths never shrink, and a table within the buffer stays within it. */
  function WidenRows(w: seq<int>, rows: seq<seq<string>>, bufferWidth: int): (r: seq<int>)
    requires RowsFit(rows, |w|)
    ensures |r| == |w|
    ensures forall k :: 0 <= k < |w| ==> r[k] >= w[k]
    ensures TotalWidth(w) > bufferWidth ==> r == w
    ensures TotalWidth(w) <= bufferWidth ==> TotalWidth(r) <= bufferWidth
    decreases |rows|
  {
    if rows == [] then w
    else WidenCells(WidenRows(w, rows[..|rows| - 1], bufferWidth), rows[|rows| - 1], bufferWidth)
  }

  /** The final column widths of a table. */
  function ColumnWidths(names: seq<string>, rows: seq<seq<string>>, bufferWidth: int): (w: seq<int>)
    requires RowsFit(rows, |names|)
    ensures |w| == |names|
    ensures forall j :: 0 <= j < |names| ==> w[j] >= 4 && w[j] >= |names[j]|
  {
    WidenRows(InitialWidths(names), rows, bufferWidth)
  }

  /** When the names alone already exceed the buffer, no column widens. */
  lemma OverBudgetKeepsNameWidths(names: seq<string>, rows: seq<seq<string>>, bufferWidth: int)
    requires RowsFit(rows, |names|) && TotalWidth(InitialWidths(names)) > bufferWidth
    ensures ColumnWidths(names, rows, bufferWidth) == InitialWidths(names)
  {
  }

  /** One widening step on the column-width array. */
  method WidenColumn(columnWidths: array<int>, j: int, len: int, bufferWidth: int)
    requires 0 <= j < columnWidths.Length
    modifies columnWidths
    ensures columnWidths[..] == WidenStep(old(columnWidths[..]), j, len, bufferWidth)
  {
    var totalWidth := Sum(columnWidths[..]) + columnWidths.Length;
    if totalWidth > bufferWidth {
    } else if columnWidths[j] < len {
      if totalWidth - columnWidths[j] + len <= bufferWidth {
        columnWidths[j] := len;
      } else {
        columnWidths[j] := Max(columnWidths[j], bufferWidth - totalWidth + columnWidths[j]);
      }
    }
  }

  /** The widening steps for one row's cells, in column order. */
  method WidenRow(columnWidths: array<int>, cells: seq<string>, bufferWidth: int)
    requires |cells| == columnWidths.Length
    modifies columnWidths
    ensures columnWidths[..] == WidenCells(old(columnWidths[..]), cells, bufferWidth)
  {
    var j := 0;
    while j < |cells|
      invariant 0 <= j <= |cells|
      invariant columnWidths[..] == WidenCells(old(columnWidths[..]), cells[..j], bufferWidth)
    {
      assert cells[..j + 1][..j] == cells[..j];
      WidenColumn(columnWidths, j, |cells[j]|, bufferWidth);
      j := j + 1;
    }
    assert cells[..j] == cells;
  }

  /** The width loop of WriteTable, on the column-width array. */
  method ComputeColumnWidths(bufferWidth: int, propertyNames: seq<string>, outputData: seq<seq<string>>) returns (columnWidths: array<int>)
    requires RowsFit(outputData, |propertyNames|)
    ensures fresh(columnWidths)
    ensures columnWidths[..] == ColumnWidths(propertyNames, outputData, bufferWidth)
  {
    columnWidths := new int[|propertyNames|](j requires 0 <= j < |propertyNames| => DetermineColumnWidthFromName(propertyNames[j]));
    ghost var initial := InitialWidths(propertyNames);
    assert columnWidths[..] == initial;
    var i := 0;
    while i < |outputData|
      invariant 0 <= i <= |outputData|
      invariant columnWidths[..] == WidenRows(initial, outputData[..i], bufferWidth)
    {
      assert outputData[..i + 1][..i] == outputData[..i];
      WidenRow(columnWidths, outputData[i], bufferWidth);
      i := i + 1;
    }
    assert outputData[..i] == outputData;
  }

  // ---------------------------------------------------------------- layout

  function Spaces(n: int): string
  {
    Text.Repeat(' ', if n < 0 then 0 else n)
  }

  function Join(pieces: seq<string>): string
    decreases |pieces|
  {
    if pieces == [] then "" else pieces[0] + Join(pieces[1..])
  }

  /** Chunk(n): consecutive pieces of n characters, the last possibly shorter; none for an empty string. */
  function Chunk(s: string, n: int): (r: seq<string>)
    requires n > 0
    ensures |r| == 0 <==> s == []
    decreases |s|
  {
    if s == [] then []
    else if |s| <= n then [s]
    else [s[..n]] + Chunk(s[n..], n)
  }

  /** The chunks put back together give the string; every chunk but the last has n characters, none is empty. */
  lemma {:induction false} ChunkPieces(s: string, n: int)
    requires n > 0
    ensures Join(Chunk(s, n)) == s
    ensures forall i :: 0 <= i < |Chunk(s, n)| ==> 0 < |Chunk(s, n)[i]| <= n
    ensures forall i :: 0 <= i < |Chunk(s, n)| - 1 ==> |Chunk(s, n)[i]| == n
    ensures s != [] ==> Chunk(s, n)[0] == s[..if |s| < n then |s| else n]
    decreases |s|
  {
    if |s| > n {
      ChunkPieces(s[n..], n);
      assert s[..n] + s[n..] == s;
    }
  }

  /** A cell longer than its column needs one continuation line per further chunk: ceil(|s| / n) chunks in all. */
  lemma {:induction false} ChunkCount(s: string, n: int)
    requires n > 0
    ensures |Chunk(s, n)| == (|s| + n - 1) / n
    decreases |s|
  {
    if |s| > n {
      ChunkCount(s[n..], n);
      assert (|s| + n - 1) / n == (|s[n..]| + n - 1) / n + 1 by {
        DivPlusOne(|s[n..]| + n - 1, n);
      }
    } else if s != [] {
      assert (|s| + n - 1) / n == 1 by {
        DivPlusOne(|s| - 1, n);
      }
    }
  }

  lemma DivPlusOne(a: int, n: int)
    requires n > 0 && a >= 0
    ensures (a + n) / n == a / n + 1
  {
    Arith.DivUnique(a + n, n, a / n + 1, a % n);
  }

  /** The start of column j on a line: the widths before it plus one separator each. */
  function Indent(widths: seq<int>, j: int): int
    requires 0 <= j <= |widths|
  {
    Sum(widths[..j]) + j
  }

  lemma IndentStep(widths: seq<int>, j: int)
    requires 0 <= j < |widths|
    ensures Indent(widths, j + 1) == Indent(widths, j) + widths[j] + 1
  {
    assert widths[..j + 1][..j] == widths[..j];
  }

  /** Fixed-width pieces, each followed by the column divider. */
  function Columns(pieces: seq<string>): string
    decreases |pieces|
  {
    if pieces == [] then "" else Columns(pieces[..|pieces| - 1]) + pieces[|pieces| - 1] + " "
  }

  predicate Fits(pieces: seq<string>, widths: seq<int>)
  {
    |pieces| <= |widths| && forall k :: 0 <= k < |pieces| ==> |pieces[k]| == widths[k]
  }

  lemma {:induction false} ColumnsLength(pieces: seq<string>, widths: seq<int>)
    requires Fits(pieces, widths)
    ensures |Columns(pieces)| == Indent(widths, |pieces|)
    decreases |pieces|
  {
    if pieces == [] {
      assert widths[..0] == [];
    } else {
      var n := |pieces| - 1;
      ColumnsLength(pieces[..n], widths);
      IndentStep(widths, n);
    }
  }

  /** Laid out as Columns, piece j sits at Indent(j) and is followed by one blank. */
  lemma {:induction false} ColumnsAt(pieces: seq<string>, widths: seq<int>, j: int)
    requires Fits(pieces, widths) && 0 <= j < |pieces|
    ensures 0 <= Indent(widths, j) && Indent(widths, j) + widths[j] < |Columns(pieces)|
    ensures Columns(pieces)[Indent(widths, j)..Indent(widths, j) + widths[j]] == pieces[j]
    ensures Columns(pieces)[Indent(widths, j) + widths[j]] == ' '
    decreases |pieces|
  {
    var n := |pieces| - 1;
    var prefix := Columns(pieces[..n]);
    assert Columns(pieces) == prefix + pieces[n] + " ";
    ColumnsLength(pieces[..n], widths);
    if j < n {
      ColumnsAt(pieces[..n], widths, j);
      assert Columns(pieces)[..|prefix|] == prefix;
    } else {
      ColumnsLength(pieces, widths);
      IndentStep(widths, n);
      assert 0 <= |prefix|;
    }
  }

  function HeaderPieces(names: seq<string>, widths: seq<int>): (p: seq<string>)
    requires |names| <= |widths|
    ensures |p| == |names| && forall j :: 0 <= j < |names| ==> p[j] == Text.PadRight(names[j], widths[j])
  {
    seq(|names|, j requires 0 <= j < |names| => Text.PadRight(names[j], widths[j]))
  }

  function Dashes(width: int): (d: string)
    ensures |d| == if width < 0 then 0 else width
  {
    Text.Repeat('-', if width < 0 then 0 else width)
  }

  function DashPieces(widths: seq<int>): (p: seq<string>)
    ensures |p| == |widths| && forall j :: 0 <= j < |widths| ==> p[j] == Dashes(widths[j])
  {
    seq(|widths|, j requires 0 <= j < |widths| => Dashes(widths[j]))
  }

  /** The header row: each name padded to its column. */
  function HeaderRow(names: seq<string>, widths: seq<int>): string
    requires |names| <= |widths|
  {
    Columns(HeaderPieces(names, widths))
  }

  /** The second row: each column filled with dashes. */
  function DashRow(widths: seq<int>): string
  {
    Columns(DashPieces(widths))
  }

  /** Column j of the header row holds the name padded to the column width. */
  lemma HeaderRowAt(names: seq<string>, widths: seq<int>, j: int)
    requires |names| <= |widths| && 0 <= j < |names|
    requires forall k :: 0 <= k < |names| ==> |names[k]| <= widths[k]
    ensures 0 <= Indent(widths, j) && Indent(widths, j) + widths[j] < |HeaderRow(names, widths)|
    ensures HeaderRow(names, widths)[Indent(widths, j)..Indent(widths, j) + widths[j]] == Text.PadRight(names[j], widths[j])
    ensures HeaderRow(names, widths)[Indent(widths, j) + widths[j]] == ' '
  {
    ColumnsAt(HeaderPieces(names, widths), widths, j);
  }

  /** Column j of the dash row is widths[j] dashes. */
  lemma DashRowAt(widths: seq<int>, j: int)
    requires 0 <= j < |widths| && forall k :: 0 <= k < |widths| ==> widths[k] >= 0
    ensures 0 <= Indent(widths, j) && Indent(widths, j) + widths[j] < |DashRow(widths)|
    ensures DashRow(widths)[Indent(widths, j)..Indent(widths, j) + widths[j]] == Text.Repeat('-', widths[j])
    ensures DashRow(widths)[Indent(widths, j) + widths[j]] == ' '
  {
    ColumnsAt(DashPieces(widths), widths, j);
  }

  /** What a cell puts on its row: the first chunk when it is too wide, otherwise the whole cell, numbers right-aligned. */
  function CellText(cell: string, width: int, isNumber: string -> bool): (t: string)
    requires width > 0
    ensures |t| == width
  {
    if |cell| > width then Text.PadRight(Chunk(cell, width)[0], width)
    else if isNumber(cell) then Text.PadLeft(cell, width)
    else Text.PadRight(cell, width)
  }

  /** A continuation chunk: leading blanks dropped, padded to the column, then the divider. */
  function ChunkText(chunk: string, width: int): string
  {
    Text.PadRight(Text.TrimStart(chunk), width) + " "
  }

  /** The texts the chunks of a wrapped cell contribute to continuation lines. */
  function ChunkTexts(chunks: seq<string>, width: int): (t: seq<string>)
    ensures |t| == |chunks|
  {
    seq(|chunks|, i requires 0 <= i < |chunks| => ChunkText(chunks[i], width))
  }

  /** Chunk r of a wrapped cell goes on continuation line r - 1, which is created indented when missing. */
  function AddChunk(wrapped: seq<string>, text: string, r: int, indent: int): (res: seq<string>)
    requires 1 <= r <= |wrapped| + 1
    ensures |res| == Max(|wrapped|, r)
  {
    var w := if |wrapped| < r then wrapped + [Spaces(indent)] else wrapped;
    w[r - 1 := w[r - 1] + text]
  }

  /** Chunks 1 .. k-1 of a wrapped cell added to the continuation lines. */
  function AddChunks(wrapped: seq<string>, texts: seq<string>, k: int, indent: int): (res: seq<string>)
    requires 1 <= k <= |texts|
    ensures |res| == Max(|wrapped|, k - 1)
    decreases k
  {
    if k == 1 then wrapped
    else AddChunk(AddChunks(wrapped, texts, k - 1, indent), texts[k - 1], k - 1, indent)
  }

  /** Adding chunks only extends existing continuation lines, and every line it creates starts indented. */
  lemma {:induction false} AddChunksExtends(wrapped: seq<string>, texts: seq<string>, k: int, indent: int, i: int)
    requires 1 <= k <= |texts| && 0 <= i < Max(|wrapped|, k - 1)
    ensures i < |wrapped| ==> wrapped[i] <= AddChunks(wrapped, texts, k, indent)[i]
    ensures i >= |wrapped| ==> Spaces(indent) <= AddChunks(wrapped, texts, k, indent)[i]
    decreases k
  {
    if k > 1 {
      var prev := AddChunks(wrapped, texts, k - 1, indent);
      var next := AddChunks(wrapped, texts, k, indent);
      if i < |prev| {
        AddChunksExtends(wrapped, texts, k - 1, indent, i);
        assert prev[i] <= next[i];
        if i < |wrapped| {
          PrefixTransitive(wrapped[i], prev[i], next[i]);
        } else {
          PrefixTransitive(Spaces(indent), prev[i], next[i]);
        }
      } else {
        assert next[i] == Spaces(indent) + texts[k - 1];
      }
    }
  }

  /** A cell that fits pads every existing continuation line with blanks for its column. */
  function PadWrapped(wrapped: seq<string>, width: int): (res: seq<string>)
    ensures |res| == |wrapped|
  {
    seq(|wrapped|, i requires 0 <= i < |wrapped| => wrapped[i] + Spaces(width) + " ")
  }

  /** How many continuation lines a cell needs. */
  function Need(cell: string, width: int): nat
    requires width > 0
  {
    if |cell| > width then |Chunk(cell, width)| - 1 else 0
  }

  /** The continuation lines after one more column: its chunks when it wraps, blanks otherwise. */
  function NewLines(wrapped: seq<string>, cell: string, width: int, indent: int): (res: seq<string>)
    requires width > 0
    ensures |res| == Max(|wrapped|, Need(cell, width))
  {
    if |cell| > width then
      var texts := ChunkTexts(Chunk(cell, width), width);
      AddChunks(wrapped, texts, |texts|, indent)
    else PadWrapped(wrapped, width)
  }

  /** A column extends the row's continuation lines, and the lines it adds start at its indentation. */
  lemma NewLinesExtend(wrapped: seq<string>, cell: string, width: int, indent: int, i: int)
    requires width > 0 && 0 <= i < |NewLines(wrapped, cell, width, indent)|
    ensures i < |wrapped| ==> wrapped[i] <= NewLines(wrapped, cell, width, indent)[i]
    ensures i >= |wrapped| ==> Spaces(indent) <= NewLines(wrapped, cell, width, indent)[i]
  {
    if |cell| > width {
      var texts := ChunkTexts(Chunk(cell, width), width);
      AddChunksExtends(wrapped, texts, |texts|, indent, i);
    }
  }

  predicate Positive(widths: seq<int>)
  {
    forall j :: 0 <= j < |widths| ==> widths[j] > 0
  }

  /** A row's main line after its first k columns. */
  function RowLine(cells: seq<string>, widths: seq<int>, k: int, isNumber: string -> bool): string
    requires 0 <= k <= |cells| == |widths| && Positive(widths)
    decreases k
  {
    if k == 0 then "" else RowLine(cells, widths, k - 1, isNumber) + CellText(cells[k - 1], widths[k - 1], isNumber) + " "
  }

  /** A row's continuation lines after its first k columns. */
  function RowWrapped(cells: seq<string>, widths: seq<int>, k: int): seq<string>
    requires 0 <= k <= |cells| == |widths| && Positive(widths)
    decreases k
  {
    if k == 0 then [] else NewLines(RowWrapped(cells, widths, k - 1), cells[k - 1], widths[k - 1], Indent(widths, k - 1))
  }

  /** The largest need among the first k columns. */
  function MaxNeed(cells: seq<string>, widths: seq<int>, k: int): nat
    requires 0 <= k <= |cells| == |widths| && Positive(widths)
    decreases k
  {
    if k == 0 then 0 else Max(MaxNeed(cells, widths, k - 1), Need(cells[k - 1], widths[k - 1]))
  }

  /** The first column among the first k that needs more than r continuation lines. */
  function FirstNeeding(cells: seq<string>, widths: seq<int>, k: int, r: nat): (j: int)
    requires 0 <= k <= |cells| == |widths| && Positive(widths) && MaxNeed(cells, widths, k) > r
    ensures 0 <= j < k && Need(cells[j], widths[j]) > r
    decreases k
  {
    if MaxNeed(cells, widths, k - 1) > r then FirstNeeding(cells, widths, k - 1, r) else k - 1
  }

  function CellTexts(cells: seq<string>, widths: seq<int>, k: int, isNumber: string -> bool): (p: seq<string>)
    requires 0 <= k <= |cells| == |widths| && Positive(widths)
    ensures |p| == k && forall j :: 0 <= j < k ==> p[j] == CellText(cells[j], widths[j], isNumber)
  {
    seq(k, j requires 0 <= j < k => CellText(cells[j], widths[j], isNumber))
  }

  /** The main line is the cells' texts laid out in their columns. */
  lemma {:induction false} RowLineIsColumns(cells: seq<string>, widths: seq<int>, k: int, isNumber: string -> bool)
    requires 0 <= k <= |cells| == |widths| && Positive(widths)
    ensures RowLine(cells, widths, k, isNumber) == Columns(CellTexts(cells, widths, k, isNumber))
    decreases k
  {
    if k > 0 {
      RowLineIsColumns(cells, widths, k - 1, isNumber);
      assert CellTexts(cells, widths, k, isNumber)[..k - 1] == CellTexts(cells, widths, k - 1, isNumber);
    }
  }

  /** Column j of a row's main line holds the cell's text, exactly as wide as the column. */
  lemma RowLineAt(cells: seq<string>, widths: seq<int>, isNumber: string -> bool, j: int)
    requires |cells| == |widths| && Positive(widths) && 0 <= j < |cells|
    ensures 0 <= Indent(widths, j) && Indent(widths, j) + widths[j] < |RowLine(cells, widths, |cells|, isNumber)|
    ensures RowLine(cells, widths, |cells|, isNumber)[Indent(widths, j)..Indent(widths, j) + widths[j]]
      == CellText(cells[j], widths[j], isNumber)
    ensures RowLine(cells, widths, |cells|, isNumber)[Indent(widths, j) + widths[j]] == ' '
  {
    RowLineIsColumns(cells, widths, |cells|, isNumber);
    ColumnsAt(CellTexts(cells, widths, |cells|, isNumber), widths, j);
  }

  /** The main line is as long as all columns with their dividers. */
  lemma RowLineLength(cells: seq<string>, widths: seq<int>, isNumber: string -> bool)
    requires |cells| == |widths| && Positive(widths)
    ensures |RowLine(cells, widths, |cells|, isNumber)| == Indent(widths, |widths|)
  {
    RowLineIsColumns(cells, widths, |cells|, isNumber);
    ColumnsLength(CellTexts(cells, widths, |cells|, isNumber), widths);
  }

  lemma PrefixTransitive(a: string, b: string, c: string)
    requires a <= b && b <= c
    ensures a <= c
  {
    assert c[..|b|][..|a|] == c[..|a|];
  }

  /** The row has as many continuation lines as its most-wrapped cell needs. */
  lemma {:induction false} WrappedCount(cells: seq<string>, widths: seq<int>, k: int)
    requires 0 <= k <= |cells| == |widths| && Positive(widths)
    ensures |RowWrapped(cells, widths, k)| == MaxNeed(cells, widths, k)
    decreases k
  {
    if k > 0 {
      WrappedCount(cells, widths, k - 1);
    }
  }

  /** Continuation line r starts with the indentation of the first column that needed it. */
  lemma {:induction false} WrappedIndent(cells: seq<string>, widths: seq<int>, k: int, r: nat)
    requires 0 <= k <= |cells| == |widths| && Positive(widths) && r < MaxNeed(cells, widths, k)
    ensures r < |RowWrapped(cells, widths, k)|
    ensures Spaces(Indent(widths, FirstNeeding(cells, widths, k, r))) <= RowWrapped(cells, widths, k)[r]
    decreases k
  {
    WrappedCount(cells, widths, k);
    WrappedCount(cells, widths, k - 1);
    var before := RowWrapped(cells, widths, k - 1);
    NewLinesExtend(before, cells[k - 1], widths[k - 1], Indent(widths, k - 1), r);
    if r < |before| {
      WrappedIndent(cells, widths, k - 1, r);
      PrefixTransitive(Spaces(Indent(widths, FirstNeeding(cells, widths, k - 1, r))), before[r], RowWrapped(cells, widths, k)[r]);
    }
  }

  /** One chunk onto continuation line r - 1, creating it with the column's indentation when missing. */
  method AppendChunk(lines: seq<string>, text: string, r: int, indent: int) returns (res: seq<string>)
    requires 1 <= r <= |lines| + 1
    ensures res == AddChunk(lines, text, r, indent)
  {
    res := lines;
    if |res| < r {
      res := res + [Spaces(indent)];
    }
    res := res[r - 1 := res[r - 1] + text];
  }

  /**
   * Chunks 1 .. of a wrapped cell onto the continuation lines; `texts` holds each chunk
   * with its leading blanks trimmed and padded to the column, as the loop appends it.
   */
  method WrapCell(wrapped: seq<string>, texts: seq<string>, indent: int) returns (res: seq<string>)
    requires |texts| >= 1
    ensures res == AddChunks(wrapped, texts, |texts|, indent)
  {
    res := wrapped;
    var wrappedRowIndex := 1;
    while wrappedRowIndex < |texts|
      invariant 1 <= wrappedRowIndex <= |texts|
      invariant res == AddChunks(wrapped, texts, wrappedRowIndex, indent)
    {
      res := AppendChunk(res, texts[wrappedRowIndex], wrappedRowIndex, indent);
      wrappedRowIndex := wrappedRowIndex + 1;
    }
  }

  /** Blanks for a fitting cell on every existing continuation line. */
  method PadCells(wrapped: seq<string>, width: int) returns (res: seq<string>)
    ensures res == PadWrapped(wrapped, width)
  {
    res := wrapped;
    var k := 0;
    while k < |res|
      invariant 0 <= k <= |res| == |wrapped|
      invariant forall i :: 0 <= i < k ==> res[i] == wrapped[i] + Spaces(width) + " "
      invariant forall i :: k <= i < |res| ==> res[i] == wrapped[i]
    {
      res := res[k := res[k] + Spaces(width) + " "];
      k := k + 1;
    }
  }

  /** The column loop of WriteTable for one row: the main line, and the continuation lines in their builders. */
  method FormatRow(cells: seq<string>, widths: seq<int>, isNumber: string -> bool) returns (line: string, wrapped: seq<string>)
    requires |cells| == |widths| && Positive(widths)
    ensures line == RowLine(cells, widths, |cells|, isNumber)
    ensures wrapped == RowWrapped(cells, widths, |cells|)
  {
    line := "";
    wrapped := [];
    var columnIndex := 0;
    while columnIndex < |cells|
      invariant 0 <= columnIndex <= |cells|
      invariant line == RowLine(cells, widths, columnIndex, isNumber)
      invariant wrapped == RowWrapped(cells, widths, columnIndex)
    {
      line, wrapped := FormatCell(line, wrapped, cells[columnIndex], widths[columnIndex], Indent(widths, columnIndex), isNumber);
      RowStep(cells, widths, columnIndex, isNumber);
      columnIndex := columnIndex + 1;
    }
  }

  lemma RowStep(cells: seq<string>, widths: seq<int>, k: int, isNumber: string -> bool)
    requires 0 <= k < |cells| == |widths| && Positive(widths)
    ensures RowLine(cells, widths, k + 1, isNumber) == RowLine(cells, widths, k, isNumber) + CellText(cells[k], widths[k], isNumber) + " "
    ensures RowWrapped(cells, widths, k + 1) == NewLines(RowWrapped(cells, widths, k), cells[k], widths[k], Indent(widths, k))
  {
  }

  /** One pass of the column loop: the cell's text on the main line, its chunks or blanks on the continuation lines. */
  method FormatCell(line: string, wrapped: seq<string>, cell: string, width: int, indent: int, isNumber: string -> bool)
    returns (newLine: string, newWrapped: seq<string>)
    requires width > 0
    ensures newLine == line + CellText(cell, width, isNumber) + " "
    ensures newWrapped == NewLines(wrapped, cell, width, indent)
  {
    newLine := line + CellText(cell, width, isNumber) + " ";
    if |cell| > width {
      newWrapped := WrapCell(wrapped, ChunkTexts(Chunk(cell, width), width), indent);
    } else {
      newWrapped := PadCells(wrapped, width);
    }
  }

  // ---------------------------------------------------------------- table

  function JoinLines(lines: seq<string>, newLine: string): string
    decreases |lines|
  {
    if lines == [] then "" else JoinLines(lines[..|lines| - 1], newLine) + lines[|lines| - 1] + newLine
  }

  /** A row's text: its main line, then each continuation line, each ended by a line break. */
  function RowLines(cells: seq<string>, widths: seq<int>, isNumber: string -> bool, newLine: string): string
    requires |cells| == |widths| && Positive(widths)
  {
    RowLine(cells, widths, |cells|, isNumber) + newLine + JoinLines(RowWrapped(cells, widths, |cells|), newLine)
  }

  /** The text of the first n data rows. */
  function BodyText(rows: seq<seq<string>>, widths: seq<int>, n: int, isNumber: string -> bool, newLine: string): string
    requires 0 <= n <= |rows| && RowsFit(rows, |widths|) && Positive(widths)
    decreases n
  {
    if n == 0 then ""
    else BodyText(rows, widths, n - 1, isNumber, newLine) + RowLines(rows[n - 1], widths, isNumber, newLine)
  }

  /** The whole table: header, dashes, then the rows. */
  function TableText(rows: seq<seq<string>>, bufferWidth: int, names: seq<string>, isNumber: string -> bool, newLine: string): string
    requires RowsFit(rows, |names|)
  {
    var widths := ColumnWidths(names, rows, bufferWidth);
    HeaderRow(names, widths) + newLine + DashRow(widths) + newLine + BodyText(rows, widths, |rows|, isNumber, newLine)
  }

  /** The first property name that the row type does not have. */
  function FirstMissing(names: seq<string>, available: set<string>): (k: int)
    ensures 0 <= k <= |names|
    ensures forall i :: 0 <= i < k ==> names[i] in available
    ensures k < |names| ==> names[k] !in available
    decreases |names|
  {
    if names == [] then 0
    else if names[0] !in available then 0
    else 1 + FirstMissing(names[1..], available)
  }

  function MissingPropertyMessage(name: string): string
  {
    "Property [" + name + "] was not found"
  }

  /** The validation loop of WriteTable: the index of the first unknown property name, or none. */
  method FindMissing(names: seq<string>, available: set<string>) returns (k: int)
    ensures k == FirstMissing(names, available)
  {
    k := 0;
    while k < |names| && names[k] in available
      invariant 0 <= k <= |names|
      invariant forall i :: 0 <= i < k ==> names[i] in available
    {
      k := k + 1;
    }
    FirstMissingIsFirst(names, available, k);
  }

  lemma {:induction false} FirstMissingIsFirst(names: seq<string>, available: set<string>, k: int)
    requires 0 <= k <= |names| && (forall i :: 0 <= i < k ==> names[i] in available)
    requires k < |names| ==> names[k] !in available
    ensures k == FirstMissing(names, available)
    decreases |names|
  {
    if k > 0 {
      FirstMissingIsFirst(names[1..], available, k - 1);
    }
  }

  lemma Associative(a: string, b: string, c: string)
    ensures a + b + c == a + (b + c)
  {
  }

  /** Lines appended to the builder, each followed by a line break. */
  method AppendLines(sb: string, lines: seq<string>, newLine: string) returns (res: string)
    ensures res == sb + JoinLines(lines, newLine)
  {
    res := sb;
    var k := 0;
    while k < |lines|
      invariant 0 <= k <= |lines|
      invariant res == sb + JoinLines(lines[..k], newLine)
    {
      ghost var done := JoinLines(lines[..k], newLine);
      assert lines[..k + 1][..k] == lines[..k];
      assert JoinLines(lines[..k + 1], newLine) == done + lines[k] + newLine;
      res := res + lines[k] + newLine;
      Associative(sb, done, lines[k]);
      Associative(sb, done + lines[k], newLine);
      k := k + 1;
    }
    assert lines[..k] == lines;
  }

  /** One row written out: the main line, then each continuation builder, each followed by a line break. */
  method WriteRow(sb: string, cells: seq<string>, widths: seq<int>, isNumber: string -> bool, newLine: string) returns (res: string)
    requires |cells| == |widths| && Positive(widths)
    ensures res == sb + RowLines(cells, widths, isNumber, newLine)
  {
    var line, wrapped := FormatRow(cells, widths, isNumber);
    res := sb + line + newLine;
    res := AppendLines(res, wrapped, newLine);
    Associative(sb, line, newLine);
    Associative(sb, line + newLine, JoinLines(wrapped, newLine));
  }

  /** The row loop of WriteTable. */
  method WriteRows(sb: string, rows: seq<seq<string>>, widths: seq<int>, isNumber: string -> bool, newLine: string) returns (res: string)
    requires RowsFit(rows, |widths|) && Positive(widths)
    ensures res == sb + BodyText(rows, widths, |rows|, isNumber, newLine)
  {
    res := sb;
    var rowIndex := 0;
    while rowIndex < |rows|
      invariant 0 <= rowIndex <= |rows|
      invariant res == sb + BodyText(rows, widths, rowIndex, isNumber, newLine)
    {
      res := WriteRow(res, rows[rowIndex], widths, isNumber, newLine);
      BodyTextStep(sb, rows, widths, rowIndex, isNumber, newLine);
      rowIndex := rowIndex + 1;
    }
  }

  lemma BodyTextStep(sb: string, rows: seq<seq<string>>, widths: seq<int>, n: int, isNumber: string -> bool, newLine: string)
    requires 0 <= n < |rows| && RowsFit(rows, |widths|) && Positive(widths)
    ensures |rows[n]| == |widths|
    ensures sb + BodyText(rows, widths, n, isNumber, newLine) + RowLines(rows[n], widths, isNumber, newLine)
         == sb + BodyText(rows, widths, n + 1, isNumber, newLine)
  {
    Associative(sb, BodyText(rows, widths, n, isNumber, newLine), RowLines(rows[n], widths, isNumber, newLine));
  }

  /**
   * WriteTable(bufferWidth, propertyNames): a null source is an empty table; an unknown
   * property name is rejected before any output; otherwise the table text.
   */
  method WriteTable(source: Option<seq<seq<string>>>, bufferWidth: int, propertyNames: seq<string>, available: set<string>,
                    isNumber: string -> bool, newLine: string) returns (r: Result<string, string>)
    requires source.Some? ==> RowsFit(source.value, |propertyNames|)
    ensures r.Failure? <==> exists i :: 0 <= i < |propertyNames| && propertyNames[i] !in available
    ensures r.Failure? ==> r.error == MissingPropertyMessage(propertyNames[FirstMissing(propertyNames, available)])
    ensures r.Success? ==> r.value == TableText(if source.Some? then source.value else [], bufferWidth, propertyNames, isNumber, newLine)
  {
    var rows := if source.Some? then source.value else [];
    var missing := FindMissing(propertyNames, available);
    if missing < |propertyNames| {
      return Failure(MissingPropertyMessage(propertyNames[missing]));
    }
    var columnWidths := ComputeColumnWidths(bufferWidth, propertyNames, rows);
    var widths := columnWidths[..];
    var sb := HeaderRow(propertyNames, widths) + newLine;
    sb := sb + DashRow(widths) + newLine;
    sb := WriteRows(sb, rows, widths, isNumber, newLine);
    return Success(sb);
  }
}
