/** spreadsheet-app/app.h: cell positions, sheet geometry and hit testing,
    selection ranges and the initial application state. */
module Spreadsheet {
  import opened Base
  import opened Slices

  /* --- Positions ----------------------------------------------------------- */

  /** `Pos`: a cell, by row and column. */
  datatype Pos = Pos(row: U64, col: U64)
  {
    /** `Pos::cmp`: by row, then by column. */
    function Cmp(o: Pos): (r: Ordr)
      ensures r == Eq <==> this == o
      ensures r == Lt <==> row < o.row || (row == o.row && col < o.col)
      ensures r == Gt <==> row > o.row || (row == o.row && col > o.col)
    {
      Then(Base.Cmp(row, o.row), Base.Cmp(col, o.col))
    }
  }

  /** Comparing the other way round flips the order. */
  lemma PosCmpFlip(p: Pos, q: Pos)
    ensures q.Cmp(p) == Flip(p.Cmp(q))
  {
  }

  /* --- Sheet geometry ------------------------------------------------------ */

  const CELL_WIDTH: int := 96
  const CELL_HEIGHT: int := 24
  const MAX_ROWS: nat := U16_LIMIT - 1
  const MAX_COLS: nat := 26
  const DEFAULT_LINES: nat := 23

  /** A `Row` (`height`, `y`) or a `Col` (`width`, `x`): its extent and where it starts. */
  datatype Line = Line(size: int, start: int)
  {
    predicate Contains(p: int)
    {
      start <= p < start + size
    }
  }

  /** The total extent of `lines`. */
  function SizeSum(lines: seq<Line>): int
  {
    if |lines| == 0 then 0 else SizeSum(lines[..|lines| - 1]) + lines[|lines| - 1].size
  }

  lemma SizeSumStep(lines: seq<Line>, i: nat)
    requires i < |lines|
    ensures SizeSum(lines[..i + 1]) == SizeSum(lines[..i]) + lines[i].size
  {
    assert lines[..i + 1][..i] == lines[..i];
  }

  /** The extent depends on the sizes only. */
  lemma {:induction false} SizeSumSizesOnly(a: seq<Line>, b: seq<Line>)
    requires |a| == |b| && forall i | 0 <= i < |a| :: a[i].size == b[i].size
    ensures SizeSum(a) == SizeSum(b)
  {
    if |a| > 0 {
      SizeSumSizesOnly(a[..|a| - 1], b[..|b| - 1]);
    }
  }

  /** Each line starts where the lines before it end, as an `i32` running sum. */
  ghost predicate LaidOut(lines: seq<Line>)
  {
    forall i | 0 <= i < |lines| :: lines[i].start == ToI32(SizeSum(lines[..i]))
  }

  /** Laid out, every size positive and the total within `i32`. */
  ghost predicate Spaced(lines: seq<Line>)
  {
    LaidOut(lines) && (forall i | 0 <= i < |lines| :: lines[i].size > 0) && SizeSum(lines) < 0x8000_0000
  }

  /** The running sum of `recompute` over one list: each start becomes the
      `i32` sum of the sizes before it; sizes stay. */
  method LayOut(lines: seq<Line>) returns (r: seq<Line>)
    ensures |r| == |lines| && forall i | 0 <= i < |r| :: r[i].size == lines[i].size
    ensures LaidOut(r)
  {
    r := lines;
    var acc := 0;
    for i := 0 to |lines|
      invariant |r| == |lines| && forall k | 0 <= k < |r| :: r[k].size == lines[k].size
      invariant forall k | 0 <= k < i :: r[k].start == ToI32(SizeSum(lines[..k]))
      invariant acc == ToI32(SizeSum(lines[..i]))
    {
      r := r[i := r[i].(start := acc)];
      SizeSumStep(lines, i);
      ToI32Add(SizeSum(lines[..i]), lines[i].size);
      acc := ToI32(acc + lines[i].size);
    }
    forall k | 0 <= k < |r|
      ensures r[k].start == ToI32(SizeSum(r[..k]))
    {
      SizeSumSizesOnly(r[..k], lines[..k]);
    }
  }

  lemma {:induction false} SizeSumNonNegative(lines: seq<Line>, j: nat)
    requires forall k | 0 <= k < |lines| :: lines[k].size > 0
    requires j <= |lines|
    ensures SizeSum(lines[..j]) >= 0
  {
    if j > 0 {
      SizeSumNonNegative(lines, j - 1);
      SizeSumStep(lines, j - 1);
    } else {
      assert lines[..0] == [];
    }
  }

  /** With positive sizes the prefix sums grow: a line ends no later than any
      later line starts, and no prefix passes the total. */
  lemma {:induction false} SizeSumGrows(lines: seq<Line>, i: nat, j: nat)
    requires forall k | 0 <= k < |lines| :: lines[k].size > 0
    requires i <= j <= |lines|
    ensures 0 <= SizeSum(lines[..i]) <= SizeSum(lines[..j])
    ensures i < j ==> SizeSum(lines[..i]) + lines[i].size <= SizeSum(lines[..j])
    decreases j
  {
    if i < j {
      SizeSumGrows(lines, i, j - 1);
      SizeSumStep(lines, j - 1);
    } else {
      SizeSumNonNegative(lines, i);
    }
  }

  /** In spaced lines the starts are the exact prefix sums. */
  lemma SpacedStarts(lines: seq<Line>, i: nat)
    requires Spaced(lines) && i < |lines|
    ensures lines[i].start == SizeSum(lines[..i]) && lines[i].start + lines[i].size <= SizeSum(lines)
  {
    assert lines[..|lines|] == lines;
    SizeSumGrows(lines, i, |lines|);
  }

  /** The probe `rowAt`/`colAt` hand to `search`. */
  function Probe(p: int): Line -> Ordr
  {
    (l: Line) => if l.Contains(p) then Eq else Base.Cmp(l.start, p)
  }

  /** Over spaced lines the probe is ordered as `search` needs. */
  lemma ProbeMonotone(lines: seq<Line>, p: int)
    requires Spaced(lines)
    ensures Monotone(lines, Probe(p))
  {
    forall i, j | 0 <= i <= j < |lines|
      ensures Rank(Probe(p)(lines[i])) <= Rank(Probe(p)(lines[j]))
    {
      if i < j {
        SpacedStarts(lines, i);
        SpacedStarts(lines, j);
        SizeSumGrows(lines, i, j);
      }
    }
  }

  /** Spaced lines tile `[0, total)`: some line holds `p` exactly when `p` is in it. */
  lemma {:induction false} SpacedCovers(lines: seq<Line>, k: nat, p: int)
    requires Spaced(lines) && k <= |lines|
    ensures (exists i | 0 <= i < k :: lines[i].Contains(p)) <==> 0 <= p < SizeSum(lines[..k])
    decreases k
  {
    if k > 0 {
      SpacedCovers(lines, k - 1, p);
      SpacedStarts(lines, k - 1);
      SizeSumStep(lines, k - 1);
      forall i | 0 <= i < k
        ensures lines[i].Contains(p) ==> 0 <= p < SizeSum(lines[..k])
      {
        SpacedStarts(lines, i);
        SizeSumGrows(lines, i, k);
      }
    } else {
      assert lines[..0] == [];
    }
  }

  /** `rowAt`/`colAt`: binary search for the line holding `p`. The probe
      also answers equal for an empty line starting at `p`. */
  method LineAt(lines: seq<Line>, p: int) returns (r: Option<nat>)
    ensures r.Some? ==> r.value < |lines| && (lines[r.value].Contains(p) || lines[r.value].start == p)
    ensures Spaced(lines) ==> (r.Some? <==> 0 <= p < SizeSum(lines))
    ensures Spaced(lines) && r.Some? ==> lines[r.value].Contains(p)
  {
    r := Search(lines, Probe(p));
    if Spaced(lines) {
      ProbeMonotone(lines, p);
      SpacedCovers(lines, |lines|, p);
      assert lines[..|lines|] == lines;
    }
  }

  /** `Sheet`: its name, frozen counts and row and column geometry. */
  class Sheet {
    var name: string
    var freezedRows: nat
    var freezedCols: nat
    var rows: seq<Line>
    var cols: seq<Line>

    /** A sheet of 23 default rows and 23 default columns, not yet laid out. */
    constructor(name: string)
      ensures this.name == name && freezedRows == 0 && freezedCols == 0
      ensures rows == seq(DEFAULT_LINES, _ => Line(CELL_HEIGHT, 0))
      ensures cols == seq(DEFAULT_LINES, _ => Line(CELL_WIDTH, 0))
    {
      this.name, freezedRows, freezedCols := name, 0, 0;
      rows := seq(DEFAULT_LINES, _ => Line(CELL_HEIGHT, 0));
      cols := seq(DEFAULT_LINES, _ => Line(CELL_WIDTH, 0));
    }

    /** `recompute()`: lays the rows out top to bottom and the columns left to right. */
    method Recompute()
      modifies this
      ensures name == old(name) && freezedRows == old(freezedRows) && freezedCols == old(freezedCols)
      ensures |rows| == |old(rows)| && forall i | 0 <= i < |rows| :: rows[i].size == old(rows[i].size)
      ensures |cols| == |old(cols)| && forall i | 0 <= i < |cols| :: cols[i].size == old(cols[i].size)
      ensures LaidOut(rows) && LaidOut(cols)
    {
      rows := LayOut(rows);
      cols := LayOut(cols);
    }

    method RowAt(y: int) returns (r: Option<nat>)
      ensures r.Some? ==> r.value < |rows| && (rows[r.value].Contains(y) || rows[r.value].start == y)
      ensures Spaced(rows) ==> (r.Some? <==> 0 <= y < SizeSum(rows))
      ensures Spaced(rows) && r.Some? ==> rows[r.value].Contains(y)
    {
      r := LineAt(rows, y);
    }

    method ColAt(x: int) returns (r: Option<nat>)
      ensures r.Some? ==> r.value < |cols| && (cols[r.value].Contains(x) || cols[r.value].start == x)
      ensures Spaced(cols) ==> (r.Some? <==> 0 <= x < SizeSum(cols))
      ensures Spaced(cols) && r.Some? ==> cols[r.value].Contains(x)
    {
      r := LineAt(cols, x);
    }

    /** `cellAt(p)`: the cell under a point, when both a row and a column hold it. */
    method CellAt(x: int, y: int) returns (r: Option<Pos>)
      requires |rows| < U64_LIMIT && |cols| < U64_LIMIT
      ensures r.Some? ==> r.value.row < |rows| && r.value.col < |cols|
      ensures Spaced(rows) && r.Some? ==> rows[r.value.row].Contains(y)
      ensures Spaced(cols) && r.Some? ==> cols[r.value.col].Contains(x)
      ensures Spaced(rows) && Spaced(cols) ==> (r.Some? <==> 0 <= y < SizeSum(rows) && 0 <= x < SizeSum(cols))
    {
      var row := RowAt(y);
      var col := ColAt(x);
      if row.Some? && col.Some? {
        return Some(Pos(row.value, col.value));
      }
      return None;
    }
  }

  /** Uniform lines laid out start at multiples of their size. */
  lemma {:induction false} UniformSizeSum(size: int, n: nat, k: nat)
    requires k <= n
    ensures SizeSum(seq(n, _ => Line(size, 0))[..k]) == size * k
    decreases k
  {
    var lines := seq(n, _ => Line(size, 0));
    if k > 0 {
      UniformSizeSum(size, n, k - 1);
      SizeSumStep(lines, k - 1);
    } else {
      assert lines[..0] == [];
    }
  }

  /* --- Ranges -------------------------------------------------------------- */

  /** `Range`: a selection between two corner cells, in either order. */
  datatype Range = Range(start: Pos, end: Pos)
  {
    /** The cell lies between the corners in both directions. */
    ghost predicate Covers(p: Pos)
    {
      Min(start.row, end.row) <= p.row <= Max(start.row, end.row)
      && Min(start.col, end.col) <= p.col <= Max(start.col, end.col)
    }

    /** `normalised()`: the same cells, with the top-left corner first. */
    function Normalised(): (r: Range)
      ensures r.start.row <= r.end.row && r.start.col <= r.end.col
      ensures forall p :: r.Covers(p) <==> Covers(p)
    {
      Range(Pos(Min(start.row, end.row), Min(start.col, end.col)),
            Pos(Max(start.row, end.row), Max(start.col, end.col)))
    }

    /** `rows()`: the number of rows covered, as a `usize`. */
    function Rows(): (r: U64)
      ensures Abs(end.row - start.row) + 1 < U64_LIMIT ==> r == Abs(end.row - start.row) + 1
      ensures Abs(end.row - start.row) + 1 == U64_LIMIT ==> r == 0
    {
      var n := Normalised();
      ToUsize(n.end.row - n.start.row + 1)
    }

    /** `cols()`: the number of columns covered, as a `usize`. */
    function Cols(): (r: U64)
      ensures Abs(end.col - start.col) + 1 < U64_LIMIT ==> r == Abs(end.col - start.col) + 1
      ensures Abs(end.col - start.col) + 1 == U64_LIMIT ==> r == 0
    {
      var n := Normalised();
      ToUsize(n.end.col - n.start.col + 1)
    }

    /** `Range::cmp`: by start, then by end. */
    function Cmp(o: Range): (r: Ordr)
      ensures r == Eq <==> this == o
      ensures start != o.start ==> r == start.Cmp(o.start)
      ensures start == o.start ==> r == end.Cmp(o.end)
    {
      Then(start.Cmp(o.start), end.Cmp(o.end))
    }
  }

  /** `Range(pos)`: the single cell. */
  function CellRange(pos: Pos): (r: Range)
    ensures r.start == pos && r.end == pos
  {
    Range(pos, pos)
  }

  /** A single cell spans one row and one column and covers only itself. */
  lemma CellRangeSize(pos: Pos)
    ensures CellRange(pos).Rows() == 1 && CellRange(pos).Cols() == 1
    ensures forall p :: CellRange(pos).Covers(p) <==> p == pos
  {
  }

  /** Normalising twice is normalising once. */
  lemma NormalisedIdempotent(r: Range)
    ensures r.Normalised().Normalised() == r.Normalised()
  {
  }

  /* --- Book and state ------------------------------------------------------ */

  /** `Book`: a name and its sheets. */
  class Book {
    var name: string
    var sheets: seq<Sheet>

    /** Three fresh sheets, "Sheet 1" to "Sheet 3". */
    constructor()
      ensures name == "" && |sheets| == 3
      ensures sheets[0].name == "Sheet 1" && sheets[1].name == "Sheet 2" && sheets[2].name == "Sheet 3"
      ensures forall i | 0 <= i < 3 :: fresh(sheets[i])
      ensures forall i | 0 <= i < 3 :: sheets[i].rows == seq(DEFAULT_LINES, _ => Line(CELL_HEIGHT, 0))
      ensures forall i | 0 <= i < 3 :: sheets[i].cols == seq(DEFAULT_LINES, _ => Line(CELL_WIDTH, 0))
    {
      name := "";
      var s1 := new Sheet("Sheet 1");
      var s2 := new Sheet("Sheet 2");
      var s3 := new Sheet("Sheet 3");
      sheets := [s1, s2, s3];
    }
  }

  /** `State`: the book, the active sheet and the selection. */
  class State {
    var book: Book
    var active: nat
    var selection: Option<Range>

    /** The default book with its first sheet laid out: row `i` starts at
        `24 * i` and column `i` at `96 * i`. */
    constructor()
      ensures fresh(book) && active == 0 && selection == None && |book.sheets| == 3
      ensures |book.sheets[0].rows| == DEFAULT_LINES && |book.sheets[0].cols| == DEFAULT_LINES
      ensures forall i | 0 <= i < DEFAULT_LINES :: book.sheets[0].rows[i] == Line(CELL_HEIGHT, CELL_HEIGHT * i)
      ensures forall i | 0 <= i < DEFAULT_LINES :: book.sheets[0].cols[i] == Line(CELL_WIDTH, CELL_WIDTH * i)
      ensures book.name == "" && book.sheets[0].name == "Sheet 1"
      ensures book.sheets[1].name == "Sheet 2" && book.sheets[2].name == "Sheet 3"
      ensures forall i | 1 <= i < 3 :: book.sheets[i].rows == seq(DEFAULT_LINES, _ => Line(CELL_HEIGHT, 0))
      ensures forall i | 1 <= i < 3 :: book.sheets[i].cols == seq(DEFAULT_LINES, _ => Line(CELL_WIDTH, 0))
    {
      var b := new Book();
      book, active, selection := b, 0, None;
      new;
      var sheet := book.sheets[0];
      ghost var others := book.sheets[1..];
      assert others[0].rows == others[1].rows == seq(DEFAULT_LINES, _ => Line(CELL_HEIGHT, 0));
      assert others[0].cols == others[1].cols == seq(DEFAULT_LINES, _ => Line(CELL_WIDTH, 0));
      sheet.Recompute();
      assert book.sheets[1..] == others;
      forall i | 0 <= i < DEFAULT_LINES
        ensures sheet.rows[i] == Line(CELL_HEIGHT, CELL_HEIGHT * i)
        ensures sheet.cols[i] == Line(CELL_WIDTH, CELL_WIDTH * i)
      {
        UniformSizeSum(CELL_HEIGHT, DEFAULT_LINES, i);
        SizeSumSizesOnly(sheet.rows[..i], seq(DEFAULT_LINES, _ => Line(CELL_HEIGHT, 0))[..i]);
        UniformSizeSum(CELL_WIDTH, DEFAULT_LINES, i);
        SizeSumSizesOnly(sheet.cols[..i], seq(DEFAULT_LINES, _ => Line(CELL_WIDTH, 0))[..i]);
      }
    }
  }
}
