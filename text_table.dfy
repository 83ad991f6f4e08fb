/**
 * `TextTable`: rows of text cells collected one cell at a time, the column
 * widths kept alongside them, the alignment of each column, and the ruler
 * line drawn between rows.
 */
module TextTables {
  datatype Alignment = LEFT | RIGHT

  /** A row of cells. */
  type Row = seq<string>

  /** `repeat` takes its count as a 32-bit `unsigned`. */
  const UNSIGNED_MOD: nat := 0x1_0000_0000

  function Max(a: nat, b: nat): (r: nat)
    ensures r >= a && r >= b && (r == a || r == b)
  {
    if a >= b then a else b
  }

  /** Every cell of `row` fits the width of its column. */
  predicate Covers(width: seq<nat>, row: Row) {
    |row| <= |width| && forall i | 0 <= i < |row| :: |row[i]| <= width[i]
  }

  /** `w` has at least the columns of `v`, each at least as wide. */
  predicate Dominates(w: seq<nat>, v: seq<nat>) {
    |v| <= |w| && forall i | 0 <= i < |v| :: v[i] <= w[i]
  }

  /** The widths with zero-width columns appended until there are `n`. */
  function Grown(width: seq<nat>, n: nat): (r: seq<nat>)
    ensures |r| == Max(|width|, n) && r[..|width|] == width
    ensures forall i | |width| <= i < |r| :: r[i] == 0
  {
    if |width| >= n then width else width + seq(n - |width|, _ => 0)
  }

  /** The widths after a cell of `len` characters has been added in column `col`. */
  function Widened(width: seq<nat>, col: nat, len: nat): (r: seq<nat>)
    ensures |r| == Max(|width|, col + 1)
  {
    var w := Grown(width, col + 1);
    w[col := Max(w[col], len)]
  }

  /** Adding a cell keeps every earlier width, and the grown widths cover the row with the cell. */
  lemma WidenedCovers(width: seq<nat>, row: Row, content: string)
    requires Covers(width, row)
    ensures Dominates(Widened(width, |row|, |content|), width)
    ensures Covers(Widened(width, |row|, |content|), row + [content])
  {
    var r := Widened(width, |row|, |content|);
    var w := Grown(width, |row| + 1);
    assert forall i | 0 <= i < |width| :: w[i] == width[i] by {
      assert w[..|width|] == width;
    }
  }

  /** The widths after the cells `cells` have been added one by one to the row `row`. */
  function WidthsAfter(width: seq<nat>, row: Row, cells: seq<string>): seq<nat>
    decreases |cells|
  {
    if cells == [] then width
    else WidthsAfter(Widened(width, |row|, |cells[0]|), row + [cells[0]], cells[1..])
  }

  /** Domination carries over to every row a narrower set of widths covers. */
  lemma DominatesCovers(w: seq<nat>, v: seq<nat>, row: Row)
    requires Dominates(w, v) && Covers(v, row)
    ensures Covers(w, row)
  {
  }

  /**
   * Adding a row of cells keeps every earlier width, and the widths then
   * cover the row built from the cells.
   */
  lemma {:induction false} WidthsAfterCovers(width: seq<nat>, row: Row, cells: seq<string>)
    requires Covers(width, row)
    ensures Dominates(WidthsAfter(width, row, cells), width)
    ensures Covers(WidthsAfter(width, row, cells), row + cells)
    decreases |cells|
  {
    if cells != [] {
      var w := Widened(width, |row|, |cells[0]|);
      WidenedCovers(width, row, cells[0]);
      WidthsAfterCovers(w, row + [cells[0]], cells[1..]);
      assert row + [cells[0]] + cells[1..] == row + cells;
    }
  }

  /** The widest cell of column `i` over `rows` (0 when no row reaches that column). */
  function ColumnMax(rows: seq<Row>, i: nat): nat {
    if rows == [] then 0
    else
      var last := rows[|rows| - 1];
      Max(ColumnMax(rows[..|rows| - 1], i), if i < |last| then |last[i]| else 0)
  }

  /** The column maximum bounds every cell of its column, and is the length of one of them unless it is 0. */
  lemma {:induction false} ColumnMaxIsMax(rows: seq<Row>, i: nat)
    ensures forall k | 0 <= k < |rows| && i < |rows[k]| :: |rows[k][i]| <= ColumnMax(rows, i)
    ensures ColumnMax(rows, i) == 0
      || exists k | 0 <= k < |rows| && i < |rows[k]| :: |rows[k][i]| == ColumnMax(rows, i)
    decreases |rows|
  {
    if rows != [] {
      var init := rows[..|rows| - 1];
      ColumnMaxIsMax(init, i);
      assert forall k | 0 <= k < |init| :: init[k] == rows[k];
    }
  }

  /** The column maxima of the first `n` columns. */
  function ColumnMaxima(rows: seq<Row>, n: nat): (r: seq<nat>)
    ensures |r| == n && forall i | 0 <= i < n :: r[i] == ColumnMax(rows, i)
  {
    seq(n, i requires 0 <= i < n => ColumnMax(rows, i))
  }

  /** The widths `determineWidths` computes cover every row no longer than the first. */
  lemma ColumnMaximaCover(rows: seq<Row>, r: Row)
    requires rows != [] && r in rows && |r| <= |rows[0]|
    ensures Covers(ColumnMaxima(rows, |rows[0]|), r)
  {
    var k :| 0 <= k < |rows| && rows[k] == r;
    forall i | 0 <= i < |r|
      ensures |r[i]| <= ColumnMax(rows, i)
    {
      ColumnMaxIsMax(rows, i);
    }
  }

  /** The ruler: a corner, then for each column its width (cut to 32 bits) in horizontal characters and a corner. */
  function RulerOf(corner: char, horizontal: char, width: seq<nat>): (r: string)
    ensures |r| == RulerLength(width) && r[0] == corner && r[|r| - 1] == corner
  {
    if width == [] then [corner]
    else
      RulerOf(corner, horizontal, width[..|width| - 1])
        + seq(width[|width| - 1] % UNSIGNED_MOD, _ => horizontal) + [corner]
  }

  /** 1 + the sum of (width cut to 32 bits) + 1 over the columns. */
  function RulerLength(width: seq<nat>): nat {
    if width == [] then 1 else RulerLength(width[..|width| - 1]) + width[|width| - 1] % UNSIGNED_MOD + 1
  }

  /** The sum of width + 1 over the columns. */
  function ColumnsTotal(width: seq<nat>): nat {
    if width == [] then 0 else ColumnsTotal(width[..|width| - 1]) + width[|width| - 1] + 1
  }

  /** When no width reaches 2^32 the ruler is 1 + the sum of width + 1 characters long. */
  lemma {:induction false} RulerLengthUncut(width: seq<nat>)
    requires forall i | 0 <= i < |width| :: width[i] < UNSIGNED_MOD
    ensures RulerLength(width) == 1 + ColumnsTotal(width)
    decreases |width|
  {
    if width != [] {
      var init := width[..|width| - 1];
      assert forall i | 0 <= i < |init| :: init[i] == width[i];
      RulerLengthUncut(init);
    }
  }

  /** `setupAlignment`'s result: LEFT added for each of the first `n` columns without an alignment. */
  function WithDefaults(alignment: map<nat, Alignment>, n: nat): (r: map<nat, Alignment>)
    ensures forall i: nat :: i in r <==> i in alignment || i < n
    ensures forall i | i in alignment :: r[i] == alignment[i]
    ensures forall i | 0 <= i < n && i !in alignment :: r[i] == LEFT
  {
    if n == 0 then alignment
    else
      var r := WithDefaults(alignment, n - 1);
      if n - 1 in r then r else r[n - 1 := LEFT]
  }

  /** `repeat`: `times` copies of `c`, built in a countdown loop. */
  method Repeat(times: nat, c: char) returns (result: string)
    requires times < UNSIGNED_MOD
    ensures |result| == times && forall i | 0 <= i < |result| :: result[i] == c
  {
    result := [];
    var t := times;
    while t > 0
      invariant 0 <= t <= times && |result| == times - t
      invariant forall i | 0 <= i < |result| :: result[i] == c
    {
      result := result + [c];
      t := t - 1;
    }
  }

  class TextTable {
    var horizontal: char
    var vertical: char
    var corner: char
    var current: Row
    var rows: seq<Row>
    var width: seq<nat>
    var alignment: map<nat, Alignment>

    /** The widths cover the row being built and every finished row. */
    ghost predicate Fits()
      reads this
    {
      Covers(width, current) && forall r | r in rows :: Covers(width, r)
    }

    constructor (horizontal: char, vertical: char, corner: char)
      ensures this.horizontal == horizontal && this.vertical == vertical && this.corner == corner
      ensures current == [] && rows == [] && width == [] && alignment == map[]
      ensures Fits()
    {
      this.horizontal := horizontal;
      this.vertical := vertical;
      this.corner := corner;
      current := [];
      rows := [];
      width := [];
      alignment := map[];
    }

    /** `setAlignment`: an explicit alignment for column `i`. */
    method SetAlignment(i: nat, a: Alignment)
      modifies this`alignment
      ensures alignment == old(alignment)[i := a]
    {
      alignment := alignment[i := a];
    }

    /** `add`: the cell joins the current row, and its column widens to hold it. */
    method Add(content: string)
      modifies this`current, this`width
      ensures current == old(current) + [content]
      ensures width == Widened(old(width), |old(current)|, |content|)
      ensures old(Fits()) ==> Fits()
    {
      ghost var w0 := width;
      ghost var row0 := current;
      current := current + [content];
      while |width| < |current|
        invariant current == row0 + [content]
        invariant |w0| <= |width| <= Max(|w0|, |current|)
        invariant width == w0 + seq(|width| - |w0|, _ => 0)
        decreases |current| - |width|
      {
        width := width + [0];
      }
      assert width == Grown(w0, |current|);
      var currWidth := width[|current| - 1];
      width := width[|current| - 1 := Max(currWidth, |content|)];
      if Covers(w0, row0) && forall r | r in rows :: Covers(w0, r) {
        WidenedCovers(w0, row0, content);
        forall r | r in rows
          ensures Covers(width, r)
        {
          DominatesCovers(width, w0, r);
        }
      }
    }

    /** `endOfRow`: a non-empty current row moves to the finished rows; an empty one changes nothing. */
    method EndOfRow()
      modifies this`rows, this`current
      ensures old(current) == [] ==> rows == old(rows)
      ensures old(current) != [] ==> rows == old(rows) + [old(current)]
      ensures current == []
      ensures old(Fits()) ==> Fits()
    {
      if current != [] {
        rows := rows + [current];
        current := [];
      }
    }

    /** `addRow`: every cell added in turn, then the row ended. */
    method AddRow(cells: seq<string>)
      modifies this`rows, this`current, this`width
      ensures width == WidthsAfter(old(width), old(current), cells)
      ensures rows == old(rows) + (if old(current) + cells == [] then [] else [old(current) + cells])
      ensures current == []
      ensures old(Fits()) ==> Fits()
    {
      var k := 0;
      while k < |cells|
        invariant 0 <= k <= |cells|
        invariant current == old(current) + cells[..k] && rows == old(rows)
        invariant WidthsAfter(width, current, cells[k..]) == WidthsAfter(old(width), old(current), cells)
        invariant old(Fits()) ==> Fits()
      {
        assert cells[k..][1..] == cells[k + 1..];
        Add(cells[k]);
        assert cells[..k + 1] == cells[..k] + [cells[k]];
        k := k + 1;
      }
      assert cells[..k] == cells;
      EndOfRow();
    }

    /**
     * `ruler`: a corner, then for each column as many horizontal
     * characters as its width (cut to the 32 bits `repeat` takes) and a
     * corner.
     */
    method Ruler() returns (result: string)
      ensures result == RulerOf(corner, horizontal, width)
    {
      result := [corner];
      var i := 0;
      while i < |width|
        invariant 0 <= i <= |width|
        invariant result == RulerOf(corner, horizontal, width[..i])
      {
        assert width[..i + 1][..i] == width[..i];
        var line := Repeat(width[i] % UNSIGNED_MOD, horizontal);
        result := result + line;
        result := result + [corner];
        i := i + 1;
      }
      assert width[..i] == width;
    }

    /**
     * `determineWidths`: without rows nothing changes; otherwise one width
     * per cell of the first row, each the widest cell of its column. A row
     * longer than the first would be written past the widths' end.
     */
    method DetermineWidths()
      modifies this`width
      requires forall r | r in rows :: |r| <= |rows[0]|
      ensures rows == [] ==> width == old(width)
      ensures rows != [] ==> width == ColumnMaxima(rows, |rows[0]|)
    {
      if rows == [] {
        return;
      }
      var n := |rows[0]|;
      width := seq(n, _ => 0);
      var k := 0;
      while k < |rows|
        invariant 0 <= k <= |rows| && |width| == n
        invariant forall j | 0 <= j < n :: width[j] == ColumnMax(rows[..k], j)
      {
        var row := rows[k];
        assert row in rows;
        assert rows[..k + 1][..k] == rows[..k];
        var i := 0;
        while i < |row|
          invariant 0 <= i <= |row| && |width| == n
          invariant forall j | 0 <= j < i :: width[j] == ColumnMax(rows[..k + 1], j)
          invariant forall j | i <= j < n :: width[j] == ColumnMax(rows[..k], j)
        {
          width := width[i := Max(width[i], |row[i]|)];
          i := i + 1;
        }
        k := k + 1;
      }
      assert rows[..k] == rows;
    }

    /** `setupAlignment`: without rows nothing changes; otherwise each column of the first row without an alignment gets LEFT. */
    method SetupAlignment()
      modifies this`alignment
      ensures rows == [] ==> alignment == old(alignment)
      ensures rows != [] ==> alignment == WithDefaults(old(alignment), |rows[0]|)
    {
      if rows == [] {
        return;
      }
      var i := 0;
      while i < |rows[0]|
        invariant 0 <= i <= |rows[0]|
        invariant alignment == WithDefaults(old(alignment), i)
      {
        ghost var next := WithDefaults(old(alignment), i + 1);
        assert next == if i in alignment then alignment else alignment[i := LEFT];
        if i !in alignment {
          alignment := alignment[i := LEFT];
        }
        i := i + 1;
      }
    }

    /** `setup`: the widths, then the alignments. */
    method Setup()
      modifies this`width, this`alignment
      requires forall r | r in rows :: |r| <= |rows[0]|
      ensures rows == [] ==> width == old(width) && alignment == old(alignment)
      ensures rows != [] ==> width == ColumnMaxima(rows, |rows[0]|) && alignment == WithDefaults(old(alignment), |rows[0]|)
    {
      DetermineWidths();
      SetupAlignment();
    }
  }
}
