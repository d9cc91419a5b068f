/** A worksheet as the spreadsheet API shows it: a ragged grid of strings
    whose cells are addressed by 1-based (row, column) pairs, where a cell
    outside the stored rows and columns reads as "" (empty). */
module Sheet {
  import opened Text

  type Grid = seq<seq<string>>

  type Pos = n: int | 1 <= n witness 1

  /** One entry of a `batch_update`: write `value` into (row, col). */
  datatype CellWrite = CellWrite(row: Pos, col: Pos, value: string)

  function Cell(g: Grid, r: Pos, c: Pos): string
  {
    if r <= |g| && c <= |g[r - 1]| then g[r - 1][c - 1] else ""
  }

  /** Writing one cell, growing the grid with empty rows and cells when the
      address lies outside it. Only the addressed cell changes. */
  function SetCell(g: Grid, r: Pos, c: Pos, v: string): (g': Grid)
    ensures |g'| == if r <= |g| then |g| else r
    ensures forall r': Pos, c': Pos :: Cell(g', r', c') == if r' == r && c' == c then v else Cell(g, r', c')
  {
    var rows := if r <= |g| then g else g + seq(r - |g|, _ => []);
    var row := rows[r - 1];
    var wide := if c <= |row| then row else row + seq(c - |row|, _ => "");
    rows[r - 1 := wide[c - 1 := v]]
  }

  /** A write whose cell already holds its value inside the stored grid leaves
      the grid exactly as it was. */
  lemma SetCellSame(g: Grid, r: Pos, c: Pos, v: string)
    requires r <= |g| && c <= |g[r - 1]| && g[r - 1][c - 1] == v
    ensures SetCell(g, r, c, v) == g
  {
    assert g[r - 1][c - 1 := v] == g[r - 1];
  }

  /** `batch_update(writes)`: the writes applied in order. */
  function ApplyWrites(g: Grid, ws: seq<CellWrite>): Grid
    decreases |ws|
  {
    if ws == [] then g else ApplyWrites(SetCell(g, ws[0].row, ws[0].col, ws[0].value), ws[1..])
  }

  /** The value the last write to (r, c) in `ws` puts there, if any. */
  function LastWrite(ws: seq<CellWrite>, r: Pos, c: Pos): Option<string>
    decreases |ws|
  {
    if ws == [] then None
    else match LastWrite(ws[1..], r, c)
      case Some(v) => Some(v)
      case None => if ws[0].row == r && ws[0].col == c then Some(ws[0].value) else None
  }

  /** A batch update sets every addressed cell to the last value written to it
      and leaves every other cell as it was. */
  lemma {:induction false} ApplyWritesCell(g: Grid, ws: seq<CellWrite>, r: Pos, c: Pos)
    ensures Cell(ApplyWrites(g, ws), r, c) ==
      match LastWrite(ws, r, c) case Some(v) => v case None => Cell(g, r, c)
    decreases |ws|
  {
    if ws != [] {
      ApplyWritesCell(SetCell(g, ws[0].row, ws[0].col, ws[0].value), ws[1..], r, c);
    }
  }

  lemma {:induction false} LastWriteNone(ws: seq<CellWrite>, r: Pos, c: Pos)
    requires forall i :: 0 <= i < |ws| ==> ws[i].row != r || ws[i].col != c
    ensures LastWrite(ws, r, c) == None
    decreases |ws|
  {
    if ws != [] {
      LastWriteNone(ws[1..], r, c);
    }
  }

  lemma {:induction false} LastWriteUnique(ws: seq<CellWrite>, k: nat)
    requires k < |ws|
    requires forall i :: 0 <= i < |ws| && i != k ==> ws[i].row != ws[k].row || ws[i].col != ws[k].col
    ensures LastWrite(ws, ws[k].row, ws[k].col) == Some(ws[k].value)
    decreases |ws|
  {
    if k == 0 {
      LastWriteNone(ws[1..], ws[0].row, ws[0].col);
    } else {
      LastWriteUnique(ws[1..], k - 1);
    }
  }

  /** Some write of `ws` goes to (r, c). */
  predicate Addresses(ws: seq<CellWrite>, r: Pos, c: Pos)
  {
    exists i :: 0 <= i < |ws| && ws[i].row == r && ws[i].col == c
  }

  /** Some write of `ws` goes to row `r`. */
  predicate WritesRow(ws: seq<CellWrite>, r: Pos)
  {
    exists i :: 0 <= i < |ws| && ws[i].row == r
  }

  lemma AddressesConcat(a: seq<CellWrite>, b: seq<CellWrite>, r: Pos, c: Pos)
    ensures Addresses(a + b, r, c) <==> Addresses(a, r, c) || Addresses(b, r, c)
  {
    if Addresses(a + b, r, c) {
      var i :| 0 <= i < |a + b| && (a + b)[i].row == r && (a + b)[i].col == c;
      if i >= |a| {
        assert b[i - |a|] == (a + b)[i];
      }
    }
    if Addresses(a, r, c) {
      var j :| 0 <= j < |a| && a[j].row == r && a[j].col == c;
      assert (a + b)[j] == a[j];
    }
    if Addresses(b, r, c) {
      var j :| 0 <= j < |b| && b[j].row == r && b[j].col == c;
      assert (a + b)[|a| + j] == b[j];
    }
  }

  lemma WritesRowConcat(a: seq<CellWrite>, b: seq<CellWrite>, r: Pos)
    ensures WritesRow(a + b, r) <==> WritesRow(a, r) || WritesRow(b, r)
  {
    if WritesRow(a + b, r) {
      var i :| 0 <= i < |a + b| && (a + b)[i].row == r;
      if i >= |a| {
        assert b[i - |a|] == (a + b)[i];
      }
    }
    if WritesRow(a, r) {
      var j :| 0 <= j < |a| && a[j].row == r;
      assert (a + b)[j] == a[j];
    }
    if WritesRow(b, r) {
      var j :| 0 <= j < |b| && b[j].row == r;
      assert (a + b)[|a| + j] == b[j];
    }
  }

  /** When every write to (r, c) in a batch carries the same value, the cell
      ends up holding that value if it is addressed at all. */
  lemma {:induction false} LastWriteUniform(ws: seq<CellWrite>, v: string, r: Pos, c: Pos)
    requires forall i :: 0 <= i < |ws| && ws[i].row == r && ws[i].col == c ==> ws[i].value == v
    ensures LastWrite(ws, r, c) == if Addresses(ws, r, c) then Some(v) else None
    decreases |ws|
  {
    if ws != [] {
      LastWriteUniform(ws[1..], v, r, c);
      AddressesConcat([ws[0]], ws[1..], r, c);
      assert [ws[0]] + ws[1..] == ws;
      assert Addresses([ws[0]], r, c) <==> ws[0].row == r && ws[0].col == c;
    }
  }

  lemma {:induction false} ApplyWritesSame(g: Grid, ws: seq<CellWrite>)
    requires forall i :: 0 <= i < |ws| ==>
      ws[i].row <= |g| && ws[i].col <= |g[ws[i].row - 1]| && g[ws[i].row - 1][ws[i].col - 1] == ws[i].value
    ensures ApplyWrites(g, ws) == g
    decreases |ws|
  {
    if ws != [] {
      SetCellSame(g, ws[0].row, ws[0].col, ws[0].value);
      ApplyWritesSame(g, ws[1..]);
    }
  }

  /** `StripTrailing(s)`: `s` without its trailing empty strings, which the
      spreadsheet API leaves out of every row or column it returns. */
  function StripTrailing(s: seq<string>): (t: seq<string>)
    ensures |t| <= |s| && t == s[..|t|]
    ensures forall i :: |t| <= i < |s| ==> s[i] == ""
    ensures t != [] ==> t[|t| - 1] != ""
  {
    if s == [] then []
    else if s[|s| - 1] == "" then StripTrailing(s[..|s| - 1])
    else s
  }

  function Column(g: Grid, c: Pos): (col: seq<string>)
    ensures |col| == |g| && forall i :: 0 <= i < |g| ==> col[i] == Cell(g, i + 1, c)
  {
    seq(|g|, i requires 0 <= i < |g| => Cell(g, i + 1, c))
  }

  /** `col_values(c)`. */
  function ColValues(g: Grid, c: Pos): seq<string>
  {
    StripTrailing(Column(g, c))
  }

  /** `row_values(r)`. */
  function RowValues(g: Grid, r: Pos): seq<string>
  {
    StripTrailing(if r <= |g| then g[r - 1] else [])
  }

  /** The value the source reads for row `r` from a fetched column — the
      entry `r - 1` when the list is long enough, "" beyond its end — is
      exactly the cell's content: the trimmed tail held only empty cells. */
  lemma ColValuesAt(g: Grid, c: Pos, r: Pos)
    ensures (var vs := ColValues(g, c); if r <= |vs| then vs[r - 1] else "") == Cell(g, r, c)
  {
    var vs := ColValues(g, c);
    if r > |vs| && r <= |g| {
      assert Column(g, c)[r - 1] == "";
    }
  }

  /** A non-empty cell's row lies inside the fetched column. */
  lemma ColValuesCovers(g: Grid, c: Pos, r: Pos)
    requires Cell(g, r, c) != ""
    ensures r <= |ColValues(g, c)| && ColValues(g, c)[r - 1] == Cell(g, r, c)
  {
    ColValuesAt(g, c, r);
  }

  /** Appending rows leaves the cells of the existing rows as they were. */
  lemma AppendCell(g: Grid, extra: Grid, r: Pos, c: Pos)
    ensures Cell(g + extra, r, c) == if r <= |g| then Cell(g, r, c) else Cell(extra, r - |g|, c)
  {
    if r <= |g| {
      assert (g + extra)[r - 1] == g[r - 1];
    } else if r <= |g| + |extra| {
      assert (g + extra)[r - 1] == extra[r - |g| - 1];
    }
  }

  /** A grid reads back at least as many column values as another grid that
      agrees with it on every cell of that column. */
  lemma ColValuesNoShorter(a: Grid, b: Grid, c: Pos)
    requires forall r: Pos :: Cell(a, r, c) == Cell(b, r, c)
    ensures |ColValues(a, c)| >= |ColValues(b, c)|
  {
    var vb := ColValues(b, c);
    if vb != [] {
      ColValuesAt(b, c, |vb|);
      ColValuesCovers(a, c, |vb|);
    }
  }

  /** Two grids that agree on every cell of a column read back the same
      column values. */
  lemma ColValuesExt(a: Grid, b: Grid, c: Pos)
    requires forall r: Pos :: Cell(a, r, c) == Cell(b, r, c)
    ensures ColValues(a, c) == ColValues(b, c)
  {
    var va, vb := ColValues(a, c), ColValues(b, c);
    ColValuesNoShorter(a, b, c);
    ColValuesNoShorter(b, a, c);
    forall i | 0 <= i < |va|
      ensures va[i] == vb[i]
    {
      ColValuesAt(a, c, i + 1);
      ColValuesAt(b, c, i + 1);
    }
  }

  /** After appending rows whose first cells are the non-empty names `ns`,
      the first column reads back as the whole old column followed by `ns`. */
  lemma {:induction false} AppendedNames(g: Grid, extra: Grid, ns: seq<string>)
    requires |extra| == |ns|
    requires forall k :: 0 <= k < |ns| ==> |extra[k]| >= 1 && extra[k][0] == ns[k] && ns[k] != ""
    ensures ColValues(g + extra, 1) == if ns == [] then ColValues(g, 1) else Column(g, 1) + ns
  {
    if ns == [] {
      assert g + extra == g;
    } else {
      var col := Column(g + extra, 1);
      assert col == Column(g, 1) + ns by {
        forall i | 0 <= i < |col|
          ensures col[i] == (Column(g, 1) + ns)[i]
        {
          if i >= |g| {
            assert (g + extra)[i] == extra[i - |g|];
          }
        }
      }
      assert col[|col| - 1] != "";
    }
  }

  /** `{name: i + 1 for i, name in enumerate(names)}`: every name maps to the
      row of its LAST occurrence. */
  function RowIndex(names: seq<string>): (m: map<string, Pos>)
    ensures m.Keys == set x | x in names
    ensures forall x :: x in m ==> m[x] <= |names| && names[m[x] - 1] == x
  {
    if names == [] then map[]
    else
      var init := names[..|names| - 1];
      var m0 := RowIndex(init);
      assert forall x :: x in names <==> x in init || x == names[|names| - 1];
      m0[names[|names| - 1] := |names|]
  }

  /** No row after the one the index names holds the same name: the last
      occurrence wins. */
  lemma {:induction false} RowIndexLast(names: seq<string>, x: string, j: int)
    requires x in RowIndex(names) && RowIndex(names)[x] <= j < |names|
    ensures names[j] != x
  {
    var init := names[..|names| - 1];
    if j < |names| - 1 {
      assert x != names[|names| - 1];
      assert x in RowIndex(init) && RowIndex(init)[x] == RowIndex(names)[x];
      RowIndexLast(init, x, j);
      assert init[j] == names[j];
    }
  }

  /** A name that does not occur again later is indexed at its own row. */
  lemma {:induction false} RowIndexAt(names: seq<string>, k: int)
    requires 0 <= k < |names| && forall j :: k < j < |names| ==> names[j] != names[k]
    ensures names[k] in RowIndex(names) && RowIndex(names)[names[k]] == k + 1
  {
    if k < |names| - 1 {
      var init := names[..|names| - 1];
      RowIndexAt(init, k);
      assert init[k] == names[k];
    }
  }

  /** Two names of the index never share a row. */
  lemma RowIndexInjective(names: seq<string>, x: string, y: string)
    requires x in RowIndex(names) && y in RowIndex(names) && x != y
    ensures RowIndex(names)[x] != RowIndex(names)[y]
  {
  }

  /** The name map of `g` points `n` at a row of `g` that is `row`. */
  predicate RowsHold(g: Grid, n: string, row: seq<string>)
  {
    var rows := RowIndex(ColValues(g, 1));
    n in rows && rows[n] <= |g| && g[rows[n] - 1] == row
  }

  /** Naming the row the map points at establishes `RowsHold`. */
  lemma {:induction false} RowsHoldAt(g: Grid, n: string, row: seq<string>, p: Pos)
    requires n in RowIndex(ColValues(g, 1)) && RowIndex(ColValues(g, 1))[n] == p
    requires p <= |g| && g[p - 1] == row
    ensures RowsHold(g, n, row)
  {
  }

  /** An appended row whose name occurs once among the appended names is
      the row the name map points to. */
  lemma AppendedRow(g: Grid, extra: Grid, ns: seq<string>, k: nat)
    requires |extra| == |ns|
    requires forall j :: 0 <= j < |ns| ==> |extra[j]| >= 1 && extra[j][0] == ns[j] && ns[j] != ""
    requires k < |ns| && forall j :: 0 <= j < |ns| && j != k ==> ns[j] != ns[k]
    ensures ns[k] in RowIndex(ColValues(g + extra, 1))
    ensures RowIndex(ColValues(g + extra, 1))[ns[k]] == |g| + k + 1
  {
    AppendedNames(g, extra, ns);
    var names := Column(g, 1) + ns;
    forall j | |g| + k < j < |names|
      ensures names[j] != names[|g| + k]
    {
      assert names[j] == ns[j - |g|];
    }
    RowIndexAt(names, |g| + k);
  }

  /** So the name map of the grown grid points that name at the appended
      row itself. */
  lemma AppendedRowHolds(g: Grid, extra: Grid, ns: seq<string>, k: nat)
    requires |extra| == |ns|
    requires forall j :: 0 <= j < |ns| ==> |extra[j]| >= 1 && extra[j][0] == ns[j] && ns[j] != ""
    requires k < |ns| && forall j :: 0 <= j < |ns| && j != k ==> ns[j] != ns[k]
    ensures RowsHold(g + extra, ns[k], extra[k])
  {
    AppendedRow(g, extra, ns, k);
    assert (g + extra)[|g| + k] == extra[k];
    RowsHoldAt(g + extra, ns[k], extra[k], |g| + k + 1);
  }

  /** A worksheet object; the spreadsheet behind it is changed in place by
      `batch_update`, `update` and `append_rows`. */
  class Worksheet {
    var cells: Grid

    constructor (g: Grid)
      ensures cells == g
    {
      cells := g;
    }

    /** `batch_update(writes)` (and `update("A1", [values])`, which is the
        batch of row-1 writes). */
    method BatchUpdate(ws: seq<CellWrite>)
      modifies this
      ensures cells == ApplyWrites(old(cells), ws)
    {
      cells := ApplyWrites(cells, ws);
    }

    /** `append_rows(rows)`. */
    method AppendRows(rows: Grid)
      modifies this
      ensures cells == old(cells) + rows
    {
      cells := cells + rows;
    }
  }
}
