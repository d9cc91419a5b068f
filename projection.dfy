/** How one accepted scan is mirrored onto the two spreadsheets: the monthly
    attendance matrix (one row per name, one column per day) and the daily
    IN/OUT board (Name, Department, Status, Time). */
module Projection {
  import opened Text
  import opened Clock
  import opened Sheet

  const StatusIn: string := "IN"
  const StatusOut: string := "OUT"

  /** The monthly cell for a sign-in at time of day `t`: late strictly after
      08:30. */
  function MonthlyStatus(t: TimeOfDay): (s: string)
    ensures s == "Present(LATE)" <==> t > LateSigninTime
    ensures s == "Present" <==> t <= LateSigninTime
  {
    if t > LateSigninTime then "Present(LATE)" else "Present"
  }

  /** The progress of a monthly cell through a day: blank, then any other
      text ("Absent"), then a presence mark. */
  function Rank(s: string): nat
  {
    if IsBlank(s) then 0 else if s == "Present" || s == "Present(LATE)" then 2 else 1
  }

  /** update_monthly_sheet_status: on a sign-in, the name's cell in today's
      column gets the presence mark; a sign-out, or a name without a row,
      writes nothing. */
  function MonthlyAfterScan(g: Grid, name: string, rows: map<string, Pos>, col: Pos, t: TimeOfDay, signedIn: bool): Grid
  {
    if signedIn && name in rows then ApplyWrites(g, [CellWrite(rows[name], col, MonthlyStatus(t))]) else g
  }

  /** The two cells update_daily_sheet_row writes: Status (column 3) and Time
      (column 4) of the name's row. */
  function DailyWrites(row: Pos, status: string, timeText: string): seq<CellWrite>
  {
    [CellWrite(row, 3, status), CellWrite(row, 4, timeText)]
  }

  /** update_daily_sheet_row as a change of the daily grid. */
  function DailyAfterScan(g: Grid, name: string, status: string, timeText: string, rows: map<string, Pos>): Grid
  {
    if name in rows then ApplyWrites(g, DailyWrites(rows[name], status, timeText)) else g
  }

  /** Only the scanned name's cell in today's column can change, and only on a
      sign-in, to "Present(LATE)" after 08:30 and "Present" otherwise. */
  lemma MonthlyScanCell(g: Grid, name: string, rows: map<string, Pos>, col: Pos, t: TimeOfDay, signedIn: bool, r: Pos, c: Pos)
    ensures Cell(MonthlyAfterScan(g, name, rows, col, t, signedIn), r, c) ==
      if signedIn && name in rows && r == rows[name] && c == col then MonthlyStatus(t) else Cell(g, r, c)
  {
    if signedIn && name in rows {
      ApplyWritesCell(g, [CellWrite(rows[name], col, MonthlyStatus(t))], r, c);
      assert [CellWrite(rows[name], col, MonthlyStatus(t))][1..] == [];
    }
  }

  /** No monthly cell ever moves back: a scan only writes presence marks, and
      a sign-out writes nothing at all. */
  lemma MonthlyNeverReverted(g: Grid, name: string, rows: map<string, Pos>, col: Pos, t: TimeOfDay, signedIn: bool, r: Pos, c: Pos)
    ensures Rank(Cell(MonthlyAfterScan(g, name, rows, col, t, signedIn), r, c)) >= Rank(Cell(g, r, c))
    ensures !signedIn ==> MonthlyAfterScan(g, name, rows, col, t, signedIn) == g
  {
    MonthlyScanCell(g, name, rows, col, t, signedIn, r, c);
  }

  /** The daily update touches exactly the Status and Time cells of the
      name's row, and nothing when the name has no row. */
  lemma DailyScanCell(g: Grid, name: string, status: string, timeText: string, rows: map<string, Pos>, r: Pos, c: Pos)
    ensures Cell(DailyAfterScan(g, name, status, timeText, rows), r, c) ==
      if name in rows && r == rows[name] && c == 3 then status
      else if name in rows && r == rows[name] && c == 4 then timeText
      else Cell(g, r, c)
  {
    if name in rows {
      var ws := DailyWrites(rows[name], status, timeText);
      ApplyWritesCell(g, ws, r, c);
      assert ws[1..] == [CellWrite(rows[name], 4, timeText)];
      assert ws[1..][1..] == [];
      assert LastWrite(ws[1..], r, c) == if r == rows[name] && c == 4 then Some(timeText) else None;
    }
  }

  /** update_monthly_sheet_status. */
  method UpdateMonthlySheetStatus(month: Worksheet, name: string, rows: map<string, Pos>, col: Pos, t: TimeOfDay, signedIn: bool)
    modifies month
    ensures month.cells == MonthlyAfterScan(old(month.cells), name, rows, col, t, signedIn)
  {
    if name !in rows {
      return;  // not in the monthly name cache
    }
    if signedIn {
      month.BatchUpdate([CellWrite(rows[name], col, MonthlyStatus(t))]);
    }
  }

  /** update_daily_sheet_row; the result says whether the name had a row. */
  method UpdateDailySheetRow(daily: Worksheet, name: string, status: string, timeText: string, rows: map<string, Pos>)
    returns (updated: bool)
    modifies daily
    ensures updated == (name in rows)
    ensures daily.cells == DailyAfterScan(old(daily.cells), name, status, timeText, rows)
  {
    if name !in rows {
      return false;
    }
    daily.BatchUpdate(DailyWrites(rows[name], status, timeText));
    updated := true;
  }
}
